/** The request handling of the infobot HTTP host: cleaning the engine's
    answer of log lines, the fixed table served by `/modes`, and the result
    record built by `/query`. The retrieval engine itself is a parameter. */
module InfobotHost {
  import opened PyText

  /** The Python values the engine's `query` may return: `None`, a `str`, or
      any other object (kept opaque, identified only by its `repr`). */
  datatype PyValue = PyNone | PyStr(s: string) | PyOther(repr: string)

  datatype Option<T> = None | Some(value: T)

  // ---------------------------------------------------------------------
  // extract_clean_response

  /** The prefixes of the lines that the logging configuration
      (`"%(levelname)s:%(message)s"`) writes into an answer. */
  const LogPrefixes: seq<string> := ["INFO:", "WARNING:", "ERROR:", "DEBUG:"]

  /** `line.startswith(('INFO:', 'WARNING:', 'ERROR:', 'DEBUG:'))`. */
  predicate IsLogLine(line: string)
  {
    StartsWithAny(line, LogPrefixes)
  }

  /** The list comprehension `[line for line in lines if not drop(line)]`. */
  function Without(lines: seq<string>, drop: string -> bool): (kept: seq<string>)
    ensures |kept| <= |lines|
    ensures forall k :: 0 <= k < |kept| ==> !drop(kept[k])
  {
    if lines == [] then []
    else (if drop(lines[0]) then [] else [lines[0]]) + Without(lines[1..], drop)
  }

  /** The comprehension of `extract_clean_response`: the lines that are not
      log lines. */
  function DropLogLines(lines: seq<string>): (kept: seq<string>)
    ensures forall k :: 0 <= k < |kept| ==> !IsLogLine(kept[k])
  {
    Without(lines, IsLogLine)
  }

  /** `kept[k]` is the line at position `idx[k]` of `lines`. */
  ghost predicate Picks(lines: seq<string>, kept: seq<string>, idx: seq<nat>)
  {
    |idx| == |kept| && forall k :: 0 <= k < |idx| ==> idx[k] < |lines| && kept[k] == lines[idx[k]]
  }

  ghost predicate Increasing(idx: seq<nat>)
  {
    forall k, l :: 0 <= k < l < |idx| ==> idx[k] < idx[l]
  }

  /** A position of `lines` is listed in `idx` exactly when its line is not dropped. */
  ghost predicate ListsKept(lines: seq<string>, drop: string -> bool, idx: seq<nat>)
  {
    forall j :: 0 <= j < |lines| ==> (j in idx <==> !drop(lines[j]))
  }

  /** `kept` consists exactly of the lines of `lines` that `drop` does not
      reject, in their original order: `idx` lists, strictly increasing, the
      positions they come from, and a position is listed if and only if its
      line is kept. */
  ghost predicate ExactPositions(lines: seq<string>, drop: string -> bool, kept: seq<string>, idx: seq<nat>)
  {
    Picks(lines, kept, idx) && Increasing(idx) && ListsKept(lines, drop, idx)
  }

  /** The comprehension keeps exactly the lines not dropped, in order. */
  lemma {:induction false} WithoutExact(lines: seq<string>, drop: string -> bool) returns (idx: seq<nat>)
    ensures ExactPositions(lines, drop, Without(lines, drop), idx)
  {
    if lines == [] {
      idx := [];
    } else {
      var tail := lines[1..];
      var rest := WithoutExact(tail, drop);
      if drop(lines[0]) {
        idx := Shift(rest);
        assert Without(lines, drop) == Without(tail, drop) by {
          assert [] + Without(tail, drop) == Without(tail, drop);
        }
        PicksShift(lines, Without(tail, drop), rest);
      } else {
        idx := [0] + Shift(rest);
        assert Without(lines, drop) == [lines[0]] + Without(tail, drop);
        PicksCons(lines, Without(tail, drop), rest);
        IncreasingCons(rest);
      }
      ListsKeptStep(lines, drop, rest);
    }
  }

  /** Every position moved up by one. */
  function Shift(rest: seq<nat>): (shifted: seq<nat>)
    ensures |shifted| == |rest|
    ensures forall k :: 0 <= k < |rest| ==> shifted[k] == rest[k] + 1
  {
    seq(|rest|, k requires 0 <= k < |rest| => rest[k] + 1)
  }

  /** Position `j + 1` is among the shifted positions exactly when `j` is
      among the original ones. */
  lemma ShiftIn(rest: seq<nat>, j: nat)
    ensures j + 1 in Shift(rest) <==> j in rest
    ensures 0 !in Shift(rest)
  {
    var shifted := Shift(rest);
    if j + 1 in shifted {
      var k :| 0 <= k < |shifted| && shifted[k] == j + 1;
      assert rest[k] == j;
    }
    if j in rest {
      var k :| 0 <= k < |rest| && rest[k] == j;
      assert shifted[k] == j + 1;
    }
  }

  /** Picking from the tail is picking at shifted positions of the whole. */
  lemma PicksShift(lines: seq<string>, kept: seq<string>, rest: seq<nat>)
    requires lines != [] && Picks(lines[1..], kept, rest)
    ensures Picks(lines, kept, Shift(rest))
  {
    var idx := Shift(rest);
    forall k | 0 <= k < |idx| ensures idx[k] < |lines| && kept[k] == lines[idx[k]] {
      assert lines[1..][rest[k]] == lines[idx[k]];
    }
  }

  /** Keeping the first line puts position 0 in front. */
  lemma PicksCons(lines: seq<string>, kept: seq<string>, rest: seq<nat>)
    requires lines != [] && Picks(lines[1..], kept, rest)
    ensures Picks(lines, [lines[0]] + kept, [0] + Shift(rest))
  {
    var shifted := Shift(rest);
    var idx := [0] + shifted;
    var all := [lines[0]] + kept;
    forall k | 0 <= k < |idx| ensures idx[k] < |lines| && all[k] == lines[idx[k]] {
      if k > 0 {
        assert idx[k] == shifted[k - 1] && all[k] == kept[k - 1];
        assert lines[1..][rest[k - 1]] == lines[idx[k]];
      }
    }
  }

  lemma IncreasingCons(rest: seq<nat>)
    requires Increasing(rest)
    ensures Increasing([0] + Shift(rest))
  {
    var shifted := Shift(rest);
    var idx := [0] + shifted;
    forall k, l | 0 <= k < l < |idx| ensures idx[k] < idx[l] {
      assert idx[l] == shifted[l - 1];
      if k > 0 { assert idx[k] == shifted[k - 1]; }
    }
  }

  /** The listed positions of the whole follow from those of the tail. */
  lemma ListsKeptStep(lines: seq<string>, drop: string -> bool, rest: seq<nat>)
    requires lines != [] && ListsKept(lines[1..], drop, rest)
    ensures ListsKept(lines, drop, if drop(lines[0]) then Shift(rest) else [0] + Shift(rest))
  {
    var shifted := Shift(rest);
    var idx := if drop(lines[0]) then shifted else [0] + shifted;
    forall j | 0 <= j < |lines| ensures j in idx <==> !drop(lines[j]) {
      if j > 0 {
        assert lines[1..][j - 1] == lines[j];
        ShiftIn(rest, j - 1);
        assert j in idx <==> j in shifted;
      } else {
        ShiftIn(rest, 0);
        assert !drop(lines[0]) ==> idx[0] == 0;
      }
    }
  }

  /** When no line is dropped, the comprehension keeps every line. */
  lemma {:induction false} WithoutNone(lines: seq<string>, drop: string -> bool)
    requires forall k :: 0 <= k < |lines| ==> !drop(lines[k])
    ensures Without(lines, drop) == lines
  {
    if lines != [] {
      assert forall k :: 0 <= k < |lines[1..]| ==> lines[1..][k] == lines[k + 1];
      WithoutNone(lines[1..], drop);
      assert [lines[0]] + lines[1..] == lines;
    }
  }

  /** `extract_clean_response`: a string loses its log lines and its
      surrounding whitespace; any other value is passed through. */
  function CleanResponse(response: PyValue): (r: PyValue)
    ensures !response.PyStr? ==> r == response
    ensures response.PyStr? ==> r.PyStr? && Trimmed(r.s)
  {
    match response
    case PyStr(s) => PyStr(Strip(Join("\n", DropLogLines(Split(s, '\n')))))
    case _ => response
  }

  /** Before the final strip, the cleaned string is the `'\n'`-join of
      exactly the input lines that are not log lines, in their order. */
  lemma CleanResponseKeptLines(s: string) returns (kept: seq<string>, idx: seq<nat>)
    ensures CleanResponse(PyStr(s)) == PyStr(Strip(Join("\n", kept)))
    ensures ExactPositions(Split(s, '\n'), IsLogLine, kept, idx)
  {
    kept := DropLogLines(Split(s, '\n'));
    idx := WithoutExact(Split(s, '\n'), IsLogLine);
  }

  /** With no log line in the input, cleaning is just `strip()`. */
  lemma CleanResponseNoLogLines(s: string)
    requires forall k :: 0 <= k < |Split(s, '\n')| ==> !IsLogLine(Split(s, '\n')[k])
    ensures CleanResponse(PyStr(s)) == PyStr(Strip(s))
  {
    WithoutNone(Split(s, '\n'), IsLogLine);
    JoinSplit(s, '\n');
  }

  /** A line is a log line exactly when it starts with one of the four prefixes. */
  lemma IsLogLineCases(line: string)
    ensures IsLogLine(line) <==> "INFO:" <= line || "WARNING:" <= line || "ERROR:" <= line || "DEBUG:" <= line
  {
    var p0 := LogPrefixes;
    var p1 := ["WARNING:", "ERROR:", "DEBUG:"];
    var p2 := ["ERROR:", "DEBUG:"];
    var p3 := ["DEBUG:"];
    assert p0[1..] == p1 && p1[1..] == p2 && p2[1..] == p3 && p3[1..] == [];
    assert StartsWithAny(line, p0) == ("INFO:" <= line || StartsWithAny(line, p1));
    assert StartsWithAny(line, p1) == ("WARNING:" <= line || StartsWithAny(line, p2));
    assert StartsWithAny(line, p2) == ("ERROR:" <= line || StartsWithAny(line, p3));
    assert StartsWithAny(line, p3) == ("DEBUG:" <= line || StartsWithAny(line, []));
  }

  /** A response of a single line is dropped entirely when it is a log line,
      and otherwise only stripped. */
  lemma CleanResponseOneLine(line: string)
    requires '\n' !in line
    ensures CleanResponse(PyStr(line)) == PyStr(if IsLogLine(line) then "" else Strip(line))
  {
    SplitNoSep(line, '\n');
    assert Without([line], IsLogLine) == (if IsLogLine(line) then [] else [line]) by {
      assert [line][1..] == [];
    }
  }

  /** An indented line is never a log line. */
  lemma IndentedNotLogLine(t: string)
    ensures !IsLogLine([' '] + t)
  {
    IsLogLineCases([' '] + t);
    assert ([' '] + t)[0] == ' ';
  }

  /** Cleaning is not idempotent: for any single trimmed log line `t`, an
      indented copy `" " + t` survives the first cleaning (it does not start
      with a log prefix) but is stripped to `t`, which a second cleaning
      then removes. */
  lemma CleanResponseNotIdempotent(t: string)
    requires IsLogLine(t) && Trimmed(t) && '\n' !in t
    ensures CleanResponse(PyStr([' '] + t)) == PyStr(t)
    ensures CleanResponse(CleanResponse(PyStr([' '] + t))) == PyStr("")
  {
    var s := [' '] + t;
    assert '\n' !in s by {
      assert s == [' '] + t;
    }
    IndentedNotLogLine(t);
    CleanResponseOneLine(s);
    assert ' ' in SpaceChars;
    StripLeadingSpace(' ', t);
    StripTrimmed(t);
    CleanResponseOneLine(t);
  }

  // ---------------------------------------------------------------------
  // get_available_modes and the whitelist of query_rag

  /** `valid_modes` of `query_rag`. */
  const ValidModes: seq<string> := ["naive", "local", "global", "hybrid"]

  /** The mode that `/query` uses when the request names none. */
  const DefaultMode: string := "naive"

  /** One entry of the `/modes` answer. */
  datatype ModeInfo = ModeInfo(id: string, name: string, description: string)

  /** `get_available_modes`: the ids it serves are exactly the modes that
      `query_rag` accepts, in the same order. */
  function AvailableModes(): (r: seq<ModeInfo>)
    ensures |r| == |ValidModes|
    ensures forall k :: 0 <= k < |r| ==> r[k].id == ValidModes[k]
  {
    [ ModeInfo("naive", "Naive", "Simple direct question answering"),
      ModeInfo("local", "Local", "Uses local context analysis"),
      ModeInfo("global", "Global", "Uses global document context"),
      ModeInfo("hybrid", "Hybrid", "Combines local and global analysis") ]
  }

  // ---------------------------------------------------------------------
  // query_rag

  datatype Status = Success | Error
  {
    /** The value of the `status` field. */
    function Text(): string
    {
      if Success? then "success" else "error"
    }
  }

  /** What one call of the engine's `query` does: return a value or raise an
      exception whose `str` is `message`. */
  datatype QueryOutcome = Returned(value: PyValue) | Raised(message: string)

  /** The dictionary that `/query` returns. */
  datatype QueryResult = QueryResult(status: Status, response: PyValue, error: Option<string>, mode: string)

  /** The error text for a mode outside the whitelist, built from the list
      as the f-string does. */
  function InvalidModeMessage(): (m: string)
    ensures m == "Invalid mode. Must be one of: " + "naive" + ", " + "local" + ", " + "global" + ", " + "hybrid"
  {
    JoinFour(", ", "naive", "local", "global", "hybrid");
    "Invalid mode. Must be one of: " + Join(", ", ValidModes)
  }

  lemma JoinFour(sep: string, a: string, b: string, c: string, d: string)
    ensures Join(sep, [a, b, c, d]) == a + sep + b + sep + c + sep + d
  {
    assert [a, b, c, d][1..] == [b, c, d];
    assert [b, c, d][1..] == [c, d];
    assert [c, d][1..] == [d];
    assert Join(sep, [c, d]) == c + sep + d;
    assert Join(sep, [b, c, d]) == b + sep + (c + sep + d);
    assert Join(sep, [a, b, c, d]) == a + sep + (b + sep + (c + sep + d));
  }

  /** `query_rag`, with `rag.query(question, param=QueryParam(mode=mode))`
      given as `engine(question, mode)`. */
  function QueryRag(question: string, mode: string, engine: (string, string) -> QueryOutcome): (r: QueryResult)
    ensures r.mode == mode
    ensures r.status == Error <==> r.error.Some?
    ensures r.status == Error ==> r.response == PyNone
    ensures r.status == Success <==> mode in ValidModes && engine(question, mode).Returned?
    ensures r.status.Text() == "error" <==> r.error.Some?
  {
    if mode !in ValidModes then
      QueryResult(Error, PyNone, Some(InvalidModeMessage()), mode)
    else
      match engine(question, mode)
      case Returned(value) => QueryResult(Success, CleanResponse(value), None, mode)
      case Raised(message) => QueryResult(Error, PyNone, Some(message), mode)
  }

  /** A mode outside the whitelist gets the fixed error record, and the
      engine is not consulted: any two engines give the same answer. */
  lemma QueryRagInvalidMode(question: string, mode: string, engine: (string, string) -> QueryOutcome,
                            other: (string, string) -> QueryOutcome)
    requires mode !in ValidModes
    ensures QueryRag(question, mode, engine) ==
            QueryResult(Error, PyNone, Some(InvalidModeMessage()), mode)
    ensures QueryRag(question, mode, engine) == QueryRag(question, mode, other)
  {
  }

  /** A valid mode whose query returns yields success with the cleaned answer. */
  lemma QueryRagReturned(question: string, mode: string, engine: (string, string) -> QueryOutcome)
    requires mode in ValidModes && engine(question, mode).Returned?
    ensures QueryRag(question, mode, engine) ==
            QueryResult(Success, CleanResponse(engine(question, mode).value), None, mode)
  {
  }

  /** A query that raises yields an error record carrying the exception's text. */
  lemma QueryRagRaised(question: string, mode: string, engine: (string, string) -> QueryOutcome)
    requires mode in ValidModes && engine(question, mode).Raised?
    ensures QueryRag(question, mode, engine) ==
            QueryResult(Error, PyNone, Some(engine(question, mode).message), mode)
  {
  }

  /** Every mode served by `/modes` passes the whitelist of `/query`: the
      outcome then depends only on the engine. */
  lemma ServedModesAccepted(question: string, k: nat, engine: (string, string) -> QueryOutcome)
    requires k < |AvailableModes()|
    ensures QueryRag(question, AvailableModes()[k].id, engine).status == Success
            <==> engine(question, AvailableModes()[k].id).Returned?
    ensures DefaultMode in ValidModes
  {
    assert AvailableModes()[k].id == ValidModes[k];
  }
}
