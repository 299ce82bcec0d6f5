/** The insertion driver of the Ollama demo: the input text is stripped,
    cut into consecutive slices of at most 1000 characters, and each slice
    is handed to the engine's `insert` in order, a failing slice not
    stopping the rest. The file system and the engine are modelled as
    inputs. */
module OllamaDemo {
  import opened PyText

  /** `chunk_size`. */
  const ChunkSize: nat := 1000

  function Min(a: int, b: int): int
  {
    if a <= b then a else b
  }

  /** `len(range(0, n, ChunkSize))`. */
  function NumChunks(n: nat): (count: nat)
    ensures count == 0 <==> n == 0
    ensures n > 0 ==> ChunkSize * (count - 1) < n <= ChunkSize * count
  {
    (n + ChunkSize - 1) / ChunkSize
  }

  /** `text[start:start + chunk_size]` for a start inside the text. */
  function SliceAt(text: string, start: nat): (slice: string)
    requires start <= |text|
    ensures slice <= text[start..]
    ensures |slice| <= ChunkSize
    ensures |slice| == ChunkSize || start + |slice| == |text|
  {
    text[start..Min(start + ChunkSize, |text|)]
  }

  /** The chunks of `text`: consecutive slices of `ChunkSize` characters, the
      last one possibly shorter. */
  function Chunks(text: string): (chunks: seq<string>)
    ensures |chunks| == 0 <==> |text| == 0
    ensures forall k :: 0 <= k < |chunks| ==> 1 <= |chunks[k]| <= ChunkSize
    ensures forall k :: 0 <= k < |chunks| - 1 ==> |chunks[k]| == ChunkSize
    decreases |text|
  {
    if |text| == 0 then []
    else if |text| <= ChunkSize then [text]
    else [text[..ChunkSize]] + Chunks(text[ChunkSize..])
  }

  /** The chunks are exactly the list comprehension
      `[text[i:i + chunk_size] for i in range(0, len(text), chunk_size)]`:
      there are `len(range(...))` of them and chunk `k` is the slice that
      starts at offset `1000 * k`. */
  lemma {:induction false} ChunksAreRangeSlices(text: string)
    ensures |Chunks(text)| == NumChunks(|text|)
    ensures forall k :: 0 <= k < |Chunks(text)| ==>
      ChunkSize * k <= |text| && Chunks(text)[k] == SliceAt(text, ChunkSize * k)
    decreases |text|
  {
    if |text| > ChunkSize {
      var rest := text[ChunkSize..];
      ChunksAreRangeSlices(rest);
      NumChunksStep(|text|);
      forall k | 1 <= k < |Chunks(text)|
        ensures ChunkSize * k <= |text| && Chunks(text)[k] == SliceAt(text, ChunkSize * k)
      {
        assert Chunks(text)[k] == Chunks(rest)[k - 1];
        SliceOfRest(text, ChunkSize * (k - 1));
      }
    }
  }

  /** Removing the first full chunk removes one from the count. */
  lemma NumChunksStep(n: nat)
    requires n > ChunkSize
    ensures NumChunks(n) == 1 + NumChunks(n - ChunkSize)
  {
  }

  /** A slice of the text after the first chunk is a slice of the text. */
  lemma SliceOfRest(text: string, j: nat)
    requires ChunkSize + j <= |text|
    ensures SliceAt(text[ChunkSize..], j) == SliceAt(text, ChunkSize + j)
  {
  }

  /** The number of chunks is the ceiling of the length over the chunk
      size: the fewest slices of at most 1000 characters that cover it. */
  lemma ChunkCount(text: string)
    ensures |text| > 0 ==> ChunkSize * (|Chunks(text)| - 1) < |text| <= ChunkSize * |Chunks(text)|
  {
    ChunksAreRangeSlices(text);
  }

  /** Joining the chunks in order with `''.join` gives back the text. */
  lemma {:induction false} ChunksConcat(text: string)
    ensures Join("", Chunks(text)) == text
    decreases |text|
  {
    if |text| > ChunkSize {
      var rest := text[ChunkSize..];
      ChunksConcat(rest);
      assert Chunks(text)[1..] == Chunks(rest);
      assert text[..ChunkSize] + "" + rest == text;
    }
  }

  // ---------------------------------------------------------------------
  // insert_text

  /** What `os.path.exists` and `open(...).read()` find at `INPUT_FILE`:
      no file, a file whose opening or reading raises, or the text read. */
  datatype InputFile = Missing | Unreadable(message: string) | Present(content: string)

  /** One call of `rag.insert`: the chunk passed and whether it returned
      (rather than raised). */
  datatype Attempt = Attempt(chunk: string, succeeded: bool)

  /** The chunks of a sequence of attempts, in order. */
  function AttemptedChunks(log: seq<Attempt>): (chunks: seq<string>)
    ensures |chunks| == |log|
    ensures forall k :: 0 <= k < |log| ==> chunks[k] == log[k].chunk
  {
    seq(|log|, k requires 0 <= k < |log| => log[k].chunk)
  }

  lemma AttemptedChunksAppend(log: seq<Attempt>, a: Attempt)
    ensures AttemptedChunks(log + [a]) == AttemptedChunks(log) + [a.chunk]
  {
  }

  /** The chunks whose insertion succeeded, in order. */
  function Stored(log: seq<Attempt>): (stored: seq<string>)
    ensures |stored| <= |log|
  {
    if log == [] then []
    else (if log[0].succeeded then [log[0].chunk] else []) + Stored(log[1..])
  }

  /** When every call returned, every attempted chunk was stored, in order. */
  lemma {:induction false} StoredAllSucceeded(log: seq<Attempt>)
    requires forall k :: 0 <= k < |log| ==> log[k].succeeded
    ensures Stored(log) == AttemptedChunks(log)
  {
    if log != [] {
      StoredAllSucceeded(log[1..]);
      assert AttemptedChunks(log) == [log[0].chunk] + AttemptedChunks(log[1..]);
    }
  }

  /** The calls from position `n` on all returned, so all their chunks were stored. */
  lemma StoredSuffixAllSucceeded(log: seq<Attempt>, n: nat)
    requires n <= |log|
    requires forall k :: n <= k < |log| ==> log[k].succeeded
    ensures Stored(log[n..]) == AttemptedChunks(log[n..])
  {
    var added := log[n..];
    assert forall k :: 0 <= k < |added| ==> added[k] == log[n + k];
    StoredAllSucceeded(added);
  }

  /** A failing call stores nothing and leaves the calls around it alone:
      one chunk's exception does not undo or stop the others. */
  lemma {:induction false} StoredAppend(log: seq<Attempt>, a: Attempt)
    ensures Stored(log + [a]) == Stored(log) + (if a.succeeded then [a.chunk] else [])
  {
    if log != [] {
      assert (log + [a])[1..] == log[1..] + [a];
      StoredAppend(log[1..], a);
    }
  }

  /** The retrieval engine, as far as the driver sees it: every `insert`
      call is recorded with its outcome, which the driver cannot predict. */
  class Rag {
    var log: seq<Attempt>

    constructor ()
      ensures log == []
    {
      log := [];
    }

    /** `rag.insert(chunk)`: either returns or raises. */
    method Insert(chunk: string) returns (succeeded: bool)
      modifies this
      ensures log == old(log) + [Attempt(chunk, succeeded)]
    {
      succeeded :| true;
      log := log + [Attempt(chunk, succeeded)];
    }
  }

  /** The outcome `insert_text` promises: `True` exactly when the file was
      read and holds more than whitespace. */
  predicate InsertSucceeds(file: InputFile)
  {
    file.Present? && Strip(file.content) != ""
  }

  /** The insertion goes ahead exactly for a file that was read and holds a
      character other than whitespace. */
  lemma InsertSucceedsIff(file: InputFile)
    ensures InsertSucceeds(file) <==>
      file.Present? && exists k :: 0 <= k < |file.content| && !IsSpace(file.content[k])
  {
    if file.Present? {
      StripEmptyIffAllSpace(file.content);
    }
  }

  /** `insert_text`. It returns `False` without calling the engine when the
      file is missing, cannot be read, or is blank; otherwise it calls
      `insert` once per chunk, in order, whatever each call does, and
      returns `True`. */
  method InsertText(file: InputFile, rag: Rag) returns (ok: bool)
    modifies rag
    ensures ok == InsertSucceeds(file)
    ensures !ok ==> rag.log == old(rag.log)
    ensures ok ==> |rag.log| == |old(rag.log)| + |Chunks(Strip(file.content))|
    ensures ok ==> rag.log[..|old(rag.log)|] == old(rag.log)
    ensures ok ==> AttemptedChunks(rag.log[|old(rag.log)|..]) == Chunks(Strip(file.content))
    ensures ok && (forall k :: |old(rag.log)| <= k < |rag.log| ==> rag.log[k].succeeded) ==>
      Stored(rag.log[|old(rag.log)|..]) == Chunks(Strip(file.content))
  {
    if file.Missing? {
      return false;
    }
    if file.Unreadable? {
      return false;
    }
    var text := Strip(file.content);
    if text == "" {
      return false;
    }
    InsertEach(Chunks(text), rag);
    ok := true;
  }

  /** The loop of `insert_text`: `rag.insert` is called once per chunk, in
      order, and a call that raises does not stop the loop. When every call
      returned, every chunk was stored. */
  method InsertEach(chunks: seq<string>, rag: Rag)
    modifies rag
    ensures |rag.log| == |old(rag.log)| + |chunks| && rag.log[..|old(rag.log)|] == old(rag.log)
    ensures AttemptedChunks(rag.log[|old(rag.log)|..]) == chunks
    ensures (forall k :: |old(rag.log)| <= k < |rag.log| ==> rag.log[k].succeeded) ==>
      Stored(rag.log[|old(rag.log)|..]) == chunks
  {
    ghost var before := rag.log;
    for i := 0 to |chunks|
      invariant |rag.log| == |before| + i
      invariant rag.log[..|before|] == before
      invariant AttemptedChunks(rag.log[|before|..]) == chunks[..i]
    {
      ghost var done := rag.log;
      var inserted := rag.Insert(chunks[i]);
      assert rag.log[|before|..] == done[|before|..] + [Attempt(chunks[i], inserted)];
      AttemptedChunksAppend(done[|before|..], Attempt(chunks[i], inserted));
      assert chunks[..i + 1] == chunks[..i] + [chunks[i]];
    }
    assert chunks[..|chunks|] == chunks;
    if forall k :: |before| <= k < |rag.log| ==> rag.log[k].succeeded {
      StoredSuffixAllSucceeded(rag.log, |before|);
    }
  }
}
