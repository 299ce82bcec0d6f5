/** The few operations on Python `str` values that the infobot scripts use:
    `str.isspace` (the whitespace set that `strip()` removes), `strip()`,
    `split(sep)` for a one-character separator, `sep.join(parts)` and
    `startswith`. Strings are sequences of Unicode code points. */
module PyText {

  /** The code points of Python 3's `str.isspace`: those whose bidirectional
      class is WS, B or S, or whose general category is Zs. `str.strip()`
      with no argument removes exactly these. */
  const SpaceChars: set<char> :=
    {'\t', '\n', '\U{0B}', '\U{0C}', '\r', '\U{1C}', '\U{1D}', '\U{1E}', '\U{1F}', ' ',
     '\U{85}', '\U{A0}', '\U{1680}',
     '\U{2000}', '\U{2001}', '\U{2002}', '\U{2003}', '\U{2004}', '\U{2005}',
     '\U{2006}', '\U{2007}', '\U{2008}', '\U{2009}', '\U{200A}',
     '\U{2028}', '\U{2029}', '\U{202F}', '\U{205F}', '\U{3000}'}

  /** `c.isspace()`. */
  predicate IsSpace(c: char)
  {
    c in SpaceChars
  }

  /** The whitespace set as the ranges of code points it is made of: the ASCII
      controls from tab to carriage return, the four information separators,
      space, next line, no-break space, ogham space mark, the eleven spaces
      from en quad to hair space, the line and paragraph separators, narrow
      no-break space, medium mathematical space and ideographic space. */
  lemma IsSpaceRanges(c: char)
    ensures IsSpace(c) <==>
      ('\t' <= c <= '\r') || ('\U{1C}' <= c <= ' ') || c == '\U{85}' || c == '\U{A0}' ||
      c == '\U{1680}' || ('\U{2000}' <= c <= '\U{200A}') || c == '\U{2028}' || c == '\U{2029}' ||
      c == '\U{202F}' || c == '\U{205F}' || c == '\U{3000}'
  {
  }

  /** All characters of `s` are whitespace. */
  predicate AllSpace(s: string)
  {
    forall k :: 0 <= k < |s| ==> IsSpace(s[k])
  }

  /** `s` neither starts nor ends with whitespace. */
  predicate Trimmed(s: string)
  {
    s == [] || (!IsSpace(s[0]) && !IsSpace(s[|s| - 1]))
  }

  /** `s.lstrip()`: the longest suffix of `s` that does not start with whitespace. */
  function TrimStart(s: string): (r: string)
    ensures |r| <= |s| && r == s[|s| - |r|..]
    ensures forall k :: 0 <= k < |s| - |r| ==> IsSpace(s[k])
    ensures r == [] || !IsSpace(r[0])
  {
    if |s| > 0 && IsSpace(s[0]) then
      var r := TrimStart(s[1..]);
      assert forall k :: 1 <= k < |s| - |r| ==> IsSpace(s[k]) by {
        forall k | 1 <= k < |s| - |r| ensures IsSpace(s[k]) {
          assert s[1..][k - 1] == s[k];
        }
      }
      r
    else s
  }

  /** `s.rstrip()`: the longest prefix of `s` that does not end with whitespace. */
  function TrimEnd(s: string): (r: string)
    ensures |r| <= |s| && r == s[..|r|]
    ensures forall k :: |r| <= k < |s| ==> IsSpace(s[k])
    ensures r == [] || !IsSpace(r[|r| - 1])
  {
    if |s| > 0 && IsSpace(s[|s| - 1]) then
      var r := TrimEnd(s[..|s| - 1]);
      assert forall k :: |r| <= k < |s| - 1 ==> IsSpace(s[k]) by {
        forall k | |r| <= k < |s| - 1 ensures IsSpace(s[k]) {
          assert s[..|s| - 1][k] == s[k];
        }
      }
      r
    else s
  }

  /** `s.strip()`. */
  function Strip(s: string): (r: string)
    ensures |r| <= |s|
    ensures Trimmed(r)
  {
    var t := TrimStart(s);
    var r := TrimEnd(t);
    assert r != [] ==> r[0] == t[0];
    r
  }

  /** `strip()` removes whitespace from the two ends of `s` and nothing else:
      the result is the slice `s[i..j]`, and every character before `i` and
      from `j` on is whitespace (by `Strip`'s contract, the slice itself is
      trimmed). */
  lemma StripIsSlice(s: string) returns (i: nat, j: nat)
    ensures i <= j <= |s|
    ensures Strip(s) == s[i..j]
    ensures forall k :: 0 <= k < i ==> IsSpace(s[k])
    ensures forall k :: j <= k < |s| ==> IsSpace(s[k])
  {
    var t := TrimStart(s);
    var r := TrimEnd(t);
    assert Strip(s) == r;
    i := |s| - |t|;
    j := i + |r|;
    PrefixOfSuffix(s, t, r, IsSpace);
  }

  /** A prefix `r` of a suffix `t` of `s` is a slice of `s`, and what follows
      `r` in `t` follows it in `s` too. */
  lemma PrefixOfSuffix(s: string, t: string, r: string, p: char -> bool)
    requires |t| <= |s| && t == s[|s| - |t|..]
    requires |r| <= |t| && r == t[..|r|]
    requires forall k :: |r| <= k < |t| ==> p(t[k])
    ensures r == s[|s| - |t|..|s| - |t| + |r|]
    ensures forall k :: |s| - |t| + |r| <= k < |s| ==> p(s[k])
  {
    var i := |s| - |t|;
    SliceOfSuffix(s, i, 0, |r|);
    forall k | i + |r| <= k < |s| ensures p(s[k]) {
      assert t[k - i] == s[k];
    }
  }

  /** A slice of a suffix is a slice of the whole. */
  lemma SliceOfSuffix(s: string, i: nat, a: nat, b: nat)
    requires i <= |s| && a <= b <= |s| - i
    ensures s[i..][a..b] == s[i + a..i + b]
  {
  }

  /** A string that is already trimmed is returned by `strip()` unchanged. */
  lemma StripTrimmed(s: string)
    requires Trimmed(s)
    ensures Strip(s) == s
  {
  }

  /** A leading whitespace character makes no difference to `strip()`. */
  lemma StripLeadingSpace(c: char, s: string)
    requires IsSpace(c)
    ensures Strip([c] + s) == Strip(s)
  {
    assert ([c] + s)[1..] == s;
  }

  /** `strip()` yields the empty string exactly for all-whitespace input. */
  lemma StripEmptyIffAllSpace(s: string)
    ensures Strip(s) == [] <==> AllSpace(s)
  {
    var i, j := StripIsSlice(s);
    if Strip(s) != [] {
      assert s[i..j][0] == s[i];
    }
  }

  /** `s.startswith(prefixes)` for a tuple of prefixes. */
  predicate StartsWithAny(s: string, prefixes: seq<string>)
  {
    |prefixes| > 0 && (prefixes[0] <= s || StartsWithAny(s, prefixes[1..]))
  }

  /** `startswith` with a tuple holds exactly when one of the prefixes is a
      prefix of `s`. */
  lemma {:induction false} StartsWithAnyExists(s: string, prefixes: seq<string>)
    ensures StartsWithAny(s, prefixes) <==> exists k :: 0 <= k < |prefixes| && prefixes[k] <= s
  {
    if |prefixes| > 0 {
      StartsWithAnyExists(s, prefixes[1..]);
      if StartsWithAny(s, prefixes[1..]) {
        var k :| 0 <= k < |prefixes[1..]| && prefixes[1..][k] <= s;
        assert prefixes[k + 1] <= s;
      }
      if exists k :: 0 <= k < |prefixes| && prefixes[k] <= s {
        var k :| 0 <= k < |prefixes| && prefixes[k] <= s;
        if k > 0 { assert prefixes[1..][k - 1] <= s; }
      }
    }
  }

  /** `sep.join(parts)`. */
  function Join(sep: string, parts: seq<string>): (joined: string)
    ensures parts == [] ==> joined == ""
    ensures parts != [] ==> parts[0] <= joined
  {
    if |parts| == 0 then ""
    else if |parts| == 1 then parts[0]
    else parts[0] + sep + Join(sep, parts[1..])
  }

  /** `s.split(sep)` for a one-character separator: the pieces between
      consecutive occurrences of `sep`, always at least one, none containing
      `sep`. */
  function Split(s: string, sep: char): (r: seq<string>)
    ensures |r| >= 1
    ensures forall k :: 0 <= k < |r| ==> sep !in r[k]
  {
    if |s| == 0 then [""]
    else
      var rest := Split(s[1..], sep);
      if s[0] == sep then [""] + rest
      else [[s[0]] + rest[0]] + rest[1..]
  }

  /** Joining the pieces of a split with the separator gives back the input. */
  lemma {:induction false} JoinSplit(s: string, sep: char)
    ensures Join([sep], Split(s, sep)) == s
  {
    if |s| > 0 {
      var rest := Split(s[1..], sep);
      JoinSplit(s[1..], sep);
      if s[0] == sep {
        assert Split(s, sep)[1..] == rest;
      } else {
        var r := Split(s, sep);
        if |rest| == 1 {
          assert r == [[s[0]] + rest[0]];
        } else {
          assert r[1..] == rest[1..];
          assert Join([sep], rest) == rest[0] + [sep] + Join([sep], rest[1..]);
        }
      }
    }
  }

  /** Splitting a separator-free list of pieces joined by the separator gives
      back the pieces: with JoinSplit, `Split` and `Join` are inverse. */
  lemma {:induction false} SplitJoin(parts: seq<string>, sep: char)
    requires |parts| >= 1
    requires forall k :: 0 <= k < |parts| ==> sep !in parts[k]
    ensures Split(Join([sep], parts), sep) == parts
  {
    if |parts| == 1 {
      SplitNoSep(parts[0], sep);
    } else {
      var tail := Join([sep], parts[1..]);
      SplitJoin(parts[1..], sep);
      SplitPrefix(parts[0], [sep] + tail, sep);
      assert ([sep] + tail)[1..] == tail;
      assert Split([sep] + tail, sep) == [""] + parts[1..];
      assert parts[0] + [sep] + tail == parts[0] + ([sep] + tail);
      assert parts[0] + "" == parts[0];
      assert [parts[0]] + parts[1..] == parts;
    }
  }

  /** A string without the separator splits into itself. */
  lemma {:induction false} SplitNoSep(s: string, sep: char)
    requires sep !in s
    ensures Split(s, sep) == [s]
  {
    if |s| > 0 {
      assert sep !in s[1..] by {
        forall k | 0 <= k < |s[1..]| ensures s[1..][k] != sep { assert s[1..][k] == s[k + 1]; }
      }
      SplitNoSep(s[1..], sep);
      assert [s[0]] + s[1..] == s;
    }
  }

  /** A separator-free prefix glues onto the first piece of what follows it. */
  lemma {:induction false} SplitPrefix(p: string, t: string, sep: char)
    requires sep !in p
    ensures Split(p + t, sep) == [p + Split(t, sep)[0]] + Split(t, sep)[1..]
  {
    if |p| > 0 {
      assert sep !in p[1..] by {
        forall k | 0 <= k < |p[1..]| ensures p[1..][k] != sep { assert p[1..][k] == p[k + 1]; }
      }
      assert (p + t)[1..] == p[1..] + t;
      SplitPrefix(p[1..], t, sep);
      assert [p[0]] + (p[1..] + Split(t, sep)[0]) == p + Split(t, sep)[0];
    } else {
      var r := Split(t, sep);
      assert p + t == t;
      assert p + r[0] == r[0];
      assert [r[0]] + r[1..] == r;
    }
  }
}
