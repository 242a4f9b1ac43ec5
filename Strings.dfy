/** The two JavaScript string operations the core relies on:
    `String.prototype.trim` and `String.prototype.split` with a one-character
    separator. */
module Strings {

  import Base

  /** The characters `trim` removes: ECMAScript WhiteSpace (tab, vertical tab,
      form feed, space, no-break space, byte order mark and the Unicode "Zs"
      category) and LineTerminator (line feed, carriage return, line and
      paragraph separator). */
  predicate IsWhitespace(c: char) {
    c in WhitespaceCodes
  }

  const WhitespaceCodes: set<char> :=
    {'\t', '\n', '\U{000B}', '\U{000C}', '\r', ' ', '\U{00A0}', '\U{1680}',
     '\U{2000}', '\U{2001}', '\U{2002}', '\U{2003}', '\U{2004}', '\U{2005}', '\U{2006}',
     '\U{2007}', '\U{2008}', '\U{2009}', '\U{200A}', '\U{2028}', '\U{2029}', '\U{202F}',
     '\U{205F}', '\U{3000}', '\U{FEFF}'}

  /** Every character of `s` is whitespace (vacuously so for ""). */
  predicate AllWhitespace(s: string) {
    forall k :: 0 <= k < |s| ==> IsWhitespace(s[k])
  }

  /** Drops the leading whitespace: the result is a suffix of `s`, what was
      dropped is all whitespace, and the result does not start with whitespace. */
  function TrimStart(s: string): (r: string)
    ensures |r| <= |s| && r == s[|s| - |r|..]
    ensures AllWhitespace(s[..|s| - |r|])
    ensures r != "" ==> !IsWhitespace(r[0])
  {
    if s != "" && IsWhitespace(s[0]) then
      var tail := s[1..];
      var r := TrimStart(tail);
      assert s[..|s| - |r|] == [s[0]] + tail[..|tail| - |r|];
      AllWhitespaceConcat([s[0]], tail[..|tail| - |r|]);
      assert tail[|tail| - |r|..] == s[|s| - |r|..];
      r
    else
      assert s[..0] == "";
      s
  }

  /** Drops the trailing whitespace: the result is a prefix of `s`, what was
      dropped is all whitespace, and the result does not end with whitespace. */
  function TrimEnd(s: string): (r: string)
    ensures |r| <= |s| && r == s[..|r|]
    ensures AllWhitespace(s[|r|..])
    ensures r != "" ==> !IsWhitespace(r[|r| - 1])
  {
    if s != "" && IsWhitespace(s[|s| - 1]) then
      var init := s[..|s| - 1];
      var r := TrimEnd(init);
      assert s[|r|..] == init[|r|..] + [s[|s| - 1]];
      AllWhitespaceConcat(init[|r|..], [s[|s| - 1]]);
      assert init[..|r|] == s[..|r|];
      r
    else
      assert s[|s|..] == "";
      s
  }

  /** `s.trim()`: neither starts nor ends with whitespace, and is empty
      exactly when `s` is all whitespace (TrimIsSlice: it is `s` with only
      whitespace cut away on either side). */
  function Trim(s: string): (r: string)
    ensures r != "" ==> !IsWhitespace(r[0]) && !IsWhitespace(r[|r| - 1])
    ensures r == "" <==> AllWhitespace(s)
  {
    var t := TrimStart(s);
    var r := TrimEnd(t);
    assert r == "" ==> AllWhitespace(s) by {
      if r == "" {
        var i := |s| - |t|;
        assert s == s[..i] + t;
        AllWhitespaceConcat(s[..i], t);
      }
    }
    assert r != "" ==> r[0] == t[0];
    r
  }

  /** `r` sits at index `i` of `s` with only whitespace before and after it. */
  predicate SurroundedByWhitespace(s: string, r: string, i: int) {
    0 <= i <= |s| - |r| && r == s[i..i + |r|] && AllWhitespace(s[..i]) && AllWhitespace(s[i + |r|..])
  }

  /** Trim cuts a run of whitespace off each end of `s` and nothing else. */
  lemma TrimIsSlice(s: string)
    ensures exists i :: SurroundedByWhitespace(s, Trim(s), i)
  {
    var t := TrimStart(s);
    var r := TrimEnd(t);
    assert r == Trim(s);
    var i := |s| - |t|;
    assert t == s[i..];
    assert r == t[..|r|];
    assert AllWhitespace(t[|r|..]);
    SliceOfSuffix(s, i, |r|);
    assert SurroundedByWhitespace(s, r, i);
  }

  lemma SliceOfSuffix(s: string, i: nat, n: nat)
    requires i + n <= |s|
    ensures s[i..][..n] == s[i..i + n] && s[i..][n..] == s[i + n..]
  {
  }

  /** `!s.trim()`, the guard the prompt forms use: by Trim's contract, the
      trimmed text is empty exactly when every character is whitespace. */
  predicate IsBlank(s: string) {
    AllWhitespace(s)
  }

  lemma {:induction false} AllWhitespaceConcat(a: string, b: string)
    requires AllWhitespace(a) && AllWhitespace(b)
    ensures AllWhitespace(a + b)
  {
    forall k | 0 <= k < |a + b| ensures IsWhitespace((a + b)[k]) {
      if k < |a| { assert (a + b)[k] == a[k]; } else { assert (a + b)[k] == b[k - |a|]; }
    }
  }

  /** Trimming twice is trimming once, so a trimmed reply is never blank
      unless it is empty. */
  lemma {:induction false} TrimIdempotent(s: string)
    ensures Trim(Trim(s)) == Trim(s)
  {
    var r := Trim(s);
    if r != "" {
      assert TrimStart(r) == r;
      assert TrimEnd(r) == r;
    }
  }

  /** The index of the first `c` in `s`, or None when `s` has no `c`. */
  function IndexOf(s: string, c: char): (r: Base.Option<nat>)
    ensures r.None? <==> c !in s
    ensures r.Some? ==> r.value < |s| && s[r.value] == c && c !in s[..r.value]
  {
    if s == "" then Base.None
    else if s[0] == c then Base.Some(0)
    else
      var r := IndexOf(s[1..], c);
      if r.None? then Base.None
      else
        assert s[..r.value + 1] == [s[0]] + s[1..][..r.value];
        Base.Some(r.value + 1)
  }

  /** The segments joined back together, separated by `sep`. */
  function Join(parts: seq<string>, sep: char): string {
    if |parts| == 0 then ""
    else if |parts| == 1 then parts[0]
    else parts[0] + [sep] + Join(parts[1..], sep)
  }

  /** `s.split(sep)`: at least one segment, no segment holds `sep`, and joining
      the segments with `sep` gives `s` back. */
  function Split(s: string, sep: char): (r: seq<string>)
    ensures |r| >= 1
    ensures forall k :: 0 <= k < |r| ==> sep !in r[k]
    ensures Join(r, sep) == s
    decreases |s|
  {
    match IndexOf(s, sep)
    case None => [s]
    case Some(i) =>
      var rest := Split(s[i + 1..], sep);
      assert s == s[..i] + [sep] + s[i + 1..];
      assert ([s[..i]] + rest)[1..] == rest;
      [s[..i]] + rest
  }

  /** Split is the only way to cut `s` into `sep`-free segments that join back
      to `s`. */
  lemma {:induction false} SplitUnique(parts: seq<string>, sep: char)
    requires |parts| >= 1
    requires forall k :: 0 <= k < |parts| ==> sep !in parts[k]
    ensures Split(Join(parts, sep), sep) == parts
  {
    var s := Join(parts, sep);
    if |parts| == 1 {
      assert sep !in parts[0];
    } else {
      var head, tail := parts[0], Join(parts[1..], sep);
      assert s == head + [sep] + tail;
      assert sep !in head;
      assert s[..|head|] == head;
      assert s[|head|] == sep;
      assert IndexOf(s, sep) == Base.Some(|head|);
      assert s[|head| + 1..] == tail;
      SplitUnique(parts[1..], sep);
      assert parts == [head] + parts[1..];
    }
  }
  /** The first segment of a split is the text up to the first separator. */
  lemma SplitFirstSegment(t: string, sep: char)
    ensures var head := Split(t, sep)[0];
            head == t[..|head|] && sep !in head && (|head| == |t| || t[|head|] == sep)
  {
    var r := Split(t, sep);
    if |r| > 1 {
      assert t == r[0] + [sep] + Join(r[1..], sep);
    }
  }

  /** Cutting at the first separator: the first segment is what precedes it
      and the others are the split of the rest. */
  lemma SplitAtFirst(s: string, sep: char)
    ensures forall i :: 0 <= i < |s| && s[i] == sep && sep !in s[..i] ==>
              Split(s, sep) == [s[..i]] + Split(s[i + 1..], sep)
  {
    forall i | 0 <= i < |s| && s[i] == sep && sep !in s[..i]
      ensures Split(s, sep) == [s[..i]] + Split(s[i + 1..], sep)
    {
      assert IndexOf(s, sep) == Base.Some(i);
    }
  }
}
