/**
  The fragment of Python's string semantics the spider relies on:
  truthiness of an optional string, `str.isspace`, `' '.join(...)`,
  `str.strip()` and, as the inverse of joining, `str.split(' ')`.
  Strings are sequences of Unicode scalar values, as Python's `str` is.
 */
module PyText {
  import opened Wrappers

  /** Python truthiness of a value that is `None` or a `str`: only a non-empty string is true. */
  predicate Truthy(v: Option<string>) {
    v.Some? && v.value != ""
  }

  /** Python's `str.isspace()` on one character: the characters `str.strip()` removes. */
  predicate IsSpace(c: char) {
    || c == ' ' || c == '\t' || c == '\n' || c == '\r'
    || c == '\U{B}' || c == '\U{C}'
    || ('\U{1C}' <= c <= '\U{1F}')
    || c == '\U{85}' || c == '\U{A0}' || c == '\U{1680}'
    || ('\U{2000}' <= c <= '\U{200A}')
    || c == '\U{2028}' || c == '\U{2029}' || c == '\U{202F}' || c == '\U{205F}' || c == '\U{3000}'
  }

  predicate AllSpace(s: string) {
    forall i :: 0 <= i < |s| ==> IsSpace(s[i])
  }

  predicate HasNonSpace(s: string) {
    exists i :: 0 <= i < |s| && !IsSpace(s[i])
  }

  /** Neither end of `s` is whitespace. */
  predicate Stripped(s: string) {
    |s| == 0 || (!IsSpace(s[0]) && !IsSpace(s[|s| - 1]))
  }

  /** Every character of `s` from index `lo` up to (not including) `hi` is whitespace. */
  predicate SpaceBetween(s: string, lo: int, hi: int)
    requires 0 <= lo <= hi <= |s|
  {
    forall k :: lo <= k < hi ==> IsSpace(s[k])
  }

  /**
    `r` is the slice `s[i..j]`, and everything cut off on either side is whitespace.
   */
  ghost predicate SliceBetweenSpace(r: string, s: string, i: int, j: int) {
    0 <= i <= j <= |s| && r == s[i..j] && SpaceBetween(s, 0, i) && SpaceBetween(s, j, |s|)
  }

  /**
    The declarative meaning of `s.strip()`: `r` is a slice of `s` with only
    whitespace cut off on either side, and `r` itself neither starts nor ends
    with whitespace.
   */
  ghost predicate IsStripOf(r: string, s: string) {
    Stripped(r) && exists i, j :: SliceBetweenSpace(r, s, i, j)
  }

  /**
    Where `s.lstrip()` cuts: the first index at or after `lo` that is not
    whitespace, or `|s|` when there is none.
   */
  function FirstNonSpace(s: string, lo: nat): (i: nat)
    requires lo <= |s|
    ensures lo <= i <= |s| && SpaceBetween(s, lo, i)
    ensures i == |s| || !IsSpace(s[i])
    decreases |s| - lo
  {
    if lo < |s| && IsSpace(s[lo]) then FirstNonSpace(s, lo + 1) else lo
  }

  /**
    Where `s.rstrip()` cuts, looking no further left than `lo`: the end of the
    last non-whitespace character of `s[lo..hi]`, or `lo` when there is none.
   */
  function LastNonSpaceEnd(s: string, lo: nat, hi: nat): (j: nat)
    requires lo <= hi <= |s|
    ensures lo <= j <= hi && SpaceBetween(s, j, hi)
    ensures j == lo || !IsSpace(s[j - 1])
    decreases hi
  {
    if lo < hi && IsSpace(s[hi - 1]) then LastNonSpaceEnd(s, lo, hi - 1) else hi
  }

  /** `s.strip()`: whitespace removed from both ends. */
  function Strip(s: string): (r: string)
    ensures IsStripOf(r, s)
  {
    var i := FirstNonSpace(s, 0);
    var j := LastNonSpaceEnd(s, i, |s|);
    CutIsStrip(s, i, j);
    s[i..j]
  }

  /**
    Cutting `s` at `i` and `j`, with only whitespace outside and no whitespace
    at either cut, is stripping it.
   */
  lemma CutIsStrip(s: string, i: nat, j: nat)
    requires i <= j <= |s| && SpaceBetween(s, 0, i) && SpaceBetween(s, j, |s|)
    requires i == |s| || !IsSpace(s[i])
    requires j == i || !IsSpace(s[j - 1])
    ensures IsStripOf(s[i..j], s)
  {
    var r := s[i..j];
    if j > i {
      assert r[0] == s[i] && r[|r| - 1] == s[j - 1];
    }
    assert SliceBetweenSpace(r, s, i, j);
  }

  /** A whitespace slice of `s` is empty exactly when all of `s` is whitespace. */
  lemma SliceEmptyIff(r: string, s: string, i: int, j: int)
    requires SliceBetweenSpace(r, s, i, j) && Stripped(r)
    ensures r == "" <==> AllSpace(s)
  {
    if r != "" {
      assert r[0] == s[i];
    }
  }

  /** A non-empty stripped slice starts at the first non-whitespace character. */
  lemma SliceStart(r: string, s: string, i1: int, j1: int, i2: int)
    requires SliceBetweenSpace(r, s, i1, j1) && Stripped(r) && r != ""
    requires 0 <= i2 <= |s| && SpaceBetween(s, 0, i2)
    ensures i2 <= i1
  {
    assert r[0] == s[i1];
  }

  /** A non-empty stripped slice ends at the last non-whitespace character. */
  lemma SliceEnd(r: string, s: string, i1: int, j1: int, j2: int)
    requires SliceBetweenSpace(r, s, i1, j1) && Stripped(r) && r != ""
    requires 0 <= j2 <= |s| && SpaceBetween(s, j2, |s|)
    ensures j1 <= j2
  {
    assert r[|r| - 1] == s[j1 - 1];
  }

  /** Only one string satisfies the strip relation, so `Strip` is exactly `str.strip()`. */
  lemma StripUnique(r1: string, r2: string, s: string)
    requires IsStripOf(r1, s) && IsStripOf(r2, s)
    ensures r1 == r2
  {
    var i1, j1 :| SliceBetweenSpace(r1, s, i1, j1);
    var i2, j2 :| SliceBetweenSpace(r2, s, i2, j2);
    SliceEmptyIff(r1, s, i1, j1);
    SliceEmptyIff(r2, s, i2, j2);
    if r1 != "" && r2 != "" {
      assert r2[0] == s[i2] && r2[|r2| - 1] == s[j2 - 1];
      assert r1[0] == s[i1] && r1[|r1| - 1] == s[j1 - 1];
      SliceStart(r1, s, i1, j1, i2);
      SliceStart(r2, s, i2, j2, i1);
      SliceEnd(r1, s, i1, j1, j2);
      SliceEnd(r2, s, i2, j2, j1);
    }
  }

  /** `s.strip()` is empty exactly when `s` holds no non-whitespace character. */
  lemma StripEmptyIff(s: string)
    ensures Strip(s) != "" <==> HasNonSpace(s)
  {
    var r := Strip(s);
    var i, j :| SliceBetweenSpace(r, s, i, j);
    SliceEmptyIff(r, s, i, j);
  }

  /** Stripping is idempotent: a string with no whitespace at either end is its own strip. */
  lemma StripOfStripped(s: string)
    requires Stripped(s)
    ensures Strip(s) == s
  {
    assert SliceBetweenSpace(s, s, 0, |s|);
    StripUnique(Strip(s), s, s);
  }

  /** `' '.join(ps)`: the strings of `ps` with one space between neighbours. */
  function JoinSpace(ps: seq<string>): string {
    if |ps| == 0 then ""
    else if |ps| == 1 then ps[0]
    else ps[0] + " " + JoinSpace(ps[1..])
  }

  /** Joining is a left-to-right accumulation: appending one more piece adds a space and that piece. */
  lemma {:induction false} JoinSpaceAppend(ps: seq<string>, p: string)
    requires |ps| > 0
    ensures JoinSpace(ps + [p]) == JoinSpace(ps) + " " + p
  {
    if |ps| == 1 {
      assert ps + [p] == [ps[0], p];
    } else {
      assert (ps + [p])[1..] == ps[1..] + [p];
      JoinSpaceAppend(ps[1..], p);
    }
  }

  /** The summed length of the pieces. */
  function TotalLength(ps: seq<string>): nat {
    if |ps| == 0 then 0 else |ps[0]| + TotalLength(ps[1..])
  }

  /** The length of `' '.join(ps)` is the pieces' total length plus one per separator. */
  lemma {:induction false} JoinSpaceLength(ps: seq<string>)
    requires |ps| > 0
    ensures |JoinSpace(ps)| == TotalLength(ps) + |ps| - 1
  {
    if |ps| > 1 {
      JoinSpaceLength(ps[1..]);
    }
  }

  lemma ConcatHasNonSpace(a: string, b: string)
    ensures HasNonSpace(a + b) <==> HasNonSpace(a) || HasNonSpace(b)
  {
    var c := a + b;
    if HasNonSpace(c) {
      var i :| 0 <= i < |c| && !IsSpace(c[i]);
      if i >= |a| { assert b[i - |a|] == c[i]; }
    }
    if HasNonSpace(b) {
      var i :| 0 <= i < |b| && !IsSpace(b[i]);
      assert c[|a| + i] == b[i];
    }
    if HasNonSpace(a) {
      var i :| 0 <= i < |a| && !IsSpace(a[i]);
      assert c[i] == a[i];
    }
  }

  /**
    Because the separator is itself whitespace, the joined text has a non-whitespace
    character exactly when one of the pieces does.
   */
  lemma {:induction false} JoinSpaceHasNonSpace(ps: seq<string>)
    ensures HasNonSpace(JoinSpace(ps)) <==> exists k :: 0 <= k < |ps| && HasNonSpace(ps[k])
  {
    if |ps| == 1 {
      assert HasNonSpace(ps[0]) ==> exists k :: 0 <= k < |ps| && HasNonSpace(ps[k]);
    } else if |ps| > 1 {
      var tail := JoinSpace(ps[1..]);
      ConcatHasNonSpace(ps[0], " ");
      ConcatHasNonSpace(ps[0] + " ", tail);
      assert !HasNonSpace(" ");
      JoinSpaceHasNonSpace(ps[1..]);
      if exists k :: 0 <= k < |ps| && HasNonSpace(ps[k]) {
        var k :| 0 <= k < |ps| && HasNonSpace(ps[k]);
        if k > 0 { assert ps[1..][k - 1] == ps[k]; }
      }
      if exists k :: 0 <= k < |ps[1..]| && HasNonSpace(ps[1..][k]) {
        var k :| 0 <= k < |ps[1..]| && HasNonSpace(ps[1..][k]);
        assert ps[k + 1] == ps[1..][k];
      }
    }
  }

  /** Python's `s.split(' ')`: the pieces between single spaces, always at least one. */
  function SplitSpace(s: string): (r: seq<string>)
    ensures |r| >= 1
  {
    if |s| == 0 then [""]
    else if s[0] == ' ' then [""] + SplitSpace(s[1..])
    else
      var rest := SplitSpace(s[1..]);
      [[s[0]] + rest[0]] + rest[1..]
  }

  /** A space-free prefix glues onto the first piece of the split and leaves the others alone. */
  lemma {:induction false} SplitSpaceNoSpace(p: string, t: string)
    requires forall i :: 0 <= i < |p| ==> p[i] != ' '
    ensures SplitSpace(p + t) == [p + SplitSpace(t)[0]] + SplitSpace(t)[1..]
  {
    var rest := SplitSpace(t);
    if |p| == 0 {
      assert p + t == t;
      assert p + rest[0] == rest[0];
      assert rest == [rest[0]] + rest[1..];
    } else {
      var q := p[1..];
      assert (p + t)[1..] == q + t;
      assert (p + t)[0] == p[0];
      SplitSpaceNoSpace(q, t);
      assert [p[0]] + (q + SplitSpace(t)[0]) == p + SplitSpace(t)[0];
    }
  }

  /** A leading space closes an empty first piece. */
  lemma SplitAfterSpace(t: string)
    ensures SplitSpace(" " + t) == [""] + SplitSpace(t)
  {
    assert (" " + t)[1..] == t;
  }

  /** A space-free piece, a space, then anything: the piece comes off the split whole. */
  lemma SplitPieceSpace(p: string, t: string)
    requires forall i :: 0 <= i < |p| ==> p[i] != ' '
    ensures SplitSpace(p + " " + t) == [p] + SplitSpace(t)
  {
    assert p + " " + t == p + (" " + t);
    SplitSpaceNoSpace(p, " " + t);
    SplitAfterSpace(t);
    assert ([""] + SplitSpace(t))[1..] == SplitSpace(t);
    assert p + "" == p;
  }

  /** Splitting on single spaces undoes `' '.join` when no piece contains a space. */
  lemma {:induction false} SplitJoinRoundTrip(ps: seq<string>)
    requires |ps| > 0
    requires forall k :: 0 <= k < |ps| ==> ' ' !in ps[k]
    ensures SplitSpace(JoinSpace(ps)) == ps
  {
    var p := ps[0];
    assert forall i :: 0 <= i < |p| ==> p[i] != ' ' by {
      forall i | 0 <= i < |p| ensures p[i] != ' ' { assert p[i] in p; }
    }
    if |ps| == 1 {
      SplitSpaceNoSpace(p, "");
      assert p + "" == p;
    } else {
      SplitJoinRoundTrip(ps[1..]);
      SplitPieceSpace(p, JoinSpace(ps[1..]));
      assert ps == [p] + ps[1..];
    }
  }
}
