/** The .NET string operations the subaward scan relies on, on strings as sequences of characters. */
module TextOps {

  /** Char.IsWhiteSpace: the Unicode space separators, the line and paragraph separators,
      and the control characters U+0009..U+000D and U+0085. */
  predicate IsWhiteSpace(c: char)
  {
    ('\U{9}' <= c <= '\U{D}') || c == ' ' || c == '\U{85}' || c == '\U{A0}' || c == '\U{1680}'
    || ('\U{2000}' <= c <= '\U{200A}') || c == '\U{2028}' || c == '\U{2029}'
    || c == '\U{202F}' || c == '\U{205F}' || c == '\U{3000}'
  }

  /** Drops the leading characters that satisfy `ws`. */
  function TrimStartWith(s: string, ws: char -> bool): (r: string)
    ensures |r| <= |s| && r == s[|s| - |r|..]
    ensures r == [] || !ws(r[0])
    ensures forall k :: 0 <= k < |s| - |r| ==> ws(s[k])
  {
    if s != [] && ws(s[0]) then
      var r := TrimStartWith(s[1..], ws);
      assert s[1..][|s| - 1 - |r|..] == s[|s| - |r|..];
      assert forall k :: 1 <= k < |s| - |r| ==> s[k] == s[1..][k - 1];
      r
    else
      s
  }

  /** Drops the trailing characters that satisfy `ws`. */
  function TrimEndWith(s: string, ws: char -> bool): (r: string)
    ensures |r| <= |s| && r == s[..|r|]
    ensures r == [] || !ws(r[|r| - 1])
    ensures forall k :: |r| <= k < |s| ==> ws(s[k])
  {
    if s != [] && ws(s[|s| - 1]) then TrimEndWith(s[..|s| - 1], ws) else s
  }

  /** `r` is what is left of `s` once the `ws` characters before position `i` and after
      position `i + |r|` are dropped. */
  predicate TrimmedAt(s: string, r: string, i: int, ws: char -> bool)
  {
    0 <= i && i + |r| <= |s| && r == s[i..i + |r|]
    && (forall k :: 0 <= k < i ==> ws(s[k]))
    && (forall k :: i + |r| <= k < |s| ==> ws(s[k]))
  }

  /** Drops the leading and trailing characters that satisfy `ws`. */
  function TrimWith(s: string, ws: char -> bool): string
  {
    TrimEndWith(TrimStartWith(s, ws), ws)
  }

  /** The trim neither starts nor ends with a `ws` character. */
  lemma {:induction false} TrimWithEnds(s: string, ws: char -> bool)
    ensures var r := TrimWith(s, ws); r == [] || (!ws(r[0]) && !ws(r[|r| - 1]))
  {
    var t := TrimStartWith(s, ws);
    var r := TrimEndWith(t, ws);
    if r != [] {
      assert r[0] == t[0];
    }
  }

  /** A suffix of `s` after a run of `ws` characters, cut before another such run, is the
      slice of `s` between the two runs. */
  lemma {:induction false} TrimmedOfParts(s: string, t: string, r: string, ws: char -> bool)
    requires |t| <= |s| && t == s[|s| - |t|..] && forall k :: 0 <= k < |s| - |t| ==> ws(s[k])
    requires |r| <= |t| && r == t[..|r|] && forall k :: |r| <= k < |t| ==> ws(t[k])
    ensures TrimmedAt(s, r, |s| - |t|, ws)
  {
    var i := |s| - |t|;
    assert r == s[i..i + |r|];
    forall k | i + |r| <= k < |s|
      ensures ws(s[k])
    {
      assert s[k] == t[k - i];
    }
  }

  /** The trim of `s` is the slice of `s` left between two runs of `ws` characters, and it
      neither starts nor ends with a `ws` character: the longest such slice. */
  lemma {:induction false} TrimWithIsTrim(s: string, ws: char -> bool)
    ensures exists i :: TrimmedAt(s, TrimWith(s, ws), i, ws)
    ensures var r := TrimWith(s, ws); r == [] || (!ws(r[0]) && !ws(r[|r| - 1]))
  {
    var t := TrimStartWith(s, ws);
    TrimmedOfParts(s, t, TrimEndWith(t, ws), ws);
    assert TrimmedAt(s, TrimWith(s, ws), |s| - |t|, ws);
    TrimWithEnds(s, ws);
  }

  /** A string that neither starts nor ends with a `ws` character is its own trim. */
  lemma {:induction false} TrimWithKeeps(s: string, ws: char -> bool)
    requires s == [] || (!ws(s[0]) && !ws(s[|s| - 1]))
    ensures TrimWith(s, ws) == s
  {
    var r := TrimWith(s, ws);
    TrimWithIsTrim(s, ws);
    var i :| TrimmedAt(s, r, i, ws);
    if s != [] {
      var first, last := s[0], s[|s| - 1];
      assert 0 < i ==> ws(first);
      assert i + |r| < |s| ==> ws(last);
    }
  }

  /** String.Trim(). */
  function Trim(s: string): (r: string)
  {
    TrimWith(s, IsWhiteSpace)
  }

  /** Case folding under the invariant culture, restricted to ASCII letters. */
  function FoldCase(c: char): char
  {
    if 'A' <= c <= 'Z' then (c as int + 32) as char else c
  }

  /** String.Equals(b, StringComparison.InvariantCultureIgnoreCase). */
  predicate EqualsIgnoreCase(a: string, b: string)
  {
    |a| == |b| && forall i :: 0 <= i < |a| ==> FoldCase(a[i]) == FoldCase(b[i])
  }

  /** A window of `s` starting at `i` equals `p` ignoring case. */
  predicate MatchesAtIgnoreCase(s: string, p: string, i: int)
  {
    0 <= i && i + |p| <= |s| && EqualsIgnoreCase(s[i..i + |p|], p)
  }

  /** String.Contains(p, StringComparison.InvariantCultureIgnoreCase): some window of `s`
      equals `p` ignoring case. */
  function ContainsIgnoreCase(s: string, p: string): (b: bool)
    ensures b <==> exists i :: MatchesAtIgnoreCase(s, p, i)
    decreases |s|
  {
    if |p| <= |s| && EqualsIgnoreCase(s[..|p|], p) then
      assert MatchesAtIgnoreCase(s, p, 0) by { assert s[0..0 + |p|] == s[..|p|]; }
      true
    else if s == [] then
      false
    else
      var b := ContainsIgnoreCase(s[1..], p);
      assert forall i :: MatchesAtIgnoreCase(s, p, i) && i > 0 ==> MatchesAtIgnoreCase(s[1..], p, i - 1) by {
        forall i | MatchesAtIgnoreCase(s, p, i) && i > 0 ensures MatchesAtIgnoreCase(s[1..], p, i - 1) {
          assert s[i..i + |p|] == s[1..][i - 1..i - 1 + |p|];
        }
      }
      if b then
        var j :| MatchesAtIgnoreCase(s[1..], p, j);
        assert s[j + 1..j + 1 + |p|] == s[1..][j..j + |p|];
        assert MatchesAtIgnoreCase(s, p, j + 1);
        true
      else
        assert !MatchesAtIgnoreCase(s, p, 0) by { assert |p| <= |s| ==> s[0..0 + |p|] == s[..|p|]; }
        false
  }

  /** `p` occurs in `s` at position `i`, ordinal comparison. */
  predicate OccursAt(s: string, p: string, i: int)
  {
    0 <= i && i + |p| <= |s| && s[i..i + |p|] == p
  }

  /** `s` contains `p`, ordinal comparison. */
  function Contains(s: string, p: string): (b: bool)
    ensures b <==> exists i :: OccursAt(s, p, i)
    decreases |s|
  {
    if |p| <= |s| && s[..|p|] == p then
      assert OccursAt(s, p, 0) by { assert s[0..0 + |p|] == s[..|p|]; }
      true
    else if s == [] then
      false
    else
      var b := Contains(s[1..], p);
      assert forall i :: OccursAt(s, p, i) && i > 0 ==> OccursAt(s[1..], p, i - 1) by {
        forall i | OccursAt(s, p, i) && i > 0 ensures OccursAt(s[1..], p, i - 1) {
          assert s[i..i + |p|] == s[1..][i - 1..i - 1 + |p|];
        }
      }
      if b then
        var j :| OccursAt(s[1..], p, j);
        assert s[j + 1..j + 1 + |p|] == s[1..][j..j + |p|];
        assert OccursAt(s, p, j + 1);
        true
      else
        assert !OccursAt(s, p, 0) by { assert |p| <= |s| ==> s[0..0 + |p|] == s[..|p|]; }
        false
  }

  /** String.Replace(p, ""): every occurrence of `p` found scanning left to right, without
      overlaps, is cut out. The text changes exactly when it contains `p`, and then it loses
      at least one copy of `p`. */
  function RemoveAll(s: string, p: string): (r: string)
    requires p != []
    ensures r == s <==> !Contains(s, p)
    ensures Contains(s, p) ==> |r| <= |s| - |p|
    ensures |r| <= |s|
    decreases |s|
  {
    if |p| <= |s| && s[..|p|] == p then RemoveAll(s[|p|..], p)
    else if s == [] then s
    else [s[0]] + RemoveAll(s[1..], p)
  }

  /** Replace cuts the leftmost occurrence first: the text before it is kept, the occurrence is
      dropped, and the rest of the text is treated the same way. */
  lemma {:induction false} RemoveAllLeftmost(s: string, p: string, x: string, y: string)
    requires p != [] && s == x + p + y
    requires forall i :: 0 <= i < |x| ==> !OccursAt(s, p, i)
    ensures RemoveAll(s, p) == x + RemoveAll(y, p)
    decreases |x|
  {
    SplitAfter(x, p, y);
    if x == [] {
      RemoveAllCuts(s, p);
    } else {
      assert !OccursAt(s, p, 0);
      RemoveAllKeeps(s, p);
      var rest := s[1..];
      forall i | 0 <= i < |x[1..]|
        ensures !OccursAt(rest, p, i)
      {
        assert !OccursAt(s, p, i + 1);
        OccursAtShift(s, p, i);
      }
      RemoveAllLeftmost(rest, p, x[1..], y);
      FirstThenRest(x, RemoveAll(y, p));
    }
  }

  /** The slices of `x + p + y` after its first character, or around `p` when `x` is empty. */
  lemma {:induction false} SplitAfter(x: string, p: string, y: string)
    ensures x == [] ==> OccursAt(x + p + y, p, 0) && (x + p + y)[|p|..] == y
    ensures x != [] ==> (x + p + y)[1..] == x[1..] + p + y && (x + p + y)[0] == x[0]
  {
    if x == [] {
      assert x + p + y == p + y;
      assert (p + y)[0..0 + |p|] == p;
    }
  }

  lemma {:induction false} FirstThenRest<T>(x: seq<T>, z: seq<T>)
    requires x != []
    ensures [x[0]] + (x[1..] + z) == x + z
  {
    assert x == [x[0]] + x[1..];
  }

  /** An occurrence at the start is cut. */
  lemma {:induction false} RemoveAllCuts(s: string, p: string)
    requires p != [] && OccursAt(s, p, 0)
    ensures RemoveAll(s, p) == RemoveAll(s[|p|..], p)
  {
    assert s[..|p|] == s[0..0 + |p|];
  }

  /** A first character that starts no occurrence is kept. */
  lemma {:induction false} RemoveAllKeeps(s: string, p: string)
    requires p != [] && s != [] && !OccursAt(s, p, 0)
    ensures RemoveAll(s, p) == [s[0]] + RemoveAll(s[1..], p)
  {
    assert |p| <= |s| ==> s[..|p|] == s[0..0 + |p|];
  }

  /** Occurrences in the text after its first character are those of the text, one place left. */
  lemma {:induction false} OccursAtShift(s: string, p: string, i: nat)
    requires s != []
    ensures OccursAt(s[1..], p, i) == OccursAt(s, p, i + 1)
  {
    if i + |p| <= |s| - 1 {
      assert s[1..][i..i + |p|] == s[i + 1..i + 1 + |p|];
    }
  }

  /** String.LastIndexOf(c): the position of the last `c` in `s`, or -1 when there is none. */
  function LastIndexOf(s: string, c: char): (r: int)
    ensures -1 <= r < |s|
    ensures r >= 0 ==> s[r] == c
    ensures forall k :: r < k < |s| ==> s[k] != c
  {
    if s == [] then -1
    else if s[|s| - 1] == c then |s| - 1
    else LastIndexOf(s[..|s| - 1], c)
  }

  /** String.IndexOf(c): the position of the first `c` in `s`, or -1 when there is none. */
  function IndexOf(s: string, c: char): (r: int)
    ensures -1 <= r < |s|
    ensures r >= 0 ==> s[r] == c
    ensures forall k :: 0 <= k < |s| && (r == -1 || k < r) ==> s[k] != c
  {
    if s == [] then -1
    else if s[0] == c then 0
    else
      var r := IndexOf(s[1..], c);
      if r == -1 then -1 else r + 1
  }
}
