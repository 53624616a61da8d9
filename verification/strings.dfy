/** Substring search, stripping and splitting, as Python's `str` methods do them. */
module Strings {
  import opened Chars

  /** `t` occurs in `s` starting at index `i`. */
  predicate OccursAt(s: string, t: string, i: int) {
    0 <= i && i + |t| <= |s| && s[i..i + |t|] == t
  }

  /** `t in s` restricted to occurrences starting at or after `i`. */
  function ContainsFrom(s: string, t: string, i: nat): (r: bool)
    ensures r <==> exists j :: i <= j && OccursAt(s, t, j)
    decreases |s| - i
  {
    if i + |t| > |s| then false
    else if s[i..i + |t|] == t then assert OccursAt(s, t, i); true
    else ContainsFrom(s, t, i + 1)
  }

  /** Python's `t in s`. */
  function Contains(s: string, t: string): (r: bool)
    ensures r <==> exists j :: OccursAt(s, t, j)
  {
    ContainsFrom(s, t, 0)
  }

  /** An occurrence of `t` inside an occurrence of `u` is an occurrence in the whole. */
  lemma ContainsTransitive(s: string, u: string, t: string)
    requires Contains(u, t) && Contains(s, u)
    ensures Contains(s, t)
  {
    var j :| OccursAt(s, u, j);
    var k :| OccursAt(u, t, k);
    forall m | 0 <= m < |t|
      ensures s[j + k + m] == t[m]
    {
      assert s[j + k + m] == s[j..j + |u|][k + m];
      assert u[k + m] == u[k..k + |t|][m];
    }
    assert s[j + k..j + k + |t|] == t;
    assert OccursAt(s, t, j + k);
  }

  /** Python's `s.startswith(p)`. */
  predicate StartsWith(s: string, p: string) {
    |p| <= |s| && s[..|p|] == p
  }

  predicate AllSpace(s: string) {
    forall i :: 0 <= i < |s| ==> IsSpace(s[i])
  }

  /** Length of the run of whitespace starting at `p`. */
  function SpaceRun(s: string, p: nat): (n: nat)
    requires p <= |s|
    ensures p + n <= |s|
    ensures forall k :: p <= k < p + n ==> IsSpace(s[k])
    ensures p + n == |s| || !IsSpace(s[p + n])
    decreases |s| - p
  {
    if p < |s| && IsSpace(s[p]) then 1 + SpaceRun(s, p + 1) else 0
  }

  /** Length of the run of whitespace that ends just before `e`. */
  function SpaceRunBefore(s: string, e: nat): (n: nat)
    requires e <= |s|
    ensures n <= e
    ensures forall k :: e - n <= k < e ==> IsSpace(s[k])
    ensures n == e || !IsSpace(s[e - n - 1])
  {
    if e > 0 && IsSpace(s[e - 1]) then 1 + SpaceRunBefore(s, e - 1) else 0
  }

  /** `s.lstrip()`: drops the leading whitespace and nothing else. */
  function LStrip(s: string): (r: string)
    ensures |r| <= |s| && r == s[|s| - |r|..]
    ensures AllSpace(s[..|s| - |r|])
    ensures r == [] || !IsSpace(r[0])
  {
    s[SpaceRun(s, 0)..]
  }

  /** `s.rstrip()`: drops the trailing whitespace and nothing else. */
  function RStrip(s: string): (r: string)
    ensures |r| <= |s| && r == s[..|r|]
    ensures AllSpace(s[|r|..])
    ensures r == [] || !IsSpace(r[|r| - 1])
  {
    s[..|s| - SpaceRunBefore(s, |s|)]
  }

  /**
    `s.strip()`: the infix of `s` left after removing whitespace at both ends; it starts
    where `s.lstrip()` starts.
   */
  function Strip(s: string): (r: string)
    ensures var i := |s| - |LStrip(s)|;
      i + |r| <= |s| && r == s[i..i + |r|] && AllSpace(s[..i]) && AllSpace(s[i + |r|..])
    ensures r == [] || (!IsSpace(r[0]) && !IsSpace(r[|r| - 1]))
  {
    var l := LStrip(s);
    var r := RStrip(l);
    PrefixOfSuffix(s, l, r);
    r
  }

  /** A prefix `r` of a suffix `l` of `s` is an infix of `s`, followed by the rest of `l`. */
  lemma PrefixOfSuffix(s: string, l: string, r: string)
    requires |l| <= |s| && l == s[|s| - |l|..]
    requires |r| <= |l| && r == l[..|r|]
    ensures var i := |s| - |l|; r == s[i..i + |r|] && s[i + |r|..] == l[|r|..]
  {
  }

  /** `s.rstrip("\n")`: drops every trailing newline and nothing else. */
  function RStripNewlines(s: string): (r: string)
    ensures |r| <= |s| && r == s[..|r|]
    ensures forall j :: |r| <= j < |s| ==> s[j] == '\n'
    ensures r == [] || r[|r| - 1] != '\n'
  {
    if |s| > 0 && s[|s| - 1] == '\n' then RStripNewlines(s[..|s| - 1]) else s
  }

  /** Joins pieces with the separator `c` between consecutive pieces: `c.join(ps)`. */
  function Join(ps: seq<string>, c: char): string
    requires |ps| >= 1
  {
    if |ps| == 1 then ps[0] else ps[0] + [c] + Join(ps[1..], c)
  }

  /** `s.split(c)`: at least one piece, no piece holds `c`, and joining them gives `s` back. */
  function Split(s: string, c: char): (r: seq<string>)
    ensures |r| >= 1
    ensures forall k :: 0 <= k < |r| ==> c !in r[k]
    ensures Join(r, c) == s
  {
    if |s| == 0 then [""]
    else
      var rest := Split(s[1..], c);
      if s[0] == c then [""] + rest
      else
        var r := [[s[0]] + rest[0]] + rest[1..];
        assert r[1..] == rest[1..];
        assert s == [s[0]] + s[1..];
        r
  }

  /** Splitting joined pieces that do not hold the separator gives the pieces back. */
  lemma {:induction false} SplitJoin(ps: seq<string>, c: char)
    requires |ps| >= 1
    requires forall k :: 0 <= k < |ps| ==> c !in ps[k]
    ensures Split(Join(ps, c), c) == ps
    decreases |ps|, |ps[0]|
  {
    if |ps[0]| == 0 {
      if |ps| > 1 {
        assert Join(ps, c) == [c] + Join(ps[1..], c);
        assert Join(ps, c)[1..] == Join(ps[1..], c);
        SplitJoin(ps[1..], c);
        assert ps == [""] + ps[1..];
      }
    } else {
      var s := Join(ps, c);
      var ps' := [ps[0][1..]] + ps[1..];
      assert ps'[1..] == ps[1..];
      assert forall k :: 0 <= k < |ps'| ==> c !in ps'[k];
      if |ps| == 1 {
        assert s[1..] == Join(ps', c);
      } else {
        assert s[1..] == ps[0][1..] + [c] + Join(ps[1..], c);
        assert s[1..] == Join(ps', c);
      }
      assert s[0] == ps[0][0];
      SplitJoin(ps', c);
      assert ps[0] == [ps[0][0]] + ps[0][1..];
    }
  }
}
