/**
  Millisecond figures in a log line: the pattern `\d+(?:\.\d+)?ms\b`, the leftmost-first
  scan that `re.finditer` performs with it, and the value of the last match.
 */
module Durations {
  import opened Wrappers
  import opened Chars

  /** Length of the run of digits starting at `p`. */
  function DigitRun(s: string, p: nat): (n: nat)
    requires p <= |s|
    ensures p + n <= |s|
    ensures forall k :: p <= k < p + n ==> IsDigit(s[k])
    ensures p + n == |s| || !IsDigit(s[p + n])
    decreases |s| - p
  {
    if p < |s| && IsDigit(s[p]) then 1 + DigitRun(s, p + 1) else 0
  }

  /** `line[s..t]` matches `\d+(?:\.\d+)?`: digits with at most one dot, which is not at either end. */
  ghost predicate DecimalSpan(line: string, s: int, t: int) {
    && 0 <= s < t <= |line|
    && IsDigit(line[s]) && IsDigit(line[t - 1])
    && (forall k :: s <= k < t ==> IsDigit(line[k]) || line[k] == '.')
    && (forall i, j :: s <= i < j < t && line[i] == '.' ==> line[j] != '.')
  }

  /**
    `line[s..e]` matches `\d+(?:\.\d+)?ms\b`: a decimal number, the letters `ms`, and then
    the end of the line or a non-word character (the `s` before it is a word character).
   */
  ghost predicate MsTokenAt(line: string, s: int, e: int) {
    && 0 <= s && s + 3 <= e <= |line|
    && line[e - 2] == 'm' && line[e - 1] == 's'
    && DecimalSpan(line, s, e - 2)
    && (e == |line| || !IsWord(line[e]))
  }

  /** `ms` at `b`, followed by a word boundary. */
  predicate MsAt(line: string, b: nat) {
    b + 2 <= |line| && line[b] == 'm' && line[b + 1] == 's' && (b + 2 == |line| || !IsWord(line[b + 2]))
  }

  /** A run of digits from `p` that stops at `q` has length `q - p`. */
  lemma DigitRunIs(s: string, p: nat, q: nat)
    requires p <= q <= |s|
    requires forall k :: p <= k < q ==> IsDigit(s[k])
    requires q == |s| || !IsDigit(s[q])
    ensures DigitRun(s, p) == q - p
  {
  }

  /** The end of a millisecond token is fixed by the digit runs at its start. */
  lemma MsTokenShape(line: string, s: nat, e: nat)
    requires MsTokenAt(line, s, e)
    ensures var a := s + DigitRun(line, s);
      && a > s
      && (|| e - 2 == a
          || (a < |line| && line[a] == '.' && DigitRun(line, a + 1) > 0 && e - 2 == a + 1 + DigitRun(line, a + 1)))
  {
    var a := s + DigitRun(line, s);
    assert a <= e - 2 by {
      assert !IsDigit(line[e - 2]);
    }
    if a < e - 2 {
      assert line[a] == '.';
      assert forall k :: a + 1 <= k < e - 2 ==> line[k] != '.';
      DigitRunIs(line, a + 1, e - 2);
    }
  }

  /** Digits, optionally a dot and more digits, form a decimal number. */
  lemma DecimalSpanFromRuns(line: string, s: nat, a: nat, t: nat)
    requires s < a <= t <= |line|
    requires forall k :: s <= k < a ==> IsDigit(line[k])
    requires a == t || (line[a] == '.' && a + 1 < t && forall k :: a + 1 <= k < t ==> IsDigit(line[k]))
    ensures DecimalSpan(line, s, t)
  {
    forall i, j | s <= i < j < t && line[i] == '.' ensures line[j] != '.' {
      assert i == a;
    }
  }

  /** No token starts at `s`. */
  lemma NoMsTokenAt(line: string, s: nat)
    requires s <= |line|
    requires var a := s + DigitRun(line, s);
      || a == s
      || (a < |line| && line[a] == '.' && !(DigitRun(line, a + 1) > 0 && MsAt(line, a + 1 + DigitRun(line, a + 1))))
      || (!(a < |line| && line[a] == '.') && !MsAt(line, a))
    ensures forall e :: !MsTokenAt(line, s, e)
  {
    forall e | MsTokenAt(line, s, e) ensures false {
      MsTokenShape(line, s, e);
    }
  }

  /** The regex attempted at position `s` alone: the end of the match, if there is one. */
  function MsMatchAt(line: string, s: nat): (r: Option<nat>)
    requires s <= |line|
    ensures r.Some? ==> MsTokenAt(line, s, r.value)
    ensures r.None? ==> forall e :: !MsTokenAt(line, s, e)
  {
    var a := s + DigitRun(line, s);
    if a == s then
      NoMsTokenAt(line, s);
      None
    else if a < |line| && line[a] == '.' then
      var b := a + 1 + DigitRun(line, a + 1);
      if b > a + 1 && MsAt(line, b) then
        DecimalSpanFromRuns(line, s, a, b);
        Some(b + 2)
      else
        NoMsTokenAt(line, s);
        None
    else if MsAt(line, a) then
      DecimalSpanFromRuns(line, s, a, a);
      Some(a + 2)
    else
      NoMsTokenAt(line, s);
      None
  }

  /** Two millisecond tokens that overlap end at the same place: the first `m` after their starts. */
  lemma OverlapSameEnd(line: string, s: nat, e: nat, s2: nat, e2: nat)
    requires MsTokenAt(line, s, e) && MsTokenAt(line, s2, e2)
    requires s <= s2 < e
    ensures e2 == e
  {
    assert s2 < e - 2 by {
      assert IsDigit(line[s2]);
    }
    assert e2 - 2 <= e - 2 by {
      assert !(IsDigit(line[e - 2]) || line[e - 2] == '.');
    }
    assert e - 2 <= e2 - 2 by {
      assert !(IsDigit(line[e2 - 2]) || line[e2 - 2] == '.');
    }
  }

  /**
    `re.finditer` from position `p`: each match is the leftmost one starting at or after
    the end of the previous match. The result lists (start, end) pairs.
   */
  function FindAllMs(line: string, p: nat): (r: seq<(nat, nat)>)
    requires p <= |line|
    ensures forall k :: 0 <= k < |r| ==> p <= r[k].0 && MsTokenAt(line, r[k].0, r[k].1)
    ensures forall i, j :: 0 <= i < j < |r| ==> r[i].1 <= r[j].0
    decreases |line| - p
  {
    if p == |line| then []
    else
      match MsMatchAt(line, p)
      case Some(e) => [(p, e)] + FindAllMs(line, e)
      case None => FindAllMs(line, p + 1)
  }

  /** Every token from `p` on shares its end with a match that starts no later. */
  lemma {:induction false} FindAllMsCovers(line: string, p: nat, s: nat, e: nat)
    requires p <= s && s <= |line| && MsTokenAt(line, s, e)
    ensures exists k :: 0 <= k < |FindAllMs(line, p)| && FindAllMs(line, p)[k].0 <= s && FindAllMs(line, p)[k].1 == e
    decreases |line| - p, 1
  {
    var m := MsMatchAt(line, p);
    if m.Some? {
      FindAllMsCoversMatch(line, p, m.value, s, e);
    } else {
      assert s != p;
      assert FindAllMs(line, p) == FindAllMs(line, p + 1);
      FindAllMsCovers(line, p + 1, s, e);
    }
  }

  lemma {:induction false} FindAllMsCoversMatch(line: string, p: nat, e1: nat, s: nat, e: nat)
    requires p <= s && s <= |line| && MsTokenAt(line, s, e)
    requires MsMatchAt(line, p) == Some(e1)
    ensures exists k :: 0 <= k < |FindAllMs(line, p)| && FindAllMs(line, p)[k].0 <= s && FindAllMs(line, p)[k].1 == e
    decreases |line| - p, 0
  {
    var r := FindAllMs(line, p);
    var rest := FindAllMs(line, e1);
    assert r == [(p, e1)] + rest;
    if s < e1 {
      OverlapSameEnd(line, p, e1, s, e);
      assert r[0].0 <= s && r[0].1 == e;
    } else {
      FindAllMsCovers(line, e1, s, e);
      var k :| 0 <= k < |rest| && rest[k].0 <= s && rest[k].1 == e;
      assert r[k + 1] == rest[k];
    }
  }

  /** No token with the same end starts between `p` and a match. */
  lemma {:induction false} FindAllMsLeftmost(line: string, p: nat, k: nat, s: nat)
    requires p <= |line|
    requires k < |FindAllMs(line, p)| && p <= s < FindAllMs(line, p)[k].0
    ensures !MsTokenAt(line, s, FindAllMs(line, p)[k].1)
    decreases |line| - p
  {
    var r := FindAllMs(line, p);
    match MsMatchAt(line, p)
    case Some(e1) =>
      var rest := FindAllMs(line, e1);
      assert k > 0;
      assert r[k] == rest[k - 1];
      if s < e1 {
        if MsTokenAt(line, s, r[k].1) {
          OverlapSameEnd(line, p, e1, s, r[k].1);
        }
      } else {
        FindAllMsLeftmost(line, e1, k - 1, s);
      }
    case None =>
      if s == p {
      } else {
        FindAllMsLeftmost(line, p + 1, k, s);
      }
  }

  lemma FractionBelowOne(a: nat, b: nat)
    requires a < b
    ensures 0.0 <= a as real / b as real < 1.0
  {
  }

  /**
    The value `float()` gives a decimal token, exactly: the digits before the first
    non-digit, plus the digits after the dot scaled by their number of places.
   */
  function DecimalValue(u: string): (v: real)
    ensures var k := DigitRun(u, 0);
      DigitsValue(u[..k]) as real <= v < DigitsValue(u[..k]) as real + 1.0
  {
    var k := DigitRun(u, 0);
    assert AllDigits(u[..k]);
    if k == |u| then
      DigitsValue(u[..k]) as real
    else
      var m := DigitRun(u, k + 1);
      var frac := u[k + 1..k + 1 + m];
      assert AllDigits(frac);
      DigitsValueBound(frac);
      FractionBelowOne(DigitsValue(frac), Pow10(m));
      DigitsValue(u[..k]) as real + DigitsValue(frac) as real / Pow10(m) as real
  }

  /**
    The authoritative duration of a line: the last `finditer` match. That is the token
    with the largest end, taken from its leftmost start.
   */
  ghost predicate IsLastMsToken(line: string, s: int, e: int) {
    && MsTokenAt(line, s, e)
    && (forall s', e' :: MsTokenAt(line, s', e') ==> e' <= e)
    && (forall s' :: 0 <= s' < s ==> !MsTokenAt(line, s', e))
  }

  /** At most one token is the last one. */
  lemma LastMsTokenUnique(line: string, s: int, e: int, s2: int, e2: int)
    requires IsLastMsToken(line, s, e) && IsLastMsToken(line, s2, e2)
    ensures s == s2 && e == e2
  {
  }

  /** The last `finditer` match is the last token. */
  lemma LastMatchIsLastToken(line: string)
    requires |FindAllMs(line, 0)| > 0
    ensures var last := FindAllMs(line, 0)[|FindAllMs(line, 0)| - 1]; IsLastMsToken(line, last.0, last.1)
  {
    var ms := FindAllMs(line, 0);
    var last := ms[|ms| - 1];
    forall s', e' | MsTokenAt(line, s', e') ensures e' <= last.1 {
      FindAllMsCovers(line, 0, s', e');
      var k :| 0 <= k < |ms| && ms[k].0 <= s' && ms[k].1 == e';
      if k < |ms| - 1 {
        assert ms[k].1 <= ms[|ms| - 1].0;
      }
    }
    forall s' | 0 <= s' < last.0 ensures !MsTokenAt(line, s', last.1) {
      FindAllMsLeftmost(line, 0, |ms| - 1, s');
    }
  }

  /** A line without `finditer` matches has no token at all. */
  lemma NoMatchNoToken(line: string)
    requires |FindAllMs(line, 0)| == 0
    ensures forall s, e :: !MsTokenAt(line, s, e)
  {
    forall s, e | MsTokenAt(line, s, e) ensures false {
      FindAllMsCovers(line, 0, s, e);
    }
  }

  /** `_extract_duration_ms`: the value of the last millisecond token, `None` when the line has none. */
  function ExtractDurationMs(line: string): (r: Option<real>)
    ensures r.None? <==> forall s, e :: !MsTokenAt(line, s, e)
    ensures r.Some? ==> exists s, e :: IsLastMsToken(line, s, e) && r.value == DecimalValue(line[s..e - 2])
    ensures r.Some? ==> r.value >= 0.0
  {
    var ms := FindAllMs(line, 0);
    if |ms| == 0 then
      NoMatchNoToken(line);
      None
    else
      var last := ms[|ms| - 1];
      LastMatchIsLastToken(line);
      var v := DecimalValue(line[last.0..last.1 - 2]);
      assert IsLastMsToken(line, last.0, last.1) && v == DecimalValue(line[last.0..last.1 - 2]);
      assert !(forall s, e :: !MsTokenAt(line, s, e)) by {
        assert MsTokenAt(line, last.0, last.1);
      }
      Some(v)
  }
}
