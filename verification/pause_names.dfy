/**
  The pause-name capture `\bPause\s+(?P<name>.+?)\s+(?:\d+(?:\.\d+)?)ms\b` under `re.search`.

  A backtracking matcher tries start positions `i` from the left; at each it lets the
  greedy `\s+` take as much whitespace as possible first (the name start `n` descending),
  and the lazy `.+?` as little as possible first (the name end `q` ascending). The first
  combination for which the remainder matches is reported. `ChosenName` states exactly
  that priority order; `FindName` is the scanner that meets it.
 */
module PauseNames {
  import opened Wrappers
  import opened Chars
  import opened Strings
  import opened Durations

  /** `\bPause` at `i`: the letter `P` is a word character, so no word character may precede it. */
  predicate PauseWordAt(line: string, i: nat) {
    i + 5 <= |line| && line[i..i + 5] == "Pause" && (i == 0 || !IsWord(line[i - 1]))
  }

  ghost predicate SpacesBetween(line: string, a: int, b: int) {
    0 <= a <= b <= |line| && forall k :: a <= k < b ==> IsSpace(line[k])
  }

  /** `.` does not match a newline. */
  ghost predicate NoNewline(line: string, a: int, b: int) {
    0 <= a <= b <= |line| && forall k :: a <= k < b ==> line[k] != '\n'
  }

  /** `\s+(?:\d+(?:\.\d+)?)ms\b` matches from `q`. */
  ghost predicate DurationTailAt(line: string, q: int) {
    exists m, e :: q < m && SpacesBetween(line, q, m) && MsTokenAt(line, m, e)
  }

  /** The whole pattern matches from `i` with the name group `line[n..q]`. */
  ghost predicate NameMatch(line: string, i: int, n: int, q: int) {
    && 0 <= i && PauseWordAt(line, i)
    && i + 5 < n < q
    && SpacesBetween(line, i + 5, n)
    && NoNewline(line, n, q)
    && DurationTailAt(line, q)
  }

  /** The match `re.search` reports: leftmost start, then longest `\s+`, then shortest name. */
  ghost predicate ChosenName(line: string, i: int, n: int, q: int) {
    && NameMatch(line, i, n, q)
    && (forall i', n', q' :: 0 <= i' < i ==> !NameMatch(line, i', n', q'))
    && (forall n', q' :: n < n' ==> !NameMatch(line, i, n', q'))
    && (forall q' :: q' < q ==> !NameMatch(line, i, n, q'))
  }

  /** The chosen match is unique. */
  lemma ChosenNameUnique(line: string, i: int, n: int, q: int, i2: int, n2: int, q2: int)
    requires ChosenName(line, i, n, q) && ChosenName(line, i2, n2, q2)
    ensures i == i2 && n == n2 && q == q2
  {
  }

  /** The duration tail after the name, attempted at `q`. */
  function TailAt(line: string, q: nat): (r: bool)
    requires q <= |line|
    ensures r <==> DurationTailAt(line, q)
  {
    var w := SpaceRun(line, q);
    var r := w > 0 && MsMatchAt(line, q + w).Some?;
    assert r ==> MsTokenAt(line, q + w, MsMatchAt(line, q + w).value) && SpacesBetween(line, q, q + w);
    assert DurationTailAt(line, q) ==> r by {
      if DurationTailAt(line, q) {
        var m, e :| q < m && SpacesBetween(line, q, m) && MsTokenAt(line, m, e);
        assert !IsSpace(line[m]) by { assert IsDigit(line[m]); }
        assert m == q + w;
      }
    }
    r
  }

  /** The lazy name end: the least `q' >= q` for which the tail matches, unless a newline intervenes. */
  function FirstNameEnd(line: string, n: nat, q: nat): (r: Option<nat>)
    requires n < q <= |line| + 1 && NoNewline(line, n, q - 1)
    ensures r.Some? ==> q <= r.value && NoNewline(line, n, r.value) && DurationTailAt(line, r.value)
    ensures r.Some? ==> forall q' :: q <= q' < r.value ==> !(NoNewline(line, n, q') && DurationTailAt(line, q'))
    ensures r.None? ==> forall q' :: q <= q' ==> !(NoNewline(line, n, q') && DurationTailAt(line, q'))
    decreases |line| + 1 - q
  {
    if q > |line| then None
    else if line[q - 1] == '\n' then
      assert forall q' :: q <= q' ==> !NoNewline(line, n, q');
      None
    else if TailAt(line, q) then Some(q)
    else FirstNameEnd(line, n, q + 1)
  }

  /** The match at start `i` with the name starting at `n` or earlier, longest whitespace first. */
  function BestNameAt(line: string, i: nat, n: nat): (r: Option<(nat, nat)>)
    requires PauseWordAt(line, i) && i + 5 <= n <= |line| && SpacesBetween(line, i + 5, n)
    ensures r.Some? ==> NameMatch(line, i, r.value.0, r.value.1) && r.value.0 <= n
    ensures r.Some? ==> forall n', q' :: r.value.0 < n' <= n ==> !NameMatch(line, i, n', q')
    ensures r.Some? ==> forall q' :: q' < r.value.1 ==> !NameMatch(line, i, r.value.0, q')
    ensures r.None? ==> forall n', q' :: n' <= n ==> !NameMatch(line, i, n', q')
    decreases n
  {
    if n == i + 5 then None
    else
      match FirstNameEnd(line, n, n + 1)
      case Some(q) => Some((n, q))
      case None => BestNameAt(line, i, n - 1)
  }

  /** The pattern attempted at start `i` alone. */
  function NameAt(line: string, i: nat): (r: Option<(nat, nat)>)
    requires i <= |line|
    ensures r.Some? ==> NameMatch(line, i, r.value.0, r.value.1)
    ensures r.Some? ==> forall n', q' :: r.value.0 < n' ==> !NameMatch(line, i, n', q')
    ensures r.Some? ==> forall q' :: q' < r.value.1 ==> !NameMatch(line, i, r.value.0, q')
    ensures r.None? ==> forall n', q' :: !NameMatch(line, i, n', q')
  {
    if PauseWordAt(line, i) then
      var n := i + 5 + SpaceRun(line, i + 5);
      assert forall n', q' :: n < n' ==> !NameMatch(line, i, n', q');
      BestNameAt(line, i, n)
    else None
  }

  /** `re.search` from `i`: start, name start and name end of the reported match. */
  function FindName(line: string, i: nat): (r: Option<(nat, nat, nat)>)
    requires i <= |line|
    ensures r.Some? ==> i <= r.value.0 && NameMatch(line, r.value.0, r.value.1, r.value.2)
    ensures r.Some? ==> forall i', n', q' :: i <= i' < r.value.0 ==> !NameMatch(line, i', n', q')
    ensures r.Some? ==> forall n', q' :: r.value.1 < n' ==> !NameMatch(line, r.value.0, n', q')
    ensures r.Some? ==> forall q' :: q' < r.value.2 ==> !NameMatch(line, r.value.0, r.value.1, q')
    ensures r.None? ==> forall i', n', q' :: i <= i' ==> !NameMatch(line, i', n', q')
    decreases |line| - i
  {
    match NameAt(line, i)
    case Some((n, q)) => Some((i, n, q))
    case None =>
      if i == |line| then None else FindName(line, i + 1)
  }

  /**
    The `name` of a pause line: the captured group, stripped, or `""` when the pattern
    does not match. A match whose group is only whitespace also yields `""`.
   */
  function PauseName(line: string): (r: string)
    ensures (forall i, n, q :: !NameMatch(line, i, n, q)) ==> r == ""
    ensures forall i, n, q :: ChosenName(line, i, n, q) ==> r == Strip(line[n..q])
    ensures r != "" ==> exists i, n, q :: ChosenName(line, i, n, q) && r == Strip(line[n..q])
  {
    match FindName(line, 0)
    case None => ""
    case Some((i, n, q)) =>
      assert ChosenName(line, i, n, q);
      forall i', n', q' | ChosenName(line, i', n', q') ensures Strip(line[n'..q']) == Strip(line[n..q]) {
        ChosenNameUnique(line, i, n, q, i', n', q');
      }
      Strip(line[n..q])
  }

  /** A non-empty name comes with a millisecond token on the same line. */
  lemma NamedPauseHasToken(line: string)
    requires PauseName(line) != ""
    ensures exists s, e :: MsTokenAt(line, s, e)
  {
    var i, n, q :| ChosenName(line, i, n, q);
    var m, e :| q < m && SpacesBetween(line, q, m) && MsTokenAt(line, m, e);
  }
}
