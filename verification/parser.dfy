/**
  The best-effort line parser: one `Event` per log line. Each regular expression of the
  parser is a declarative predicate over positions of the line together with a scanner
  proved to find exactly what the expression finds.
 */
module Parser {
  import opened Wrappers
  import opened Chars
  import opened Strings
  import opened Durations
  import opened Models
  import opened PauseNames
  import opened Seqs

  // ---------------------------------------------------------------------------
  // `(?<!\w)GC\((\d+)\)`

  /** `line[i..j + 1]` is `GC(` digits `)` and no word character stands right before it. */
  ghost predicate GcIdTokenAt(line: string, i: int, j: int) {
    && 0 <= i && i + 3 < j < |line|
    && line[i] == 'G' && line[i + 1] == 'C' && line[i + 2] == '('
    && AllDigits(line[i + 3..j])
    && line[j] == ')'
    && (i == 0 || !IsWord(line[i - 1]))
  }

  /** The token `search` reports: the leftmost one. */
  ghost predicate IsFirstGcIdToken(line: string, i: int, j: int) {
    GcIdTokenAt(line, i, j) && forall i', j' :: 0 <= i' < i ==> !GcIdTokenAt(line, i', j')
  }

  /** The pattern attempted at position `i` alone: the index of the closing parenthesis. */
  function GcIdAt(line: string, i: nat): (r: Option<nat>)
    requires i <= |line|
    ensures r.Some? ==> GcIdTokenAt(line, i, r.value)
    ensures r.None? ==> forall j :: !GcIdTokenAt(line, i, j)
  {
    if i + 3 <= |line| && line[i] == 'G' && line[i + 1] == 'C' && line[i + 2] == '(' && (i == 0 || !IsWord(line[i - 1])) then
      var j := i + 3 + DigitRun(line, i + 3);
      if j > i + 3 && j < |line| && line[j] == ')' then
        Some(j)
      else
        assert forall j' :: !GcIdTokenAt(line, i, j') by {
          forall j' | GcIdTokenAt(line, i, j') ensures false {
            forall k | i + 3 <= k < j' ensures IsDigit(line[k]) {
              assert line[k] == line[i + 3..j'][k - (i + 3)];
            }
            DigitRunIs(line, i + 3, j');
          }
        }
        None
    else None
  }

  /** `re.search` from position `i`: the leftmost token starting at or after `i`. */
  function FindGcId(line: string, i: nat): (r: Option<(nat, nat)>)
    requires i <= |line|
    ensures r.Some? ==> i <= r.value.0 && GcIdTokenAt(line, r.value.0, r.value.1)
    ensures r.Some? ==> forall i', j' :: i <= i' < r.value.0 ==> !GcIdTokenAt(line, i', j')
    ensures r.None? ==> forall i', j' :: i <= i' ==> !GcIdTokenAt(line, i', j')
    decreases |line| - i
  {
    if i == |line| then None
    else
      match GcIdAt(line, i)
      case Some(j) => Some((i, j))
      case None => FindGcId(line, i + 1)
  }

  /** The most decimal digits CPython's `int()` converts by default (`sys.get_int_max_str_digits()`). */
  const MaxIntDigits: nat := 4300

  /**
    `int(d)` for a run of ASCII digits: its value, or `None` where `int()` raises
    `ValueError` because the run is longer than `MaxIntDigits`.
   */
  function IntOfDigits(d: string): (r: Option<nat>)
    requires AllDigits(d)
    ensures r.None? <==> |d| > MaxIntDigits
    ensures r.Some? ==> r.value == DigitsValue(d)
  {
    if |d| > MaxIntDigits then None else Some(DigitsValue(d))
  }

  /** Two tokens that open at the same position close at the same parenthesis. */
  lemma GcIdTokenUnique(line: string, i: int, j: int, j': int)
    requires GcIdTokenAt(line, i, j) && GcIdTokenAt(line, i, j')
    ensures j == j'
  {
  }

  /**
    `_extract_gc_id`: `int()` of the digits inside the leftmost `GC(<digits>)` token.
    `None` without a token, and `None` where `int()` refuses a run of more than
    `MaxIntDigits` digits.
   */
  function ExtractGcId(line: string): (r: Option<nat>)
    ensures (forall i, j :: !GcIdTokenAt(line, i, j)) ==> r.None?
    ensures forall i, j :: IsFirstGcIdToken(line, i, j) ==> r == IntOfDigits(line[i + 3..j])
    ensures r.Some? ==> exists i, j :: IsFirstGcIdToken(line, i, j) && j - (i + 3) <= MaxIntDigits && r.value == DigitsValue(line[i + 3..j])
  {
    match FindGcId(line, 0)
    case None => None
    case Some((i, j)) =>
      assert IsFirstGcIdToken(line, i, j);
      assert forall i', j' :: IsFirstGcIdToken(line, i', j') ==> i' == i && j' == j by {
        forall i', j' | IsFirstGcIdToken(line, i', j') ensures i' == i && j' == j {
          GcIdTokenUnique(line, i, j, j');
        }
      }
      IntOfDigits(line[i + 3..j])
  }

  /** A line that is one token `GC(d)`: its id is `int(d)`, so `None` past `MaxIntDigits` digits. */
  lemma ExtractGcIdOfToken(d: string)
    requires |d| > 0 && AllDigits(d)
    ensures |d| <= MaxIntDigits ==> ExtractGcId("GC(" + d + ")") == Some(DigitsValue(d))
    ensures |d| > MaxIntDigits ==> ExtractGcId("GC(" + d + ")").None?
  {
    var line := "GC(" + d + ")";
    assert line[3..|d| + 3] == d;
    assert IsFirstGcIdToken(line, 0, |d| + 3);
  }

  // ---------------------------------------------------------------------------
  // `^\[(?P<ts>[^\]]+)\]\[(?P<level>[^\]]+)\]\[(?P<tags>[^\]]+)\]\s+`

  /** `line[o..c + 1]` is `[`, at least one character other than `]`, then `]`. */
  ghost predicate BracketGroup(line: string, o: int, c: int) {
    && 0 <= o && o + 1 < c < |line|
    && line[o] == '[' && line[c] == ']'
    && forall k :: o < k < c ==> line[k] != ']'
  }

  /** The line opens with three bracketed groups closing at `a`, `b` and `c`, then whitespace. */
  ghost predicate TagsPrefix(line: string, a: int, b: int, c: int) {
    && BracketGroup(line, 0, a)
    && BracketGroup(line, a + 1, b)
    && BracketGroup(line, b + 1, c)
    && c + 1 < |line| && IsSpace(line[c + 1])
  }

  /** Index of the first `]` at or after `p`. */
  function FindClose(line: string, p: nat): (r: Option<nat>)
    requires p <= |line|
    ensures r.Some? ==> p <= r.value < |line| && line[r.value] == ']'
    ensures r.Some? ==> forall k :: p <= k < r.value ==> line[k] != ']'
    ensures r.None? ==> forall k :: p <= k < |line| ==> line[k] != ']'
    decreases |line| - p
  {
    if p == |line| then None
    else if line[p] == ']' then Some(p)
    else FindClose(line, p + 1)
  }

  /** The bracketed group opening at `o`, if there is one: the index of its `]`. */
  function GroupAt(line: string, o: nat): (r: Option<nat>)
    ensures r.Some? ==> BracketGroup(line, o, r.value)
    ensures r.None? ==> forall c :: !BracketGroup(line, o, c)
  {
    if o < |line| && line[o] == '[' then
      match FindClose(line, o + 1)
      case Some(c) => if c > o + 1 then Some(c) else None
      case None => None
    else None
  }

  /** The contents of the third group (`start`, `end`), when the line opens with the tags prefix. */
  function TagsGroup(line: string): (r: Option<(nat, nat)>)
    ensures r.Some? ==> exists a, c :: TagsPrefix(line, a, c, r.value.1) && r.value.0 == c + 2
    ensures r.Some? ==> forall a, b, c :: TagsPrefix(line, a, b, c) ==> r.value == (b + 2, c)
    ensures r.Some? ==> 1 <= r.value.0 < r.value.1 < |line| && forall k :: r.value.0 <= k < r.value.1 ==> line[k] != ']'
    ensures r.None? ==> forall a, b, c :: !TagsPrefix(line, a, b, c)
  {
    match GroupAt(line, 0)
    case None => None
    case Some(a) =>
      match GroupAt(line, a + 1)
      case None =>
        assert forall a', b, c :: !TagsPrefix(line, a', b, c);
        None
      case Some(b) =>
        match GroupAt(line, b + 1)
        case None =>
          assert forall a', b', c :: !TagsPrefix(line, a', b', c);
          None
        case Some(c) =>
          if c + 1 < |line| && IsSpace(line[c + 1]) then
            assert TagsPrefix(line, a, b, c);
            forall a', b', c' | TagsPrefix(line, a', b', c') ensures b' == b && c' == c {
              TagsPrefixUnique(line, a, b, c, a', b', c');
            }
            Some((b + 2, c))
          else
            assert forall a', b', c' :: !TagsPrefix(line, a', b', c');
            None
  }

  /** A bracketed group closes at the first `]` after it opens. */
  lemma BracketGroupUnique(line: string, o: int, c: int, c': int)
    requires BracketGroup(line, o, c) && BracketGroup(line, o, c')
    ensures c == c'
  {
  }

  /** The tags prefix can be read in one way only. */
  lemma TagsPrefixUnique(line: string, a: int, b: int, c: int, a': int, b': int, c': int)
    requires TagsPrefix(line, a, b, c) && TagsPrefix(line, a', b', c')
    ensures a == a' && b == b' && c == c'
  {
    BracketGroupUnique(line, 0, a, a');
    BracketGroupUnique(line, a + 1, b, b');
    BracketGroupUnique(line, b + 1, c, c');
  }

  /** A tag as it is kept: not blank, and no whitespace at either end. */
  predicate Trimmed(t: string) {
    t != [] && !IsSpace(t[0]) && !IsSpace(t[|t| - 1])
  }

  function Stripped(ps: seq<string>): (r: seq<string>)
    ensures |r| == |ps| && forall i :: 0 <= i < |ps| ==> r[i] == Strip(ps[i])
  {
    seq(|ps|, i requires 0 <= i < |ps| => Strip(ps[i]))
  }

  predicate NonBlank(t: string) {
    |t| > 0
  }

  /**
    Strips every piece and drops the pieces that strip to nothing, keeping the order: the
    `k`-th result is the stripped piece at the `k`-th position whose piece is not blank.
   */
  function CleanPieces(ps: seq<string>): (r: seq<string>)
    ensures |r| <= |ps|
    ensures |r| == |Kept(Stripped(ps), NonBlank)|
    ensures forall k :: 0 <= k < |r| ==> r[k] == Strip(ps[Kept(Stripped(ps), NonBlank)[k]])
    ensures forall k :: 0 <= k < |r| ==> Trimmed(r[k]) && r[k] in Stripped(ps)
    ensures forall j :: 0 <= j < |ps| && |Strip(ps[j])| > 0 ==> Strip(ps[j]) in r
  {
    var r := Filter(Stripped(ps), NonBlank);
    FilterIndices(Stripped(ps), NonBlank);
    forall k | 0 <= k < |r| ensures Trimmed(r[k]) && r[k] in Stripped(ps) {
      FilterMembers(Stripped(ps), NonBlank, r[k]);
    }
    forall j | 0 <= j < |ps| && |Strip(ps[j])| > 0 ensures Strip(ps[j]) in r {
      FilterMembers(Stripped(ps), NonBlank, Stripped(ps)[j]);
    }
    r
  }

  /** Some piece survives exactly when some piece does not strip to nothing. */
  lemma CleanPiecesNonEmpty(ps: seq<string>)
    ensures |CleanPieces(ps)| > 0 <==> exists j :: 0 <= j < |ps| && |Strip(ps[j])| > 0
  {
    var r := CleanPieces(ps);
    if |r| > 0 {
      var j := Kept(Stripped(ps), NonBlank)[0];
      assert |Strip(ps[j])| > 0;
    }
  }

  /** A stripped string occurs in the original. */
  lemma StripOccurs(s: string)
    ensures Contains(s, Strip(s))
  {
    var r := Strip(s);
    assert OccursAt(s, r, |s| - |LStrip(s)|);
  }

  /** Every piece occurs in the joined string. */
  lemma {:induction false} PieceOccursInJoin(ps: seq<string>, c: char, k: nat)
    requires k < |ps|
    ensures Contains(Join(ps, c), ps[k])
  {
    if |ps| > 1 {
      var rest := Join(ps[1..], c);
      assert Join(ps, c) == ps[0] + [c] + rest;
      if k == 0 {
        assert OccursAt(Join(ps, c), ps[0], 0);
      } else {
        PieceOccursInJoin(ps[1..], c, k - 1);
        var i :| OccursAt(rest, ps[1..][k - 1], i);
        var off := |ps[0]| + 1;
        assert Join(ps, c)[off + i..off + i + |ps[k]|] == rest[i..i + |ps[k]|];
        assert OccursAt(Join(ps, c), ps[k], off + i);
      }
    } else {
      assert OccursAt(Join(ps, c), ps[k], 0);
    }
  }

  /** A character absent from a string is absent from everything that occurs in it. */
  lemma AbsentFromOccurrence(s: string, t: string, ch: char)
    requires Contains(s, t) && ch !in s
    ensures ch !in t
  {
    var i :| OccursAt(s, t, i);
    forall k | 0 <= k < |t| ensures t[k] != ch {
      assert t[k] == s[i..i + |t|][k] == s[i + k];
    }
  }

  /**
    `[t.strip() for t in g.strip().split(",") if t.strip()]`: non-blank, trimmed pieces,
    each occurring in `g` and holding no comma.
   */
  function CleanTags(g: string): (r: seq<string>)
    ensures r == CleanPieces(Split(Strip(g), ','))
    ensures forall k :: 0 <= k < |r| ==> Trimmed(r[k])
    ensures forall k :: 0 <= k < |r| ==> Contains(g, r[k]) && ',' !in r[k]
  {
    var ps := Split(Strip(g), ',');
    var r := CleanPieces(ps);
    CleanPiecesInGroup(g, ps, r);
    r
  }

  /** Stripped comma pieces of `strip(g)` occur in `g` and hold no comma. */
  lemma CleanPiecesInGroup(g: string, ps: seq<string>, r: seq<string>)
    requires |ps| >= 1 && Join(ps, ',') == Strip(g) && forall i :: 0 <= i < |ps| ==> ',' !in ps[i]
    requires forall k :: 0 <= k < |r| ==> r[k] in Stripped(ps)
    ensures forall k :: 0 <= k < |r| ==> Contains(g, r[k]) && ',' !in r[k]
  {
    forall k | 0 <= k < |r| ensures Contains(g, r[k]) && ',' !in r[k] {
      var j :| 0 <= j < |ps| && Stripped(ps)[j] == r[k];
      StrippedPieceInGroup(g, ps, j, r[k]);
    }
  }

  /** The stripped piece `j` of the comma pieces of `strip(g)` occurs in `g` and holds no comma. */
  lemma StrippedPieceInGroup(g: string, ps: seq<string>, j: nat, t: string)
    requires j < |ps| && Join(ps, ',') == Strip(g) && ',' !in ps[j]
    requires t == Strip(ps[j])
    ensures Contains(g, t) && ',' !in t
  {
    StripOccurs(ps[j]);
    AbsentFromOccurrence(ps[j], t, ',');
    PieceOccursInJoin(ps, ',', j);
    ContainsTransitive(Strip(g), ps[j], t);
    StripOccurs(g);
    ContainsTransitive(g, Strip(g), t);
  }

  /** Text inside the bracket-free stretch `line[s..e]` is bracket-free and occurs in `line`. */
  lemma InsideGroup(line: string, s: nat, e: nat, t: string)
    requires s <= e <= |line| && forall k :: s <= k < e ==> line[k] != ']'
    requires Contains(line[s..e], t)
    ensures ']' !in t && Contains(line, t)
  {
    var g := line[s..e];
    assert ']' !in g;
    AbsentFromOccurrence(g, t, ']');
    assert OccursAt(line, g, s);
    ContainsTransitive(line, g, t);
  }

  /** The cleaned tags of the bracket-free group `line[s..e]`. */
  function GroupTags(line: string, s: nat, e: nat): (r: seq<string>)
    requires s <= e <= |line| && forall k :: s <= k < e ==> line[k] != ']'
    ensures r == CleanTags(line[s..e])
    ensures forall k :: 0 <= k < |r| ==> Trimmed(r[k])
    ensures forall k :: 0 <= k < |r| ==> ',' !in r[k] && ']' !in r[k] && Contains(line, r[k])
  {
    var r := CleanTags(line[s..e]);
    forall k | 0 <= k < |r| ensures ']' !in r[k] && Contains(line, r[k]) {
      InsideGroup(line, s, e, r[k]);
    }
    r
  }

  /**
    `_extract_tags`: the comma-separated pieces of the third bracketed group, stripped,
    blank ones dropped; empty unless the line opens with the tags prefix.
   */
  function ExtractTags(line: string): (r: seq<string>)
    ensures (forall a, b, c :: !TagsPrefix(line, a, b, c)) ==> r == []
    ensures forall a, b, c :: TagsPrefix(line, a, b, c) ==> r == CleanPieces(Split(Strip(line[b + 2..c]), ','))
    ensures forall k :: 0 <= k < |r| ==> Trimmed(r[k])
    ensures forall k :: 0 <= k < |r| ==> ',' !in r[k] && ']' !in r[k]
    ensures forall k :: 0 <= k < |r| ==> Contains(line, r[k])
  {
    match TagsGroup(line)
    case None => []
    case Some((s, e)) =>
      PrefixGroupTags(line, s, e);
      GroupTags(line, s, e)
  }

  /** When every reading of the tags prefix puts its third group at `line[s..e]`, the tags of that span are the tags of the prefix. */
  lemma PrefixGroupTags(line: string, s: nat, e: nat)
    requires s <= e <= |line| && forall k :: s <= k < e ==> line[k] != ']'
    requires forall a, b, c :: TagsPrefix(line, a, b, c) ==> b + 2 == s && c == e
    ensures forall a, b, c :: TagsPrefix(line, a, b, c) ==> GroupTags(line, s, e) == CleanPieces(Split(Strip(line[b + 2..c]), ','))
  {
  }

  // ---------------------------------------------------------------------------
  // `parse_gc_log_lines`

  /** The pause heuristic: `" Pause " in line or line.strip().startswith("GC(") and "Pause " in line`. */
  predicate IsPauseLine(line: string) {
    Contains(line, " Pause ") || (StartsWith(Strip(line), "GC(") && Contains(line, "Pause "))
  }

  /** The event of a line whose trailing newlines are already removed. */
  function ClassifyLine(line: string, lineNo: nat): (r: Event)
    ensures r.raw == line && r.lineNo == lineNo
    ensures r.kind == Pause <==> IsPauseLine(line)
    ensures r.kind == Other ==> r.name == ""
    ensures r.kind == Pause ==> r.name == PauseName(line)
    ensures r.kind == Pause && r.name != "" ==> r.durationMs.Some?
    ensures r.durationMs == ExtractDurationMs(line)
    ensures r.gcId == ExtractGcId(line) && r.tags == ExtractTags(line)
  {
    var e := Event(line, lineNo, ExtractGcId(line), Other, "", None, ExtractTags(line));
    var dur := ExtractDurationMs(line);
    if IsPauseLine(line) then
      var name := PauseName(line);
      assert name != "" ==> dur.Some? by {
        if name != "" {
          NamedPauseHasToken(line);
        }
      }
      e.(kind := Pause, name := name, durationMs := dur)
    else
      if dur.Some? then e.(durationMs := dur) else e
  }

  /** One line to one event: the line loses its trailing newlines and keeps everything else. */
  function ParseLine(rawLine: string, lineNo: nat): (r: Event)
    ensures r.lineNo == lineNo
    ensures |r.raw| <= |rawLine| && r.raw == rawLine[..|r.raw|]
    ensures forall j :: |r.raw| <= j < |rawLine| ==> rawLine[j] == '\n'
    ensures r.raw == [] || r.raw[|r.raw| - 1] != '\n'
    ensures r == ClassifyLine(RStripNewlines(rawLine), lineNo)
  {
    var line := RStripNewlines(rawLine);
    var e := ClassifyLine(line, lineNo);
    assert e.raw == line && e.lineNo == lineNo;
    e
  }

  /** `parse_gc_log_lines`: one event per line, in order, numbered from 1. */
  function ParseLines(lines: seq<string>): (r: seq<Event>)
    ensures |r| == |lines|
    ensures forall i :: 0 <= i < |r| ==> r[i] == ParseLine(lines[i], i + 1)
    ensures forall i :: 0 <= i < |r| ==> r[i].lineNo == i + 1
  {
    Numbered(lines, ParseLine)
  }
}
