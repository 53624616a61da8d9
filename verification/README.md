# gccapture core in Dafny

gccapture is a G1 garbage-collector log advisor. It reads a GC log line by line. Each
line becomes a parsed event:
- its GC id;
- whether it is a pause;
- the pause name;
- its duration in milliseconds;
- the tags of its unified-logging prefix.

The analysis takes those events and:
- counts the timed pause events and those over a pause budget;
- ranks the ten longest pauses;
- runs five diagnosis rules in a fixed order: over-budget summary, to-space exhausted,
  concurrent mode failure, humongous allocation, long remark.

This project models that core:
- the line parser (`src/gccapture/parser.py`);
- the rule engine (`src/gccapture/rules.py`);
- `analyze_gc_log` (`src/gccapture/analyzer.py`).

The model is built from immutable datatypes and pure functions. Each operation carries a
contract that states what its result means. A few contracts are deliberately weaker than
the code; "## Left out" names them.

Module layout:

| module | file | content |
|---|---|---|
| `Wrappers` | `wrappers.dfy` | `Option` |
| `Chars` | `chars.dfy` | ASCII classes `\d`, `\w`, `\s`, `lower`; decimal numerals and `str(n)` |
| `Strings` | `strings.dfy` | `in`, `startswith`, `strip`, `rstrip("\n")`, `split`/`join` |
| `Seqs` | `seqs.dfy` | filtering comprehensions, counting, `enumerate(start=1)` |
| `Sorting` | `sorting.dfy` | the stable `sorted(..., reverse=True)` |
| `Models` | `models.dfy` | `Event`, `Finding`, `Report` |
| `Durations` | `durations.dfy` | the regex `\d+(?:\.\d+)?ms\b` |
| `PauseNames` | `pause_names.dfy` | the pause-name regex |
| `Parser` | `parser.dfy` | the GC-id regex, the tags prefix regex, line classification, `parse_gc_log_lines` |
| `Causes` | `causes.dfy` | `Counter(...)` and `most_common(5)` |
| `Rules` | `rules.dfy` | the five rules and `DEFAULT_RULES` |
| `Analyzer` | `analyzer.dfy` | `analyze_gc_log` |

Each regular expression is modelled in two parts:
- a declarative predicate over positions in the line. It says which substrings match,
  and which match `re.search`, `re.match` or `re.finditer` reports under backtracking
  priority;
- a scanner, with a proof that the scanner returns exactly that match.

Pause names keep everything up to the duration. Take the example line at
`src/gccapture/parser.py:11`. The pattern at `src/gccapture/parser.py:20` ends its lazy name
only where `\s+<number>ms` follows. So the name of that line is
`Young (Normal) (G1 Evacuation Pause) 512M->123M(2048M)`, heap figures included.
`PauseNames.PauseName` states this behaviour.

Two different notions of "pause" exist in the code, and both are modelled as written:
- the analyser counts events of kind pause that carry a duration
  (`src/gccapture/analyzer.py:15-19`);
- the over-budget rule counts timed lines whose lowered text contains "pause"
  (`src/gccapture/rules.py:157`).

## Model

| member | source | states |
|---|---|---|
| Chars.Lower | src/gccapture/rules.py:11 | `lower()` keeps the length and lowers each character: ASCII `A`-`Z` to `a`-`z`, all else unchanged |
| Chars.NatToString | src/gccapture/rules.py:42 | `str(n)` for a line number: at least one digit, only digits, no leading zero |
| Chars.NatToStringRoundTrip | src/gccapture/rules.py:42 | the numeral of `n` reads back as `n` |
| Strings.Contains | src/gccapture/parser.py:67 | `t in s` holds exactly when `t` occurs in `s` at some index |
| Strings.Strip | src/gccapture/parser.py:52 | `strip()` is the infix starting where `lstrip()` starts; whitespace only before and after it; the result neither starts nor ends with whitespace |
| Strings.RStripNewlines | src/gccapture/parser.py:64 | `rstrip("\n")` is a prefix of the line; only newlines were removed; it does not end in a newline |
| Strings.Split | src/gccapture/parser.py:54 | `split(",")` gives at least one piece; no piece holds the separator; joining the pieces gives the input back |
| Strings.SplitJoin | src/gccapture/parser.py:54 | splitting separator-free pieces joined by the separator gives the pieces back |
| Seqs.Filter | src/gccapture/analyzer.py:15-19 | a comprehension with a condition keeps exactly the satisfying elements, each as often as in the input |
| Seqs.FilterPairwise | src/gccapture/analyzer.py:15-19 | the comprehension keeps the input order of the kept elements |
| Seqs.FilterFilterLength | src/gccapture/analyzer.py:22 | filtering twice keeps as many elements as satisfy both conditions |
| Seqs.Kept | src/gccapture/parser.py:54 | the positions a conditional comprehension takes its elements from: only satisfying positions, strictly increasing, none missing |
| Seqs.FilterIndices | src/gccapture/parser.py:54 | the `k`-th element a comprehension keeps is the element at the `k`-th kept position, and there are as many of each |
| Seqs.Numbered | src/gccapture/parser.py:63 | `enumerate(lines, start=1)`: one result per line, each built from the line and its 1-based number |
| Sorting.SortDesc | src/gccapture/analyzer.py:20 | `sorted(..., reverse=True)` is a permutation of its input in non-increasing key order |
| Sorting.SortDescStable | src/gccapture/analyzer.py:20 | the sort is stable: elements with equal keys keep their input order |
| Sorting.PrefixDominates | src/gccapture/analyzer.py:21 | every element left out of a prefix of the sorted list has a key no larger than any kept one |
| Sorting.PrefixStable | src/gccapture/analyzer.py:20-21 | in a stable order, an element left out of a prefix that ties a kept one comes after it in the input order |
| Durations.MsMatchAt | src/gccapture/parser.py:17 | the duration regex tried at one position returns the end of the millisecond token there, and `None` exactly when no token starts there |
| Durations.FindAllMs | src/gccapture/parser.py:38 | `finditer` returns millisecond tokens in order, without overlap |
| Durations.FindAllMsCovers | src/gccapture/parser.py:38 | every token in the line shares its end with a `finditer` match that starts no later |
| Durations.FindAllMsLeftmost | src/gccapture/parser.py:38 | no token with a match's end starts between the scan position and that match |
| Durations.LastMatchIsLastToken | src/gccapture/parser.py:41 | the last `finditer` match is the token with the largest end, from its leftmost start |
| Durations.DecimalValue | src/gccapture/parser.py:43 | `float()` of a token lies between its integer part and the integer part plus one |
| Durations.ExtractDurationMs | src/gccapture/parser.py:36-45 | `None` exactly when the line holds no millisecond token; otherwise the non-negative value of the last token |
| PauseNames.ChosenNameUnique | src/gccapture/parser.py:20 | the match `re.search` reports under backtracking priority is unique |
| PauseNames.TailAt | src/gccapture/parser.py:20 | the duration tail `\s+<number>ms\b` matches at a position exactly when the scanner says so |
| PauseNames.FirstNameEnd | src/gccapture/parser.py:20 | the lazy `.+?` ends the name at the first position where the tail matches, unless a newline comes first |
| PauseNames.BestNameAt | src/gccapture/parser.py:20 | the greedy `\s+` gives back whitespace one character at a time until a name matches |
| PauseNames.NameAt | src/gccapture/parser.py:20 | the pattern at one start position returns the highest-priority match there, and `None` exactly when nothing matches there |
| PauseNames.FindName | src/gccapture/parser.py:68 | `re.search` returns the leftmost start and, at that start, the highest-priority match |
| PauseNames.PauseName | src/gccapture/parser.py:68-69 | the name is the stripped group of the reported match; `""` when nothing matches |
| PauseNames.NamedPauseHasToken | src/gccapture/parser.py:20 | a line with a non-empty pause name holds a millisecond token |
| Parser.GcIdAt | src/gccapture/parser.py:16 | `(?<!\w)GC\((\d+)\)` tried at one position returns the closing parenthesis, and `None` exactly when no token starts there |
| Parser.FindGcId | src/gccapture/parser.py:27 | `search` returns the leftmost GC-id token |
| Parser.IntOfDigits | src/gccapture/parser.py:30-33 | `int()` of a digit run: its value, and `None` (the `ValueError` branch) exactly when the run is longer than 4300 digits |
| Parser.ExtractGcId | src/gccapture/parser.py:26-33 | `None` when the line holds no GC-id token; otherwise `int()` of the leftmost token's digits, so `None` again past 4300 digits |
| Parser.ExtractGcIdOfToken | src/gccapture/parser.py:26-33 | the line `GC(d)` has id `int(d)` up to 4300 digits and none beyond |
| Parser.FindClose | src/gccapture/parser.py:23 | `[^\]]+\]` stops at the first `]` |
| Parser.GroupAt | src/gccapture/parser.py:23 | one bracketed group of the tags prefix is found exactly when one exists there |
| Parser.TagsPrefixUnique | src/gccapture/parser.py:23 | the tags prefix reads one way only: each of its three groups closes at the first `]` after it opens |
| Parser.TagsGroup | src/gccapture/parser.py:49 | `match` at the line start finds the third group exactly when the line opens with the tags prefix; the group holds no `]`; the three groups are unique, so the span is that of every way to read the prefix |
| Parser.CleanPieces | src/gccapture/parser.py:54 | result `k` is the stripped piece at the `k`-th position whose stripped piece is not blank, so order and repeats are kept; every result is trimmed; every piece that does not strip to nothing is kept |
| Parser.CleanPiecesNonEmpty | src/gccapture/parser.py:54 | some piece is kept exactly when some piece does not strip to nothing |
| Parser.CleanTags | src/gccapture/parser.py:52-54 | the tags are the clean pieces of the comma split of the stripped group; each is non-blank and trimmed, occurs in the group, and holds no comma |
| Parser.GroupTags | src/gccapture/parser.py:52-54 | the tags of the bracket-free span `line[s..e]` are the clean tags of that span, hold no `]` and occur in the line |
| Parser.ExtractTags | src/gccapture/parser.py:48-54 | no tags without the tags prefix; with the prefix, exactly the clean pieces of the comma split of the stripped third group, in order; each tag is non-blank, trimmed, comma- and bracket-free, and occurs in the line |
| Parser.ClassifyLine | src/gccapture/parser.py:65-75 | raw text and number are kept; kind is pause exactly under the pause heuristic; only pauses get a name; a named pause has a duration; the GC id, duration and tags are those the extractors find |
| Parser.ParseLine | src/gccapture/parser.py:64-65 | the event's raw text is the line minus its trailing newlines, and the event is the classification of that text |
| Parser.ParseLines | src/gccapture/parser.py:57-77 | one event per line, in order; event `i` is line `i` parsed with number `i + 1` |
| Causes.TallyHistogram | src/gccapture/rules.py:165 | the `Counter` has one entry per cause with its true count and first index, in first-occurrence order; no cause is missing; the counts add up to the number of events |
| Causes.BumpHistogram | src/gccapture/rules.py:165 | counting one more event keeps the histogram right and adds one to its total |
| Causes.TopCauses | src/gccapture/rules.py:166 | `most_common(5)` lists at most five entries |
| Causes.SortedTally | src/gccapture/rules.py:166 | the sorted histogram keeps every histogram fact, and equal counts stay in first-occurrence order |
| Causes.TopCausesEntries | src/gccapture/rules.py:166 | the listed causes are distinct and carry their true counts and first indices; counts do not increase; ties are in first-occurrence order |
| Causes.TopCausesComplete | src/gccapture/rules.py:166 | an unlisted cause has no higher count than any listed one; one that ties first appears later; with fewer than five listed, every cause is listed |
| Causes.TopCausesTotal | src/gccapture/rules.py:165-166 | the listed counts add up to at most the number of events |
| Causes.TopCausesNonEmpty | src/gccapture/rules.py:165-166 | a non-empty list of events yields at least one cause |
| Rules.ContainsAnyIgnoresCase | src/gccapture/rules.py:10-12 | `_contains_any` gives the same answer on the line and on its lowered form |
| Rules.EvidenceLineRoundTrip | src/gccapture/rules.py:42 | an evidence line reads back to its event's line number and raw text |
| Rules.EvidenceLineExact | src/gccapture/rules.py:42 | conversely, whatever reads as an evidence line is the evidence line of what it reads as; numerals with a leading zero are refused |
| Chars.CanonicalNumeral | src/gccapture/rules.py:42 | a numeral without a leading zero is `str` of its own value |
| Rules.Evidence | src/gccapture/rules.py:42 | at most ten evidence lines, line `i` naming the `i`-th match |
| Rules.HumongousIsOneNeedle | src/gccapture/rules.py:35 | a line is humongous exactly when its lowered text contains "humongous"; the second needle never widens the match |
| Rules.RemarkThreshold | src/gccapture/rules.py:130 | the threshold is the larger of the budget and 200 ms |
| Rules.SeverityFor | src/gccapture/rules.py:41 | warn exactly below the limit, critical from it; never info |
| Rules.PatternFinding | src/gccapture/rules.py:32-55 | no finding exactly when no event matches; otherwise the id, title, severity by count, the match count and the evidence of the matches |
| Rules.HumongousRule | src/gccapture/rules.py:28-55 | no finding exactly when no line is humongous; warn below five matches; `matches` counts them; the evidence lists them |
| Rules.ToSpaceExhaustedRule | src/gccapture/rules.py:58-86 | no finding exactly when no line matches; any match is critical; `matches` counts them |
| Rules.ConcurrentModeFailureRule | src/gccapture/rules.py:89-117 | no finding exactly when no line matches; any match is critical; `matches` counts them |
| Rules.LongRemarkRule | src/gccapture/rules.py:120-149 | no finding exactly when no remark event reaches the threshold; warn below three; the metrics count remark events and long remarks and give the threshold; the evidence lists the long ones |
| Rules.CauseLines | src/gccapture/rules.py:167 | one evidence line per listed cause, in order |
| Rules.OverBudgetCounts | src/gccapture/rules.py:157-162 | the two-step filter keeps exactly the timed "pause" lines over the budget, and no more than the timed "pause" lines |
| Rules.OverBudgetSummaryRule | src/gccapture/rules.py:152-180 | no finding exactly when no timed "pause" line exceeds the budget; warn below five; the metrics count both; the evidence is one to five histogram lines |
| Rules.Evaluate | src/gccapture/rules.py:183-189 | every rule's finding carries that rule's identifier |
| Rules.RulePosition | src/gccapture/rules.py:183-189 | every rule stands in `DEFAULT_RULES` |
| Rules.IdRank | src/gccapture/rules.py:183-189 | the position in `DEFAULT_RULES` of the rule carrying an identifier |
| Rules.DefaultRulesDistinct | src/gccapture/rules.py:183-189 | `DEFAULT_RULES` lists five rules, each once, with five different identifiers |
| Analyzer.WorstPauses | src/gccapture/analyzer.py:20-21 | the worst list has `min(10, n)` pauses taken from the input, in non-increasing duration |
| Analyzer.WorstPausesDominate | src/gccapture/analyzer.py:20-21 | no pause left out lasts longer than a listed one |
| Analyzer.WorstPausesStable | src/gccapture/analyzer.py:20 | equally long listed pauses keep line order; a left-out pause that ties a listed one is on a later line |
| Analyzer.Fired | src/gccapture/analyzer.py:26-29 | the indices of the rules that returned a finding, increasing, none missing |
| Analyzer.Present | src/gccapture/analyzer.py:26-29 | the findings in rule order, each the outcome of its rule |
| Analyzer.PresentComplete | src/gccapture/analyzer.py:28-29 | every finding a rule returns is appended |
| Analyzer.Outcomes | src/gccapture/analyzer.py:26-27 | each default rule is evaluated on all events with the report's context |
| Analyzer.AnalyzeEvents | src/gccapture/analyzer.py:13-37 | the budget is kept; the totals count timed pauses and those over budget; the worst list holds `min(10, total)` timed pauses from the events, in non-increasing duration; the findings are those of the default rules that fire, in rule order, at most five |
| Analyzer.Analyze | src/gccapture/analyzer.py:12-37 | `analyze_gc_log`: over-budget ≤ total ≤ lines; every worst pause is the event parsed from its own line |
| Analyzer.AnalyzeCounts | src/gccapture/analyzer.py:22 | the report's over-budget count is the number of timed pauses over the budget, no more than the total |
| Analyzer.AnalyzeWorstMembers | src/gccapture/analyzer.py:20-21 | every worst pause is a timed pause of the log |
| Analyzer.OutcomeFindings | src/gccapture/analyzer.py:24-29 | the findings have distinct identifiers; each firing rule's finding is present; every finding comes from a rule; findings follow `DEFAULT_RULES` order |
| Analyzer.AnalyzeFindings | src/gccapture/analyzer.py:24-29 | the report holds one finding per firing default rule and nothing else, in `DEFAULT_RULES` order |
| Analyzer.AnalyzeWorstRanking | src/gccapture/analyzer.py:20-21 | with events numbered by line, left-out pauses are no longer than any listed one; ties keep line order among the listed pauses, and a left-out pause that ties a listed one is on a later line |

## Left out

- `report_to_json` (`src/gccapture/analyzer.py:40-53`), the text renderer (`report.py`) and the command-line entry point (`cli.py`) are not part of this model: they format and print.
- The advice strings of every finding are left out. Most are static prose. The over-budget advice also interpolates the budget, formatted as a float, and both counts `len(over)/len(pauses)` (`src/gccapture/rules.py:169`); those counts are modelled as the finding's metrics.
- Floating point: durations, thresholds and the budget are exact reals. `float()` of a token is its exact decimal value. Rounding, `inf` and NaN budgets are not modelled.
- Character classes and `lower()` are ASCII-only: `\d`, `\w`, `\s`, `isspace` and `lower` do not cover non-ASCII letters, digits or spaces.
- The `ValueError` branch of `int()` (`src/gccapture/parser.py:32-33`) is modelled with CPython's default limit of 4300 digits (3.11 and later, and 3.7.14, 3.8.14, 3.9.14 and 3.10.7 and their successors). An interpreter without that limit never takes the branch. A changed `sys.set_int_max_str_digits` setting is not modelled.
- The `ValueError` branch of `float()` (`src/gccapture/parser.py:44-45`) is not modelled. `float()` has no digit limit, and the token is always a well-formed decimal, so the branch cannot be taken.
- `parse_gc_log_lines` is a generator; the model builds the whole list at once, which is what `analyze_gc_log` does with it.
- Durations.DecimalValue: its contract bounds the value by the integer part only. The exact value is the body's definition.
- Rules.Evaluate: its contract states only the identifier of a finding. What each rule reports is stated by that rule's own function.
