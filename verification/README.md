# Verified model of a coding agent's core logic

A Dafny model of the deterministic parts of a coding agent for small models, and
proofs about it. `dafny verify dfyconfig.toml` checks the whole project.

## What is modelled

- **Prompt budget** (`Basics`, `StableSort`, `OrderedSort`, `TextLines`, `Tokens`,
  `TokenCounting`, `TruncateMiddle`, `CutEnds`, `CutTarget`, `Segments`,
  `Eviction`, `Shrink`, `Budget`). Laying out segments, evicting by priority,
  and cutting the middle out of the largest sacred segment until the prompt fits.
  The main result is that this always converges, with a bound on the number of passes of
  the loop, and that the built prompt is within its budget unless the overhead
  alone is over it or only sacred messages of at most 32 tokens are left
  (`Budget.AssembledFits`, `Budget.ContextBuilder.Build`).
- **Globs and ignore rules** (`GlobSyntax`, `GlobSpelling`, `GlobConcat`,
  `PathGlobs`, `Regex`, `ClassItems`, `GlobCompile`, `GlobCorrect`, `GlobRefused`,
  `GlobMeaning`, `IgnoreRules`, `IgnoreLines`, `IgnoreMeaning`). A glob has
  a tree with a meaning of its own; regex text is read by a reader with the usual
  precedence and has a meaning of its own; the translation of every pattern is
  either refused, under an exact condition, or preserves the meaning; and what a
  whole `.gitignore` ignores follows, for every file.
- **Text scanners** (`JsonText`, `Extract`, `ExtractJson`, `StringEscape`,
  `StringEscapeLaws`, `StringDecode`, `EscapeReads`, `ObjectTail`, `ScalarGrammar`,
  `TailGrammar`, `ClosingQuote`, `QuoteAnswer`). Proved against a printer for the
  JSON of RFC 8259, sections 2 to 7.
- **Calendar** (`Calendar`, `CivilDate`, `Decimal`, `Rfc3339`). The division
  formulas against a calendar defined day by day, and the text against
  RFC 3339, section 5.6.
- **Stall detector** (`Stall`, `StallRuns`, `StallRepeats`). A stateful class against
  predicates on the whole history.
- **Explorer** (`FileTree`, `FileTreePaths`, `FileTreeViews`, `FileTreeFilter`,
  `FileTreeShows`). In-memory views of a cached list against walks of the tree.
- **Crate graph** (`CrateGraph`, `NameLists`). Worklist reachability.
- **Observation cuts** (`Observation`, `TruncateObservation`, `CutShows`), **line
  endings** (`EditBuf`, `EditBufCounts`, `EditBufLaws`), **status rules**
  (`Aggregation`, `AggregateMeaning`), **scores and rollup** (`Scores`, `Topics`,
  `Rollups`, `RollupRun`, `RollupMeaning`).
- **Texts** (`TextLines`, `TextTrim`, `TextMeaning`). Lines, trimming, ASCII case
  and text order, which all of these use.

Code that works in steps is a method with loops (a class where the source
updates an object), proved against a specification function or predicate; the
lemmas then say what that specification means, in terms of the inputs and not of
the functions that compute it.

## What turned out to differ from what is promised

In each case the code is modelled as it is, a concrete input is given, and the
exact condition is proved.

- A cut is meant to land at or below an achievable target (the comment and test
  at crates/sc-context/src/budget.rs:887-916). It does not when the first line of
  a text of 8 or more lines is itself over the target, nor for a target of 19 to
  24 tokens on a text barely longer than what would be kept
  (`CutTarget.CutLandsExactlyWhen`). The budget loop does not depend on it.
- Measured with the estimator, the loop that halves the kept characters never
  runs a second time (`CutTarget.NothingIsEverHalved`).
- Escaping raw control characters changes the decoded value of a literal that
  has one other than newline, return or tab: the lenient decoder does not read
  `\uXXXX` back (`StringEscapeLaws.DecodedValueKept`).
- A raw `","path":"` inside a body is meant to be told apart from the end of the
  value (crates/sc-core/src/text.rs:209-216). It is not: the value is cut at the
  first quote after which an object could go on and end
  (`TailGrammar.RawEnvelopeIsMistaken`, `TailGrammar.RawBodyEndsExactlyWhen`).
- A timestamp outside the years 0 to 9999 is not RFC 3339
  (`Rfc3339.FormatExactlyWhen`).
- Turns without real work do not show at once when several actions take turns.
  Over k actions exactly `(k - 1) * no_progress_limit + min(no_progress_limit,
  repeat_limit - 1)` of them can pass unreported and no more; with the shipped
  limits of 3 and 4 that is 4k - 2 (`StallRuns.NoAgentIdlesUndetected`,
  `StallRuns.BoundIsReached`).
- A name with a backslash in it, which a Unix file system allows, makes the
  in-memory collapsed view differ from the walk
  (`FileTreeViews.CollapseExactlyWhen`), and the filtered view keep a directory
  for a file that is not in it (`FileTreeFilter.FilterKeepsAStranger`,
  `FileTreeFilter.FiltersAgreeExactlyWhen`).
- "Always flag the cut" fails for what an error-focused cut drops before the
  first error line (`TruncateObservation.FlagsExactlyWhen`).
- Rewriting line endings to LF loses a carriage return that belongs to a line
  (`EditBufLaws.NormalizeKeepsLinesExactlyWhen`), and the result can read as
  having CRLF endings (`EditBufLaws.CrCrLfReadsAsCrLf`,
  `EditBufLaws.DominantAfterExactlyWhen`).
- Under the weighted rule an indeterminate check that turns out to pass can make
  the control worse, from Unknown to Gap (`Aggregation.SettlingCanWorsen`,
  `Aggregation.SettlingWorsensExactlyWhen`).

## Model

| member | source | states |
|---|---|---|
| `TruncateMiddle.MarkerSizes` | crates/sc-context/src/budget.rs:191-191 | the cut marker is 66 bytes of UTF-8 and costs 19 tokens (it has 62 characters; the code compares its byte length with a number of characters) |
| `TruncateMiddle.TruncateChars` | crates/sc-context/src/budget.rs:192-229 | the character path returns the text, or the head and tail of the first halving of the kept length whose measured cut fits |
| `TruncateMiddle.TruncateLines` | crates/sc-context/src/budget.rs:231-263 | growing head and tail by turns returns the cut with the largest number of lines that fits, or else the first line |
| `TruncateMiddle.FirstMisfitIsLargest` | crates/sc-context/src/budget.rs:231-255 | stopping at the first line that does not fit loses nothing: every larger cut is at least as dear |
| `CutEnds.CharCutKeepsTheEnds` | crates/sc-context/src/budget.rs:192-229 | a text of fewer than 8 lines over its target becomes its first characters, the marker and its last characters: together three for each token the marker leaves of the target, the end getting the odd one; it is returned whole exactly when what would be kept and the marker's bytes make up its length |
| `CutEnds.LineCutKeepsTheEnds` | crates/sc-context/src/budget.rs:231-263 | a text of 8 lines or more over its target becomes its first i lines, the marker and its last j lines, i being j or j + 1, the cut fits and one line more would not; or else its first line |
| `CutEnds.FittingTextIsKept` | crates/sc-context/src/budget.rs:187-189 | a text that fits, or a target of zero, changes nothing |
| `TruncateMiddle.Truncate` | crates/sc-context/src/budget.rs:186-264 | the whole cut, both paths and both early exits |
| `CutTarget.CutLandsExactlyWhen` | crates/sc-context/src/budget.rs:186-264 | a text over its target is cut to at most the target if and only if: by line, its first line alone fits; by character, the target is at least 19 and the text is longer than 3 * target + 9 |
| `CutTarget.NothingIsEverHalved` | crates/sc-context/src/budget.rs:212-229 | measured with the estimator, the first candidate of the character path is always the one returned |
| `CutTarget.RoomyCharCutLands` | crates/sc-context/src/budget.rs:192-229 | from a target of 25 tokens up the character path always lands |
| `CutTarget.ShortBlobOvershoots` | crates/sc-context/src/budget.rs:208-210 | 69 characters on one line and the achievable target 20: returned whole, over the target |
| `CutTarget.LongFirstLineOvershoots` | crates/sc-context/src/budget.rs:256-259 | a long first line above short ones: returned whole, over an achievable target |
| `Segments.LayoutIsStableSort` | crates/sc-context/src/budget.rs:342-346 | the stable sort by layout rank is the zone-by-zone layout, input order within a zone |
| `Eviction.EvictOrderOfLayout` | crates/sc-context/src/budget.rs:367-368 | in a laid-out prompt, eviction considers every history summary, then every retrieved snippet, each in prompt order, then only sacred segments |
| `Eviction.EvictCountIsLeast` | crates/sc-context/src/budget.rs:371-384 | the eviction loop takes the shortest prefix of the candidates that makes the rest fit, or all of them |
| `Eviction.MarkEvicted` | crates/sc-context/src/budget.rs:370-384 | the loop over the eviction order flips exactly the flags of that prefix and lists the zones it hit |
| `Eviction.Evict` | crates/sc-context/src/budget.rs:360-392 | evicting from a laid-out prompt leaves exactly the survivors, in order, and names the zones hit |
| `Budget.EvictionConserves` | crates/sc-context/src/budget.rs:371-392 | cost is conserved: what survives and what is evicted add up to the whole, for every prefix |
| `Budget.EvictionIsLeast` | crates/sc-context/src/budget.rs:361-392 | the survivors fit or every candidate is gone, and no shorter prefix would have made the rest fit |
| `Budget.EvictionByZone` | crates/sc-context/src/budget.rs:42-47 | no sacred segment is ever dropped; each other zone loses its earliest segments, retrieved ones only after all history; `dropped` is exactly the set of zones that lost any |
| `Shrink.LoopTargetRoom` | crates/sc-context/src/budget.rs:436-453 | for every segment above 32 tokens the target of the loop is positive, below the text's own count, and leaves room for the marker: the cut never returns the text unchanged |
| `Shrink.PassShrinks` | crates/sc-context/src/budget.rs:436-459 | one pass makes the segment strictly cheaper, and absorbs the overage, or reaches the floor, or halves the excess over 16, or reduces the text to fewer than 8 lines |
| `Shrink.PassAsks` | crates/sc-context/src/budget.rs:451-451 | a pass asks for the overage and 64 tokens more, but for no more than half of what the segment has, and never for a target of zero |
| `Shrink.Largest` | crates/sc-context/src/budget.rs:409-424 | the last of the costliest admitted segments above 32 tokens; none exactly when there is none |
| `Shrink.ShrinkAllConverges` | crates/sc-context/src/budget.rs:401-460 | the shrink loop stops only when the prompt fits or every sacred segment costs at most 32 |
| `Shrink.ShrinkAllFrame` | crates/sc-context/src/budget.rs:401-460 | shrinking changes texts only, makes no segment dearer, and leaves segments at the floor and evictable ones exactly as they were |
| `Shrink.ShrinkAllSparesSystemAndTask` | crates/sc-context/src/budget.rs:402-424 | a segment of the system or task zone is touched only once every focus file and observation costs at most 32 |
| `Shrink.PassesBounded` | crates/sc-context/src/budget.rs:401-460 | the passes of the loop are at most one more than the sum over the segments of two per halving of the excess cost, plus one for a text of many lines |
| `Budget.ShrinkToFit` | crates/sc-context/src/budget.rs:400-460 | the loop, with its exit for a segment that could not be shrunk further proved unreachable; it counts its passes, which are those that are bounded |
| `Budget.ContextBuilder.Build` | crates/sc-context/src/budget.rs:342-474 | the built prompt is the eviction survivors, shrunk; `tokens_used` is its cost plus the fixed overhead; `dropped` is exact; it is within the budget, or the overhead alone is over it, or all messages are sacred and at most 32 tokens; nothing is evicted or cut that need not be; the number of passes is bounded |
| `Budget.AssembledFits` | crates/sc-context/src/budget.rs:342-474 | for all segments and budgets the messages fit, or all are sacred and each costs at most 32: there is no third outcome |
| `Budget.SacredFloorFits` | crates/sc-context/src/budget.rs:393-460 | what a caller can check beforehand: the sacred segments, each counted at 32 tokens or at its own cost if that is less, within the room for messages is enough for the prompt to fit |
| `Budget.FloorFits` | crates/sc-context/src/budget.rs:393-460 | so is 32 times their number |
| `Budget.OverBudgetMeans` | crates/sc-context/src/budget.rs:462-466 | `tokens_used` is within the budget exactly when the overhead is and the messages fit beside it |
| `Budget.FittingPromptUntouched` | crates/sc-context/src/budget.rs:361-361 | segments that fit are only laid out |
| `Budget.NothingInVain` | crates/sc-context/src/budget.rs:355-460 | messages and overhead within the budget are only laid out; with fewer evictions the rest would be over the budget; a text is cut only when what survives eviction is still over it |
| `Budget.ObservationIsLast` | crates/sc-context/src/budget.rs:338-341 | when there is a recent observation, the last message is one |
| `Budget.AssembledInOrder` | crates/sc-context/src/budget.rs:338-474 | the finished prompt is in layout order: its messages are segments of the layout at increasing positions, with their texts at most cut |
| `Budget.EffectiveExactly` | crates/sc-context/src/budget.rs:271-276 | the usable window is the fraction of the advertised one, rounded down |
| `Budget.ReserveNeverTakesTheWindow` | crates/sc-context/src/budget.rs:271-292 | the reply reserve never takes more than half of the usable window: it is honoured in full exactly when it asks for no more, and gets that half otherwise |
| `TokenCounting.TokenCounter.Count` | crates/sc-context/src/tokens.rs:71-96 | one count: the estimate for good after a refusal, else the memo, else the tokenizer's answer, remembered in a memo of at most 4096 texts |
| `TokenCounting.CountAll` | crates/sc-context/src/tokens.rs:71-96 | a run of counts is exact up to the first refusal and estimated ever after; every text before it was asked about, only texts counted are, nothing is asked after a refusal, and no text twice while the memo has room |
| `TokenCounting.TokenCounter.IsExact` | crates/sc-context/src/tokens.rs:98-107 | whether counts are exact is settled by the first count; if there was none it counts the probe text, and the answer is whether the tokenizer gave one |
| `Tokens.EstimateExactly` | crates/sc-context/src/tokens.rs:137-146 | the estimate of a text is one more than the least number of tokens at three and a half characters each, and 0 for no text |
| `GlobSpelling.LexExactly` | crates/sc-comply/src/glob.rs:76-160 | the tokens of a pattern are exactly those it is spelled with: greedy stars, a class up to its first `]` after a first member and negated by either sign; it has none exactly when there is no such reading |
| `GlobCompile.GlobToRegex` | crates/sc-comply/src/glob.rs:63-163 | the translator succeeds exactly on the well-formed patterns, and then puts out their translation |
| `GlobSyntax.BalancedParses` | crates/sc-comply/src/glob.rs:105-116 | a list of tokens has a tree exactly when its braces balance |
| `GlobRefused.TranslationReads` | crates/sc-comply/src/glob.rs:48-163 | the emitted text, read with the precedence, classes, ranges and escapes of regular expressions, is the anchored tree of the pattern if every class ends where the glob says and has valid contents, and is refused if not |
| `ClassItems.ItemExactly` | crates/sc-comply/src/glob.rs:118-150 | what the reader takes for one item of a class is an operator, a member or escape, or a range, each by the texts it is written with |
| `GlobRefused.OneClassCompiles` | crates/sc-comply/src/glob.rs:118-150 | a pattern of one class, whatever its members: it compiles if and only if no member, range or operator of it starts with an opening bracket, its last item does not take the closing one, and its contents are valid |
| `GlobRefused.RangeToBracketCompiles` | crates/sc-comply/src/glob.rs:118-150 | a class `[x-[]`, a range that ends in an opening bracket, compiles if and only if its contents are valid |
| `GlobRefused.BracketMemberIsRefused` | crates/sc-comply/src/glob.rs:118-150 | a class `[x[]`, with x any plain character, never compiles |
| `GlobMeaning.AnchoredMatchesAll` | crates/sc-comply/src/glob.rs:64-64 | between the anchors only the whole path can be matched |
| `GlobMeaning.TranslationPreservesMeaning` | crates/sc-comply/src/glob.rs:48-163 | every pattern either does not compile, exactly when it is ill formed or has a class that is not accepted, or matches a newline-free path if and only if the glob's own meaning does |
| `IgnoreRules.Parse` | crates/sc-comply/src/scan.rs:95-135 | the compiled rules are the globs of every line that is no blank, comment or negation, in order, those that do not compile left out |
| `IgnoreLines.EntryExactlyWhen` | crates/sc-comply/src/scan.rs:99-116 | a line of white space, slashes, a core, slashes and white space is an entry for that core, at any depth if and only if no slash is before the core or in it |
| `IgnoreLines.NoEntryExactlyWhen` | crates/sc-comply/src/scan.rs:99-112 | a line has no entry if and only if it is blank, a comment, a negation or slashes only |
| `IgnoreLines.AnchoredNameLine` | crates/sc-comply/src/scan.rs:104-119 | the line `/name` ignores exactly `name` and what lies under it |
| `IgnoreLines.NameLine` | crates/sc-comply/src/scan.rs:104-127 | the line `name` ignores exactly the paths that have it as a component |
| `GlobConcat.LexAppend` | crates/sc-comply/src/scan.rs:117-127 | what a suffix such as `/**/*` does to the tokens of any pattern: it follows them, but a double star at the end takes its slash |
| `IgnoreMeaning.UnanchoredMeaning` | crates/sc-comply/src/scan.rs:117-127 | the four globs of any unanchored entry together: the entry compiles, and from the start of some segment on the path is matched by it or lies under something that is |
| `IgnoreMeaning.AnchoredMeaning` | crates/sc-comply/src/scan.rs:117-119 | the two globs of any anchored or slashed entry together: the entry compiles, and the path is matched by it or lies under something that is |
| `IgnoreMeaning.ComponentMeaning` | crates/sc-comply/src/scan.rs:121-127 | for a slash-free entry of text, `*` and `?`: some component of the path is matched by the entry |
| `IgnoreMeaning.LiteralNameMeaning` | crates/sc-comply/src/scan.rs:121-127 | a literal unanchored name is ignored exactly where it is a component of the path |
| `IgnoreMeaning.LiteralPathMeaning` | crates/sc-comply/src/scan.rs:117-119 | a literal anchored entry ignores exactly itself and everything under it |
| `IgnoreMeaning.FileMeaning` | crates/sc-comply/src/scan.rs:95-140 | for every file: a path is ignored exactly when some line covers it |
| `Extract.FirstZeroIsShortest` | crates/sc-core/src/text.rs:46-76 | the block ends at the first position where the depth is back at zero |
| `Extract.ExtractBalanced` | crates/sc-core/src/text.rs:46-76 | the scanner returns that block; its depth never goes below zero |
| `Extract.ExtractAllJsonObjects` | crates/sc-core/src/text.rs:29-42 | repeated extraction returns all top-level blocks of braces in order |
| `ExtractJson.ValueNeutral` | crates/sc-core/src/text.rs:46-76 | every JSON value of RFC 8259, however nested and whatever its strings, leaves the scanner's state and depth as they were |
| `ExtractJson.ExtractsTheValue` | crates/sc-core/src/text.rs:15-76 | from any prefix without the opening bracket, a JSON object (or array) and any suffix, exactly the object is extracted |
| `ExtractJson.ExtractsAllObjects` | crates/sc-core/src/text.rs:29-42 | objects apart by text without `{` come out complete and in order |
| `StringEscape.EscapeRawControlCharsInStrings` | crates/sc-core/src/text.rs:84-115 | the scanner is the span-wise rewriting below |
| `StringEscapeLaws.OutsideIdempotent` | crates/sc-core/src/text.rs:84-115 | escaping twice is escaping once |
| `StringEscapeLaws.EscapesSpanBySpan` | crates/sc-core/src/text.rs:84-115 | nothing outside string literals changes, and every literal keeps its place and its boundaries |
| `StringEscapeLaws.SpansCover` | crates/sc-core/src/text.rs:84-115 | the spans are the whole text |
| `EscapeReads.EscapedBodyReads` | crates/sc-core/src/text.rs:84-115 | whatever raw characters and valid escapes a literal holds, its escaped body is a string body of RFC 8259 section 7 and means, unit by unit, what was written: each raw character itself and each escape its value |
| `EscapeReads.EscapedLiteralReads` | crates/sc-core/src/text.rs:84-115 | so the escaped literal stands in its place in the text, and the rest goes on after it |
| `EscapeReads.RawBodyMeansItself` | crates/sc-core/src/text.rs:84-115 | a body without quotes and backslashes means exactly its own characters |
| `StringEscape.UnescapeJsonStringLenient` | crates/sc-core/src/text.rs:123-146 | the loop is the decoder that `StringDecode.DecodesExactlyWhen` compares with RFC 8259 |
| `StringDecode.DecodesExactlyWhen` | crates/sc-core/src/text.rs:117-146 | the decoded text of any JSON string body is the one of RFC 8259 section 7 if and only if no `\b`, `\f` or `\uXXXX` is in the body; otherwise it is longer |
| `StringEscapeLaws.DecodedValueKept` | crates/sc-core/src/text.rs:84-146 | a literal decodes to the same value if and only if its raw control characters are only newline, return and tab, or stand right after a backslash |
| `StringEscapeLaws.DecodedValueCanChange` | crates/sc-core/src/text.rs:98-104 | the one-character body U+0001 decodes to something else after escaping |
| `StringEscapeLaws.NoRawControlsLeft` | crates/sc-core/src/text.rs:84-115 | no raw control character is left in a literal, but for one kept after a backslash |
| `ClosingQuote.StructuralClosingQuote` | crates/sc-core/src/text.rs:223-256 | the answer is the first quote with an even run of backslashes before it and an object tail after it, or else the last such quote at a structural boundary |
| `ClosingQuote.AnswerUnique` | crates/sc-core/src/text.rs:223-256 | that description leaves one answer |
| `QuoteAnswer.AnswerExactly` | crates/sc-core/src/text.rs:223-256 | said of the text alone: the first unescaped quote after which the grammar of an object tail goes on; where there is none, the last one before a comma, a closing brace or the end, white space aside |
| `ClosingQuote.OddRunIsEscaped` | crates/sc-core/src/text.rs:230-240 | counting backslashes to the left agrees with reading escapes from the left |
| `ObjectTail.RecogniseTail` | crates/sc-core/src/text.rs:263-316 | the loop that recognises the rest of an object |
| `TailGrammar.RecogniserIsGrammar` | crates/sc-core/src/text.rs:258-316 | the recogniser accepts exactly: white space, members with plain keys and scalar values each after a comma, then a closing brace and anything, or the end |
| `ScalarGrammar.ScalarExactly` | crates/sc-core/src/text.rs:300-312 | a bare scalar is `true`, `false` or `null`, infinity or not-a-number in any case with or without a sign, or a decimal number: sign, digits with at most one point and at least one digit, and an exponent with digits |
| `ClosingQuote.BodysOwnCloser` | crates/sc-core/src/text.rs:223-256 | a body whose quotes are all escaped, its quote and any object tail: the answer is the body's own quote |
| `TailGrammar.SalvagedValueEndsAtItsQuote` | crates/sc-core/src/text.rs:205-256 | whatever the key order: a JSON-escaped value followed by any list of scalar members ends at its own quote |
| `TailGrammar.RawBodyEndsExactlyWhen` | crates/sc-core/src/text.rs:205-256 | any body, its quote and any object tail: the answer is that quote if and only if the body does not end in a lone backslash and no quote in it is followed by what could be the rest of the object |
| `TailGrammar.RawEnvelopeIsMistaken` | crates/sc-core/src/text.rs:209-216 | a body with a raw `","path":"` in it is cut there |
| `CivilDate.YearOfEraFound` | crates/sc-comply/src/evidence.rs:425-428 | the division formula finds the March-based year a day of a 400-year era belongs to |
| `CivilDate.MonthFound` | crates/sc-comply/src/evidence.rs:429-431 | and the month |
| `CivilDate.CivilCounts` | crates/sc-comply/src/evidence.rs:422-432 | every day number, negative ones too, gives a valid date, and counting the days before that date gives the number back |
| `CivilDate.CivilReachesEveryDate` | crates/sc-comply/src/evidence.rs:422-432 | every valid date of the Gregorian calendar is the date of its day number |
| `CivilDate.CivilStart` | crates/sc-comply/src/evidence.rs:422-432 | day 0 is 1970-01-01 |
| `CivilDate.CivilSuccessor` | crates/sc-comply/src/evidence.rs:422-432 | day n + 1 is the calendar successor of day n, with the 4/100/400 rule |
| `CivilDate.CivilIsTheCalendar` | crates/sc-comply/src/evidence.rs:415-432 | the arithmetic is the only numbering of valid dates that starts at the epoch and follows the calendar, forwards and backwards |
| `CivilDate.CivilOrdered` | crates/sc-comply/src/evidence.rs:422-432 | later day numbers are later dates |
| `Rfc3339.MomentCounts` | crates/sc-comply/src/evidence.rs:418-420 | the fields are in range and recompose to the second, for negative seconds too |
| `Rfc3339.MomentReaches` | crates/sc-comply/src/evidence.rs:417-432 | no second of the calendar is skipped |
| `Rfc3339.FormatExactlyWhen` | crates/sc-comply/src/evidence.rs:414-435 | the text is a date-time of RFC 3339 section 5.6 if and only if the year is 0 to 9999, and reading it then gives back the second |
| `Stall.StallDetector.Observe` | crates/sc-core/src/recovery.rs:73-138 | the counters track the history of turns since the reset, and the verdict is the one defined on that history |
| `Stall.StallDetector.NoteUnchangedFailure` | crates/sc-core/src/recovery.rs:146-148 | a note waits for the next turn and leaves the history alone |
| `Stall.StallDetector.Reset` | crates/sc-core/src/recovery.rs:152-158 | a reset empties the history and drops a pending note |
| `Stall.StreakIsLongest` | crates/sc-core/src/recovery.rs:104-111 | the repeat count is the longest run of turns sharing one action of which all but the first did no real work |
| `Stall.IdleRunIsLongest` | crates/sc-core/src/recovery.rs:113-129 | the no-progress count is the longest run of turns without real work that were noted or repeated an action taken since the last real work |
| `StallRuns.Replay` | crates/sc-core/src/recovery.rs:73-158 | over every sequence of observe, note and reset the verdicts are those of the history, for all limits including 0 and 1 |
| `StallRuns.NoAgentIdlesUndetected` | crates/sc-core/src/recovery.rs:73-138 | from any reachable state: more turns without real work or reset than that, over k distinct actions, contain a Looping or Stuck verdict, for all limits and stricter ones |
| `StallRuns.BoundIsReached` | crates/sc-core/src/recovery.rs:104-137 | for all limits and every k there is a run with exactly that many such turns over at most k actions and no report |
| `StallRuns.RealWorkIsHealthy` | crates/sc-core/src/recovery.rs:92-103 | a turn that did real work is Healthy, however often its action recurred, at limits of at least 2 and 1 |
| `StallRuns.InvestigationIsNotStuck` | crates/sc-core/src/recovery.rs:43-49 | a novel, un-noted action is never Stuck |
| `StallRepeats.RepeatingExactly` | crates/sc-core/src/recovery.rs:104-137 | the verdict on an action taken any number of times in a row, in full: Looping from the repeat limit on, Stuck before that from as many idle repetitions as the no-progress limit says, the first one after real work not counted |
| `StallRepeats.NotedIsReported` | crates/sc-core/src/recovery.rs:77-84 | a turn whose change was judged ineffective is reported at once, as Stuck if it does not repeat the action before it |
| `FileTree.Walk` | crates/sc-craft-ui/src/filetree.rs:143-192 | the walk appends the rows of the tree: directories before files, noise skipped, nothing below a collapsed directory |
| `FileTreePaths.RowsExactly` | crates/sc-craft-ui/src/filetree.rs:143-192 | the rows are those of the entries with no collapsed directory above them, each once, a directory before what is in it; the depth is the number of directories above, the path their names apart by slashes |
| `FileTreeShows.EntriesInOrder` | crates/sc-craft-ui/src/filetree.rs:153-170 | one directory shows its files and the directories that are no noise, directories first, each in alphabetical order whatever the case |
| `FileTreeShows.NoiseExactly` | crates/sc-fsutil/src/lib.rs:82-108 | a directory is noise if and only if its name starts with a dot, but for the dot itself, or is one of fifteen |
| `FileTreeViews.ShownOrder` | crates/sc-craft-ui/src/filetree.rs:153-170 | one level is a sorted, stable permutation of its non-noise directories followed by one of its files, alphabetical whatever the case |
| `FileTree.CollapseRun` | crates/sc-craft-ui/src/filetree.rs:95-114 | the filter over the cached list drops exactly the rows with a collapsed path above them |
| `FileTreeShows.CollapseExactly` | crates/sc-craft-ui/src/filetree.rs:95-114 | the view is the rows with no collapsed directory on the way to their path, in order |
| `FileTreeViews.CollapseIsWalk` | crates/sc-craft-ui/src/filetree.rs:93-114 | for every tree with plain names and every collapsed set, the cached list collapsed in memory equals a fresh collapsed walk |
| `FileTreeViews.CollapseExactlyWhen` | crates/sc-craft-ui/src/filetree.rs:93-200 | the two agree for all collapsed sets if and only if no shown name has a backslash in it |
| `FileTree.FilterRun` | crates/sc-craft-ui/src/filetree.rs:119-141 | the filter keeps the rows whose path is that of a match or lies above one |
| `FileTreeShows.FilterExactly` | crates/sc-craft-ui/src/filetree.rs:119-141 | the view is, in order, the rows whose path is that of a match or above it; a row matches when the trimmed query is in its name or path, whatever the case; a blank query leaves all |
| `FileTreeFilter.FilterKeeps` | crates/sc-craft-ui/src/filetree.rs:119-141 | a row is kept exactly when it matches or is above a match |
| `FileTreeFilter.FilterIsTreeFilter` | crates/sc-craft-ui/src/filetree.rs:116-141 | for every tree with plain names, no two the same in a directory: filtering the cached list equals the filter defined on the tree, an entry that matches or a directory below which something is kept |
| `FileTreeFilter.FiltersAgreeExactlyWhen` | crates/sc-craft-ui/src/filetree.rs:116-141 | for every tree the two agree for all queries if and only if each entry, for every row whose path is its own or goes on from it, has a row of its own (itself or below it) matched by that row's name and one matched by its path |
| `FileTreeFilter.FilterKeepsAStranger` | crates/sc-craft-ui/src/filetree.rs:119-141 | an empty directory `a` beside a file `a\b`, and the query "b": the row of the directory is kept |
| `CrateGraph.Load` | crates/sc-cargo/src/lib.rs:67-75 | every dependency is marked internal exactly when it names a member; nothing else changes |
| `CrateGraph.LoadedIsMarked` | crates/sc-cargo/src/lib.rs:65-75 | in a loaded graph internal means the name of a member |
| `CrateGraph.NextAreEdges` | crates/sc-cargo/src/lib.rs:81-108 | a crate links another if and only if the first package of its name has a dependency of that name that is normal and internal |
| `CrateGraph.Transitive` | crates/sc-cargo/src/lib.rs:100-117 | on every graph, cyclic or not, the worklist ends with exactly the crates on some path of such edges from the crate, without the crate itself, strictly sorted |
| `CrateGraph.LinksStayInside` | crates/sc-cargo/src/lib.rs:67-117 | in a loaded graph every crate reached is a member |
| `NameLists.StrictlySortedUnique` | crates/sc-cargo/src/lib.rs:114-116 | the members and the order leave one list |
| `TruncateObservation.Truncate` | crates/sc-context/src/truncate.rs:21-40 | the truncated text is the rendering of the cut, either form, or the text itself |
| `TruncateObservation.AssembleErrorFocused` | crates/sc-context/src/truncate.rs:145-176 | the error-focused loops put out the kept lines with a note for every gap after the first of them |
| `TruncateObservation.Collect` | crates/sc-context/src/truncate.rs:146-157 | stopping the collection early loses no error line: there is room for all of them |
| `Observation.HeadTailKeeps` | crates/sc-context/src/truncate.rs:132-142 | the head and tail form keeps exactly `max_lines` lines in order and its note counts the others |
| `Observation.PieceReads` | crates/sc-context/src/truncate.rs:132-176 | a kept line is put out as it is, and the number in a note reads back as the number of lines it stands for |
| `CutShows.ShownExactly` | crates/sc-context/src/truncate.rs:21-176 | which lines a cut shows: all error lines and at most two first lines, as there is room, if there are error lines and all fit; else the first half of the room, rounded up, and the rest from the end; every gap after the first line shown has a note on its size |
| `CutShows.ErrorLineExactly` | crates/sc-context/src/truncate.rs:178-193 | an error line has one of eight words in it, whatever the case |
| `TruncateObservation.CutConserves` | crates/sc-context/src/truncate.rs:21-176 | first shown index + lines shown + lines announced = total; at most `max_lines` source lines, in order |
| `TruncateObservation.EveryErrorSurvives` | crates/sc-context/src/truncate.rs:27-37 | when the error lines fit, every one of them survives |
| `TruncateObservation.FlagsExactlyWhen` | crates/sc-context/src/truncate.rs:8-10 | every omitted line is announced, exactly unless the error lines take up all the room and the first line is not one of them |
| `TruncateObservation.AnUnflaggedCut` | crates/sc-context/src/truncate.rs:145-176 | "ok", "error" cut to one line: the first is dropped and nothing says so |
| `EditBuf.NormalizeByLine` | crates/sc-craft-ui/src/editbuf.rs:168-175 | the rewriting replaces the ending of each line and touches nothing else |
| `EditBufCounts.ReadsExactly` | crates/sc-craft-ui/src/editbuf.rs:145-163 | a buffer reads as CRLF if and only if more of its newlines come after a carriage return than not, and as mixed if and only if there are newlines of either kind |
| `EditBufLaws.NormalizeKeepsLinesExactlyWhen` | crates/sc-craft-ui/src/editbuf.rs:166-175 | the list of lines is kept if and only if the target is CRLF or no newline comes after two carriage returns |
| `EditBufLaws.NormalizeKeepsTrailing` | crates/sc-craft-ui/src/editbuf.rs:166-175 | the presence of a trailing newline is kept |
| `EditBufLaws.IdempotentExactlyWhen` | crates/sc-craft-ui/src/editbuf.rs:166-175 | rewriting twice is rewriting once, under the same condition and only then |
| `EditBufLaws.MixedAfterExactlyWhen` | crates/sc-craft-ui/src/editbuf.rs:155-175 | a rewritten buffer is mixed if and only if the target is LF and some newlines, but not all, came after two carriage returns |
| `EditBufLaws.UnchangedExactlyWhen` | crates/sc-craft-ui/src/editbuf.rs:155-175 | a buffer is left byte for byte as it is if and only if every newline already has the target ending |
| `EditBufLaws.DominantAfterExactlyWhen` | crates/sc-craft-ui/src/editbuf.rs:145-175 | a rewritten buffer reads as having the target ending if and only if: for CRLF there is a newline; for LF at most half of the newlines came after two carriage returns |
| `EditBufLaws.CrCrLfReadsAsCrLf` | crates/sc-craft-ui/src/editbuf.rs:145-175 | CR CR LF rewritten to LF reads as CRLF |
| `EditBufLaws.CountsOrdered` | crates/sc-craft-ui/src/editbuf.rs:145-163 | the bare-LF count never underflows |
| `EditBufLaws.CrCrLfIsNotKept` | crates/sc-craft-ui/src/editbuf.rs:168-175 | CR CR LF rewritten to LF: a line loses its carriage return and the buffer is left mixed |
| `Aggregation.AggregatePermutes` | crates/sc-comply/src/aggregate.rs:58-227 | for all four rules the status does not depend on the order of the checks |
| `Aggregation.InapplicableDropsOut` | crates/sc-comply/src/aggregate.rs:82-96 | leaving out a check that does not apply changes nothing |
| `Aggregation.WorstIsMaximum` | crates/sc-comply/src/aggregate.rs:99-112 | the all-of status is that of a check, and no check is worse |
| `Aggregation.PassNeedsAPass` | crates/sc-comply/src/aggregate.rs:58-227 | no control passes without a passing check, and none while a collector has failed |
| `AggregateMeaning.UnscoredStatus` | crates/sc-comply/src/aggregate.rs:76-96 | a failed collector decides; a control to which no check applies does not apply |
| `AggregateMeaning.MajorityExactly` | crates/sc-comply/src/aggregate.rs:204-225 | otherwise the majority rule is Gap if and only if there is a gap and no more passes than gaps, and Pass if and only if it is not and more than half of the checks that apply pass |
| `AggregateMeaning.AnyExactly` | crates/sc-comply/src/aggregate.rs:109-145 | the any-of rule is Pass if and only if some check passes, and Gap if and only if every check that applies is a gap |
| `AggregateMeaning.AllExactly` | crates/sc-comply/src/aggregate.rs:99-112 | the all-of rule gives the status of a check that applies, and no check is worse |
| `AggregateMeaning.WeightedExactly` | crates/sc-comply/src/aggregate.rs:147-202 | the weighted rule is Pass or Gap if and only if the indeterminate share of the weight is within its threshold, something was observed, and the passing weight is at least `pass_at`, or below `gap_below`, times the observed weight |
| `Aggregation.ClosingAGapNeverWorsens` | crates/sc-comply/src/aggregate.rs:58-227 | turning a Gap check into Pass never moves the control to a worse status, under any rule |
| `Aggregation.SettlingNeverWorsens` | crates/sc-comply/src/aggregate.rs:99-227 | turning an Unknown check into Pass never moves the control to a worse status under the all-of, any-of and majority rules |
| `Aggregation.SettlingWorsensExactlyWhen` | crates/sc-comply/src/aggregate.rs:147-202 | under the weighted rule it does if and only if no collector failed, the indeterminate share falls from above the threshold to within it, and the ratio it uncovers is that of a gap |
| `Aggregation.SettlingCanWorsen` | crates/sc-comply/src/aggregate.rs:147-202 | with the default thresholds, a gap of weight 3 beside indeterminate checks of weights 1 and 3: settling the lighter one turns Unknown into Gap |
| `Scores.TallyRun` | crates/sc-comply/src/evidence.rs:228-234 | the tally holds, for each status, the number of controls that have it |
| `Scores.BySection` | crates/sc-comply/src/evidence.rs:257-263 | exactly the domains that have controls appear, each with its own tally |
| `Scores.DomainsPartition` | crates/sc-comply/src/evidence.rs:249-250 | the per-domain scores add up to the flat tally |
| `RollupMeaning.DeterminacyExactly` | crates/sc-comply/src/evidence.rs:278-307 | the determinacy of a score times the number of controls in scope is the number of those that pass or are a gap; it is between 0 and 1, and 0 when none is in scope |
| `Rollups.GroupedMeaning` | crates/sc-comply/src/rollup.rs:221-276 | each topic's entry has its frameworks once each in order of appearance, the worst severity, the remediation of the first finding that severe, and the words of the first finding |
| `NameLists.FirstsInOrder` | crates/sc-comply/src/rollup.rs:259-261 | frameworks stand in the order they first occurred in |
| `Rollups.RecurringMeaning` | crates/sc-comply/src/rollup.rs:278-286 | one entry per topic, sorted by reach, then severity, then name; ties stay in key order |
| `Rollups.NoGapIsLost` | crates/sc-comply/src/rollup.rs:238-276 | every gap check of a gap control stands in the list, under its framework, at no lower severity |
| `RollupMeaning.FindingsExactly` | crates/sc-comply/src/rollup.rs:238-270 | what is grouped are exactly the gap checks of gap controls, each once, in the order of packs, controls and checks, with the framework, severity and words of their place |
| `RollupMeaning.EntriesExactly` | crates/sc-comply/src/rollup.rs:248-276 | each topic that was found has an entry that sums up its findings, each entry is that of some topic, and there are as many entries as topics |
| `RollupMeaning.RecurringOrder` | crates/sc-comply/src/rollup.rs:278-286 | of two findings listed the first is in more frameworks, or in as many and graver, or as grave and not later in text order |
| `Topics.LocalCheckIdIs` | crates/sc-comply/src/rollup.rs:104-110 | the local part of an id is what follows its first slash, or all of it |
| `Topics.OwnTopic` | crates/sc-comply/src/rollup.rs:120-209 | an id of no common topic keys on itself, and its title is the id with spaces for dashes |
| `RollupRun.RollUp` | crates/sc-comply/src/rollup.rs:212-296 | the loops compute that list, the totals, the per-domain scores of all controls together, the capabilities once each, and the coverage sorted |
| `RollupRun.TotalsAreTheTally` | crates/sc-comply/src/rollup.rs:226-241 | the totals equal the tally of the controls of all packs concatenated, and the per-domain scores add up to it |
| `RollupMeaning.TotalsCount` | crates/sc-comply/src/rollup.rs:226-241 | each total is the number of controls of all packs with that status; a domain is listed if and only if it has controls, with its own numbers |
| `RollupMeaning.DisabledExactly` | crates/sc-comply/src/rollup.rs:243-247 | the capabilities listed are those some pack switched off, each once |
| `RollupMeaning.DisabledInOrder` | crates/sc-comply/src/rollup.rs:243-247 | they stand in the order of their first mention |
| `RollupRun.CoverageInOrder` | crates/sc-comply/src/rollup.rs:288-296 | the coverage of every pack is listed once, the thinnest first and then by name, and packs alike in both stay in their order |
| `RollupMeaning.CoverageOrdered` | crates/sc-comply/src/rollup.rs:288-296 | of two frameworks listed the first has no higher determinacy, and the names decide between equals |
| `TextMeaning.LinesExactly` | crates/sc-context/src/truncate.rs:22-22 | the lines of a text, as all scanners above split it: rows that end in a newline, less one carriage return before it, and a last piece if there is one |
| `TextMeaning.EveryTextHasRows` | crates/sc-context/src/truncate.rs:22-22 | every text is made of such rows and a last piece |
| `TextMeaning.LowerExactly` | crates/sc-craft-ui/src/filetree.rs:120-126 | lowering changes the 26 capitals of ASCII and no other character |
| `TextMeaning.TextLeExactly` | crates/sc-comply/src/rollup.rs:285-285 | texts are ordered by the first character in which they differ, a prefix first |

## Left out

- Reading files, manifests, evidence packs and directories: the model starts from
  the values read (texts, package lists, trees, check results).
- Regular expressions beyond what a translated glob uses, and the matching
  algorithm: the model has a reader and a meaning for that part only. Limits on
  the size of a compiled expression are not modelled.
- GlobMeaning.TranslationPreservesMeaning: what is inside a character class is
  opaque. Which contents regular expressions accept and which characters they
  name are parameters; where a class ends (nested classes, ranges, operators,
  escapes) is modelled as the `regex` crate reads it. Paths hold no newline.
- Byte offsets in the text scanners: positions are counted in characters. The
  scanners cut only at ASCII characters, so the pieces are the same.
- Floating point: weights, ratios and the context fraction are reals. Zero
  observable weight in the weighted rule gives Unknown, as the comparison with
  not-a-number does.
- Hashes (actions, memo keys) are identities: no collisions.
- TokenCounting.CountAll: the backend is a function of how often it was asked and
  of the text; locking and concurrent counting are not modelled. The convergence
  of the budget is about the estimator, since a tokenizer has no arithmetic.
- Roles, native tool calls and the conversion of segments to messages: the budget
  reads the zone and the text only.
- Message and rationale wording, report rendering, labels and locators.
- FileTree.Walk: a directory that cannot be read has no entries; a name that is
  not Unicode and an entry that is neither file nor directory are `Other`.
- RollupRun.RollUp: the map ordered by key is a map together with its keys in
  ascending order.
- Observation: the paged read (crates/sc-context/src/truncate.rs:66-115) keeps a
  contiguous prefix by construction.
- Dependencies and features of a manifest beyond name, kind and the internal flag;
  direct dependents of a crate.
- Values salvaged by key, splitting at `new_str`, fenced blocks and identifiers
  (crates/sc-core/src/text.rs:151-213, 321-394): heuristics without a
  specification.
- The topic table of the rollup is copied; that its groups are the right ones is a
  judgement.
- Plan state, run log, tool-call metrics, redaction, diagnostics, comments and the
  outcome policy: one-step invariants only.
