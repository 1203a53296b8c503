# pegparse, modelled in Dafny

pegparse is a Ruby library for writing backtracking PEG parsers by hand.
A grammar is a class whose methods call a small set of combinators over one
mutable parser context. The context holds:

- a scanner offset;
- a rule stack;
- a farthest-failure tracker;
- a line/indent counter;
- a list of *borrowed areas*: text regions, such as here-document bodies,
  that a rule consumed out of order.

This project models that engine as pure functions over an immutable state
record, and proves what the code promises about each operation.

| module (file) | models |
|---|---|
| `Wrappers` (wrappers.dfy) | `Option` |
| `Scanner` (scanner.dfy) | patterns: a literal string, or a regexp given as an abstract matcher that returns a match length |
| `LineCounter` (line_counter.dfy) | `Pegparse::LineCounter`: the incremental line-start and indent-end tables, `position`, `indent` |
| `BorrowedAreas` (borrowed_areas.dfy) | `Pegparse::BorrowedAreas` |
| `ParserErrors` (parser_errors.dfy) | `Pegparse::ParserErrors`: farthest-failure records and the `:optional` tie-break |
| `ParserCore` (parser_core.dfy) | `Pegparse::ParserCore` together with the `ParserContext` record: `peek`, `read`, `optional`, `choice`, `zero_or_more`, `one_or_more`, rule wrapping, `borrow_next_line`, `borrowed_area`, `parse` |
| `ParserBase` (parser_base.dfy) | `_`, `sp`, `inline_sp`, `lf`, `separative`, `string_like` |
| `BiopRuleChain` (biop_rule_chain.dfy) | precedence chains: `left_op`, `term`, `get_operator_matcher`, `match`, `construct_result`, `start_rule` |
| `HeredocRule` (heredoc_rule.dfy) | `HeredocMemoEntry`, `HeredocMemo` and the logic of `handle_heredoc` |
| `Scenarios` (scenarios.dfy) | the concrete cases of the repository's tests on the error tracker and the line counter, stated on the model |
| `CoreExample` (core_example.dfy) | the parser core's tests: the digit loop on `'123a'`, the three choices on `'1122a'`, the number rule failing on `'xxx'` |
| `ChainExample` (chain_example.dfy) | the four-operation chain test parsing `'1+2*3-4'` end to end, with ParserBase's spaces and comments |

## How the model is shaped

- **Results.** A grammar block is a `Parser<T> = State -> Res<T>`. The three
  outcomes are:
  - `Ok(value, state)`: the block returned.
  - `Backtrack(state)`: it threw `:backtrack`.
  - `Raised(state)`: any other exception passed through. The only such
    exception the core raises itself is `memo`'s ArgumentError, when a match
    starts beyond the line counter's frontier.

  Every outcome carries the state, because errors and line-table updates
  survive a backtrack. Only the offset and the borrowed areas roll back
  (`backtrack_position_to`).
- **Ruby values.** `nil` is `None`. Strings, including `""`, are truthy. The
  input text is a parameter of the operations that read it.
- **Loops.** `zero_or_more`, `one_or_more`, `string_like` and the chain's
  operand loop take a `fuel` bound on the number of rounds.
  `ZeroOrMoreFuelEnough` shows that once the loop stops on its own, more fuel
  gives the same result.
- **Overridable methods.** `line_comment`, `block_comment`, `operator_sp`,
  `operand_sp` and `construct_result` are record fields (`Comments`, `Hooks`),
  with the library's defaults supplied.
- **Here-document procs.** The content matcher and the setter are opaque
  Ruby procs, so an entry records them by what they do: the matcher fails or
  yields a value, and the setter is an identity. An `Effect` says what the
  caller observed.

Where the code and the repository's prose description disagree, the model
follows the code:

- `compare_optional_memo` prefers the *shorter* list of optional starts when
  one list is a prefix of the other (`a.size <=> b.size`, where -1 means `a`
  is better).
- `peek` refuses a match whose last byte lies in *any* borrowed area,
  including an area that starts at the current offset.
- `add_area` simply appends. The list is neither sorted nor de-duplicated.

The line counter's line starts are strictly increasing. That is proved
(`MemoKeepsIncreasing`) rather than built into the table's subset type. The
subset type holds only the equal lengths, `starts[0] == 0`, and
`starts[l] <= noindent[l]`. `MemoDescribes` proves the stronger fact: fed
fragments of one text, the tables list exactly the line starts and indent
boundaries of the text seen so far.

## Model

| member | source | states |
|---|---|---|
| `ParserCore.BacktrackPositionTo` | lib/pegparse/parser_core.rb:50-53 | the offset becomes the target; exactly the areas whose marker is at or before it survive; rule stack, errors and lines are untouched |
| `ParserCore.SaveError` | lib/pegparse/parser_core.rb:46-48 | only the errors change; a failure behind the frontier changes nothing; otherwise the frontier becomes the offset and the last record is the rule stack followed by `{pos, reason}` |
| `ParserCore.RuleFramesFailure` | lib/pegparse/parser_core.rb:151-163 | a rule around a failing `read` gives the caller its own stack back; when the failure reaches the frontier, the saved record is the caller's stack, then the rule's `[pos, name]` frame, then the pattern |
| `ParserCore.Peek` | lib/pegparse/parser_core.rb:82-103 | never moves the offset or touches stack, errors or areas; no match leaves the state as it was; raises exactly when a match starts past the line counter's frontier; returns the matched text exactly when the pattern matches and its last byte lies in no borrowed area; the line table becomes the one `memo` builds for the match |
| `ParserCore.PeekBlock` | lib/pegparse/parser_core.rb:72-80 | the offset is restored whatever the block did; a backtracking block gives nil; areas marked after the entry offset are dropped; errors and lines survive |
| `ParserCore.Read` | lib/pegparse/parser_core.rb:110-119 | succeeds exactly when `peek` accepts; then advances by exactly the match length and returns `text[pos..pos+len]`; on a backtrack the offset is unchanged and one error with the pattern as reason is saved at it; the line table only grows |
| `ParserCore.OptionalPattern` | lib/pegparse/parser_core.rb:142-144 | never backtracks; consumes the match when `peek` accepts it, else returns nil at the same offset |
| `ParserCore.Optional` | lib/pegparse/parser_core.rb:128-140 | a backtracking block gives nil, the entry offset, the areas marked no later than it, and the errors and lines the block produced; a successful block's value (even nil) and offset are kept; the `:optional` frame is popped in every case |
| `ParserCore.Rule` | lib/pegparse/parser_core.rb:151-163 | the rule runs with `[pos, name]` pushed; outcome, value, offset and errors are the body's; the frame is popped when the body keeps the stack |
| `ParserCore.Choice` | lib/pegparse/parser_core.rb:178-184 | no alternatives backtracks; a first alternative with a non-nil value wins with that value and state; one that yields nil, or backtracks and is rolled back, hands over to the remaining alternatives from the state it left; an exception in it propagates |
| `ParserCore.ChoiceBacktracksIffAllDo` | lib/pegparse/parser_core.rb:178-184 | over blocks whose values are truthy, the choice backtracks exactly when every alternative, each tried from the state the previous one's rollback left, backtracks |
| `ParserCore.ChoiceIgnoresLaterAlternatives` | lib/pegparse/parser_core.rb:178-184 | once a prefix of the alternatives succeeds, alternatives appended after it change nothing |
| `ParserCore.ChoiceOfTruthy` | lib/pegparse/parser_core.rb:178-184 | over blocks whose values are all truthy, a choice that backtracks has rolled the offset back to where it started and keeps only the areas marked no later than it |
| `ParserCore.ZeroOrMore` | lib/pegparse/parser_core.rb:188-196 | never backtracks; a first nil ends the loop with `[]` in the state `optional` left; a first value heads the result |
| `ParserCore.ZeroOrMoreInMatchOrder` | lib/pegparse/parser_core.rb:188-196 | the values are collected in match order: a round's value comes before everything the later rounds collect, and the loop ends where they end |
| `ParserCore.ZeroOrMoreFuelEnough` | lib/pegparse/parser_core.rb:188-196 | a loop that stopped on its own gives the same result with any larger bound |
| `ParserCore.OneOrMore` | lib/pegparse/parser_core.rb:200-208 | backtracks exactly when the first, unprotected call does, with that state; otherwise the first value (possibly nil) heads the result and every later value is non-nil |
| `ParserCore.OneOrMoreOfTruthy` | lib/pegparse/parser_core.rb:200-208 | over a block with truthy values, the loop backtracks exactly when its first call does, with that state, and otherwise every collected value is present |
| `ParserCore.ChoiceKeepsStack` | lib/pegparse/parser_core.rb:131-137 | alternatives that keep the rule stack give a choice that keeps it |
| `ParserCore.ZeroOrMoreKeepsStack` | lib/pegparse/parser_core.rb:188-196 | the same for `zero_or_more` |
| `ParserCore.OneOrMoreKeepsStack` | lib/pegparse/parser_core.rb:200-208 | the same for `one_or_more` |
| `ParserCore.BorrowStart` | lib/pegparse/parser_core.rb:213-220 | the block starts at the end of the last borrowed area; with no areas, it starts just past the rest of the current line, read so that a failure is recorded |
| `ParserCore.BorrowNextLine` | lib/pegparse/parser_core.rb:212-230 | on success the offset is back where it was and exactly one area `{marker: pos, start, end: where the block stopped}` is appended; on failure the block's (or the start's) state is returned |
| `ParserCore.BorrowedArea` | lib/pegparse/parser_core.rb:233-242 | succeeds exactly when the first area containing the offset starts there; then jumps to that area's end, changing nothing else; otherwise backtracks with the state unchanged |
| `ParserCore.Parse` | lib/pegparse/parser_core.rb:27-40 | a start-rule backtrack becomes nil; only exceptions escape; errors are cleared exactly when the whole input was consumed |
| `ParserCore.BestErrors` | lib/pegparse/parser_core.rb:57-63 | one entry per best record of the tracker, each frame's offset replaced by its line and column |
| `ParserCore.ReadKeepsValid` | lib/pegparse/parser_core.rb:110-119 | from a state whose offset lies within the counter's frontier, which lies within the text, `read` never raises and keeps that invariant |
| `ParserCore.PeekKeepsValid` | lib/pegparse/parser_core.rb:82-103 | from a valid state `peek` never raises, keeps the state valid and the rule stack as it was, and never moves the frontier back |
| `ParserCore.ReadKeeps` | lib/pegparse/parser_core.rb:110-119 | `read`, as a block, keeps every valid state valid and the rule stack as it was |
| `ParserCore.AreaReaderKeeps` | lib/pegparse/parser_core.rb:233-242 | so does `borrowed_area` |
| `ParserCore.OptionalKeepsValid` | lib/pegparse/parser_core.rb:128-140 | `optional` keeps the invariant and never moves the frontier back |
| `ParserCore.ChoiceKeepsValid` | lib/pegparse/parser_core.rb:178-184 | `choice` keeps the invariant and never moves the frontier back |
| `ParserCore.ZeroOrMoreKeepsValid` | lib/pegparse/parser_core.rb:188-196 | `zero_or_more` keeps the invariant and never moves the frontier back |
| `ParserCore.OneOrMoreKeepsValid` | lib/pegparse/parser_core.rb:200-208 | `one_or_more` keeps the invariant and never moves the frontier back |
| `ParserCore.BorrowedAreaKeepsValid` | lib/pegparse/parser_core.rb:233-242 | `borrowed_area` keeps the invariant |
| `ParserCore.BorrowNextLineKeepsValid` | lib/pegparse/parser_core.rb:212-230 | `borrow_next_line` keeps the invariant |
| `ParserCore.PeekKeepsLinesExact` | lib/pegparse/parser_core.rb:82-103 | when the line table lists exactly the lines of the text seen so far, it still does after `peek` |
| `ParserCore.ReadKeepsLinesExact` | lib/pegparse/parser_core.rb:110-119 | the same after `read` |
| `ParserErrors.SaveError` | lib/pegparse/parser_errors.rb:26-35 | a failure behind the frontier changes nothing; one beyond it replaces every record; one at it is appended; the record is the rule stack plus `{pos, reason}` |
| `ParserErrors.SaveErrorKeepsValid` | lib/pegparse/parser_errors.rb:26-35 | every retained record ends at the frontier, and the frontier never decreases |
| `ParserErrors.SaveErrorRecordShape` | lib/pegparse/parser_errors.rb:32-34 | the saved record is one longer than the stack, starts with the stack and ends with the failure |
| `ParserErrors.ClearErrors` | lib/pegparse/parser_errors.rb:93-96 | frontier 0 and no records |
| `ParserErrors.OptionalStarts` | lib/pegparse/parser_errors.rb:59-64 | lists the offsets of exactly the `:optional` frames of a record |
| `ParserErrors.OptionalStartsAppend` | lib/pegparse/parser_errors.rb:59-64 | the starts are read frame by frame in stack order: a one-frame record gives its offset exactly when the frame is `:optional`, and a split record gives the starts of each part in turn |
| `ParserErrors.CompareFirstDifference` | lib/pegparse/parser_errors.rb:45-52 | the first differing optional start decides, and the larger is better |
| `ParserErrors.ComparePrefix` | lib/pegparse/parser_errors.rb:53 | on an equal prefix the shorter list is better; equal lists tie |
| `ParserErrors.CompareZeroIffEqual` | lib/pegparse/parser_errors.rb:41-54 | the comparison is 0 exactly for identical lists |
| `ParserErrors.CompareAntisymmetric` | lib/pegparse/parser_errors.rb:41-54 | swapping the arguments negates the comparison |
| `ParserErrors.CompareTransitive` | lib/pegparse/parser_errors.rb:41-54 | "at least as good" is transitive |
| `ParserErrors.CompareStrictTransitive` | lib/pegparse/parser_errors.rb:41-54 | strictly better, then at least as good, is strictly better |
| `ParserErrors.PickBestCorrect` | lib/pegparse/parser_errors.rb:66-82 | the selection loop keeps the invariant: the kept indices are increasing, are all tied with the best of the records seen, and include every index tied with it |
| `ParserErrors.BestIndicesSpec` | lib/pegparse/parser_errors.rb:58-90 | the selected indices are empty exactly when no record is kept, are increasing, and are exactly the records no other record beats |
| `ParserErrors.NonOptional` | lib/pegparse/parser_errors.rb:86-88 | keeps exactly the frames that are not `:optional` |
| `ParserErrors.NonOptionalAppend` | lib/pegparse/parser_errors.rb:86-88 | the filter keeps frames in stack order: a one-frame record keeps its frame exactly when it is not `:optional`, and a split record is filtered part by part |
| `ParserErrors.Trim` | lib/pegparse/parser_errors.rb:86-88 | the last two of those frames, or all of them when fewer |
| `ParserErrors.BestErrors` | lib/pegparse/parser_errors.rb:58-90 | one trimmed record per best index, in insertion order; empty exactly when nothing is retained |
| `LineCounter.Memo` | lib/pegparse/line_counter.rb:13-37 | refuses an offset past the frontier; a fragment ending before the frontier changes nothing; the tables only grow; the frontier becomes the larger of itself and the fragment's end |
| `LineCounter.MemoKeepsIncreasing` | lib/pegparse/line_counter.rb:25-31 | line starts stay strictly increasing, since a start is added only past the last one |
| `LineCounter.StepGrows` | lib/pegparse/line_counter.rb:18-32 | one byte keeps the existing line starts, may only append new ones, and never moves an indent boundary backwards |
| `LineCounter.ScanBlanks` | lib/pegparse/line_counter.rb:19-23 | a run of blanks sitting at the row's indent boundary moves the boundary to the run's end |
| `LineCounter.ScanPlain` | lib/pegparse/line_counter.rb:18-32 | other bytes that are not newlines leave the table as it is |
| `LineCounter.MemoDescribes` | lib/pegparse/line_counter.rb:13-37 | fed fragments of one text, each starting no later than the frontier, the table lists exactly the line starts and the end of each line's leading blanks in the text seen so far |
| `LineCounter.InitDescribes` | lib/pegparse/line_counter.rb:4-8 | a fresh counter describes the empty prefix |
| `LineCounter.Position` | lib/pegparse/line_counter.rb:42-52 | returns `(l, p - starts[l])` with `starts[l] <= p`, and `p < starts[l+1]` when that line exists |
| `LineCounter.PositionDescribed` | lib/pegparse/line_counter.rb:42-52 | on a table that describes the text, the row is the number of newlines before `p` and the column is the distance to the last line start |
| `LineCounter.Indent` | lib/pegparse/line_counter.rb:57-60 | the distance from the start of the line holding `p` to that line's indent boundary |
| `LineCounter.IndentDescribed` | lib/pegparse/line_counter.rb:57-60 | on a table that describes the text seen so far, the indent at `p` is the number of blanks that open the line holding `p` |
| `BorrowedAreas.AddArea` | lib/pegparse/borrowed_areas.rb:16-18 | appends one area and keeps the earlier ones |
| `BorrowedAreas.ConflictedArea` | lib/pegparse/borrowed_areas.rb:20-22 | nil exactly when no area contains `p`; otherwise the first area in list order with `start <= p < end` |
| `BorrowedAreas.Backtracked` | lib/pegparse/borrowed_areas.rb:24-26 | keeps exactly the areas whose marker is at or before `p` |
| `BorrowedAreas.BacktrackedAppend` | lib/pegparse/borrowed_areas.rb:24-26 | the filter keeps order: a one-area list keeps its area exactly when the marker is at or before `p`, and a split list is filtered part by part |
| `BorrowedAreas.BacktrackedTwice` | lib/pegparse/borrowed_areas.rb:24-26 | filtering at `p` and then at `q <= p` is filtering at `q` |
| `BorrowedAreas.BacktrackedIdempotent` | lib/pegparse/borrowed_areas.rb:24-26 | filtering twice at the same offset is filtering once |
| `BorrowedAreas.BacktrackedKeepsEarlier` | lib/pegparse/borrowed_areas.rb:24-26 | areas all marked at or before `p` are kept in their order |
| `BorrowedAreas.StartPos` | lib/pegparse/borrowed_areas.rb:28-30 | nil exactly when empty, else the first area's start |
| `BorrowedAreas.EndPos` | lib/pegparse/borrowed_areas.rb:32-34 | nil exactly when empty, else the last area's end |
| `BorrowedAreas.EmptyAreaNeverConflicts` | lib/pegparse/borrowed_areas.rb:20-22 | adding an area with `start == end` changes no lookup |
| `BorrowedAreas.AppendNonContaining` | lib/pegparse/borrowed_areas.rb:16-22 | appending an area that does not contain `p` does not change the lookup at `p` |
| `ParserBase.Space` | lib/pegparse/parser_base.rb:10-20 | `_` backtracks exactly when its first piece (blanks, newline, borrowed area, comments) does, leaving the offset; otherwise every value is a piece |
| `ParserBase.SpacePiece` | lib/pegparse/parser_base.rb:11-18 | a run of `[ \t\r]` wins over every later alternative; the piece backtracks exactly when all five alternatives do, each from where the previous one was rolled back, and then the offset is unchanged |
| `ParserBase.LineCommentSpansLine` | lib/pegparse/parser_base.rb:22-24 | the default line comment is a `#` and the rest of its line, up to the newline or the end of the text; it fails anywhere a `#` does not stand |
| `ParserBase.DefaultLineCommentWellBehaved` | lib/pegparse/parser_base.rb:22-24 | with that line comment and a block comment that keeps states valid and the stack, every piece of `_` keeps them too |
| `ParserBase.SpaceKeeps` | lib/pegparse/parser_base.rb:10-20 | `_` keeps states valid, never moves the frontier back, and leaves the rule stack as it found it |
| `ParserBase.Sp` | lib/pegparse/parser_base.rb:39-41 | never backtracks; nil (with the offset unchanged) exactly when `_` backtracks |
| `ParserBase.SpKeeps` | lib/pegparse/parser_base.rb:39-41 | the same for `sp` |
| `ParserBase.InlineSp` | lib/pegparse/parser_base.rb:44-50 | backtracks exactly when the space consumed changes the line number |
| `ParserBase.Lf` | lib/pegparse/parser_base.rb:65-71 | backtracks exactly when the space consumed does not change the line number |
| `ParserBase.InlineSpOrLf` | lib/pegparse/parser_base.rb:44-71 | unless `sp` raises, exactly one of `inline_sp` and `lf` backtracks |
| `ParserBase.Separative` | lib/pegparse/parser_base.rb:76-102 | never backtracks; `[]` at the same offset when the first item fails; otherwise exactly the list the body collects: the first item's value followed by the non-nil values of the `sep item` rounds |
| `ParserBase.PatternSeparatorAt` | lib/pegparse/parser_base.rb:80-84 | a pattern separator fails exactly when the pattern does not match after the leading spaces; otherwise it is the trailing `sp` after the read |
| `ParserBase.PatternSeparatorKeeps` | lib/pegparse/parser_base.rb:80-84 | the pattern separator keeps states valid and the rule stack |
| `ParserBase.SeparativeKeeps` | lib/pegparse/parser_base.rb:76-102 | with a separator and an item that keep states valid and the stack, so does `separative` |
| `ParserBase.SeparativeBody` | lib/pegparse/parser_base.rb:87-101 | a failing first item fails the body; otherwise the list is the first item's value followed by the values of the `separator item` rounds; when a trailing separator is allowed but absent, the offset stays after the last round |
| `ParserBase.StringLike` | lib/pegparse/parser_base.rb:110-135 | never empty; adjacent pieces are never both strings; strings are non-empty, or the result is `[""]`; a failing first normal read backtracks; without a special process, a non-empty normal read is the single piece |
| `ParserBase.StringLikeKeeps` | lib/pegparse/parser_base.rb:110-135 | with a special process that keeps states valid and the stack, so does `string_like` |
| `ParserBase.StringLikeSpells` | lib/pegparse/parser_base.rb:110-135 | what the literal spells (its characters, each non-String special value as one atom) is the normal read's text; then, unless the end pattern, the end of the text, a missing or nil-returning special process or the fuel bound stops the round, the special result in place (a String's characters joined to the text, any other value as one atom) followed by what the rest of the literal spells; a failing read, peek or special process fails the literal in its state |
| `ParserBase.LoopShifts` | lib/pegparse/parser_base.rb:113-128 | the loop started with finished pieces `ret` and pending text `str` keeps `ret` in front and spells `ret`, then `str`, then what the loop from nothing spells, ending in the same way and state |
| `ParserBase.SpellDetermines` | lib/pegparse/parser_base.rb:120-134 | two results whose strings are non-empty and never adjacent are equal when they spell the same, so the spelling and the shape fix the value |
| `ParserBase.FlushSpells` | lib/pegparse/parser_base.rb:122-125 | a non-String special value keeps the finished elements in front and spells the pending text, then the value |
| `ParserBase.FinishSpells` | lib/pegparse/parser_base.rb:128-134 | finishing keeps the finished elements in front and spells the pending text after them; with nothing finished or pending the result is `[""]` |
| `BiopRuleChain.NewChain` | lib/pegparse/biop_rule_chain.rb:21-26 | no operator levels and no term |
| `BiopRuleChain.DefaultConstruct` | lib/pegparse/biop_rule_chain.rb:29-31 | the node `[op, lhs, rhs]` reads back in order as lhs, op, rhs and nests one level deeper on the left than `lhs` |
| `BiopRuleChain.LeftOp` | lib/pegparse/biop_rule_chain.rb:71-74 | appends exactly one level, the converted matcher, after the existing ones |
| `BiopRuleChain.SetTerm` | lib/pegparse/biop_rule_chain.rb:78-81 | sets the term and changes nothing else |
| `BiopRuleChain.OperatorParser` | lib/pegparse/biop_rule_chain.rb:47-64 | a proc is used as it is; a string or regexp is `operator_sp` then `read`; an empty array always backtracks |
| `BiopRuleChain.ArrayMatcherIsOrderedChoice` | lib/pegparse/biop_rule_chain.rb:48-53 | an array is an ordered choice: the first element's non-nil value wins; when it yields nil or backtracks, the rest of the array is tried from where its rollback left; an exception propagates |
| `BiopRuleChain.TokenOperator` | lib/pegparse/biop_rule_chain.rb:57-62 | succeeds exactly when `read` after `operator_sp` does, with that text |
| `BiopRuleChain.Term` | lib/pegparse/biop_rule_chain.rb:85 | the term's own result; calling an unset term raises |
| `BiopRuleChain.Operand` | lib/pegparse/biop_rule_chain.rb:89-95 | when the operator choice fails, the round fails the same way and in the same state; otherwise, after `operand_sp`, it succeeds exactly when the right operand does, yielding `[op, rhs]` in the right operand's state |
| `BiopRuleChain.Match` | lib/pegparse/biop_rule_chain.rb:84-100 | past the last level, the term's result; otherwise it backtracks exactly when the left operand does; once the left operand succeeds, the result is the left fold of `construct_result` over the operand rounds, ending where the rounds end |
| `BiopRuleChain.StartRule` | lib/pegparse/biop_rule_chain.rb:103-105 | with no levels, the term itself |
| `BiopRuleChain.MatchBacktracksIffTermDoes` | lib/pegparse/biop_rule_chain.rb:84-100 | an expression fails exactly when its first term fails, since the operator loops never backtrack |
| `BiopRuleChain.FoldAppend` | lib/pegparse/biop_rule_chain.rb:97-99 | folding a concatenation is folding the second part onto the fold of the first |
| `BiopRuleChain.FoldKeepsInfixOrder` | lib/pegparse/biop_rule_chain.rb:29-31 | with `[op, lhs, rhs]` nodes, reading the tree in order gives the operands and operators in input order |
| `BiopRuleChain.FoldIsLeftAssociative` | lib/pegparse/biop_rule_chain.rb:97-99 | each round nests the tree one level deeper on the left |
| `HeredocRule.NewEntry` | lib/pegparse/basic_rules/heredoc_rule.rb:13-19 | a fresh entry is unprocessed with no value |
| `HeredocRule.ProcessContent` | lib/pegparse/basic_rules/heredoc_rule.rb:28-43 | the first call runs the matcher and caches its value (nil on failure); later calls replay the cache, failing on nil; the matcher ran exactly when the entry was not processed |
| `HeredocRule.FailureIsSticky` | lib/pegparse/basic_rules/heredoc_rule.rb:29-38 | after a failed matcher, every replay fails |
| `HeredocRule.ReplayGivesCachedContent` | lib/pegparse/basic_rules/heredoc_rule.rb:21-42 | a replay gives the newly registered setter the first content |
| `HeredocRule.Enqueue` | lib/pegparse/basic_rules/heredoc_rule.rb:80-90 | the waiting list stays strictly increasing; it gains exactly the new offset, or is unchanged if the offset was already there |
| `HeredocRule.FirstAtLeast` | lib/pegparse/basic_rules/heredoc_rule.rb:80 | the insertion index splits the waiting offsets into those below `pos` and those at or above it |
| `HeredocRule.ProcessedOnlyByDispatch` | lib/pegparse/basic_rules/heredoc_rule.rb:58-107 | `is_processed_memo?` never changes on registration; a dispatch that runs a matcher turns exactly that offset from unprocessed to processed |
| `HeredocRule.Register` | lib/pegparse/basic_rules/heredoc_rule.rb:66-91 | an existing offset only has its procs replaced; a new offset gets a fresh entry and joins the waiting list; other entries are untouched |
| `HeredocRule.DispatchLiveLf` | lib/pegparse/basic_rules/heredoc_rule.rb:93-107 | a no-op when the list is empty or its first offset is not before the newline; otherwise it removes and processes exactly the first entry; the set of known offsets is unchanged |
| `HeredocRule.HandleHeredoc` | lib/pegparse/basic_rules/heredoc_rule.rb:143-157 | always re-registers; replays the content only when the entry was already processed; never runs a matcher |
| `HeredocRule.RunProgress` | lib/pegparse/basic_rules/heredoc_rule.rb:93-107 | across any sequence of calls, known offsets stay known and processed entries stay processed; every matcher that ran belongs to an entry processed by then but not before |
| `HeredocRule.MatcherRunsAtMostOnce` | lib/pegparse/basic_rules/heredoc_rule.rb:28-43 | across any sequence of `handle_heredoc` and newline calls, no entry's matcher runs twice |
| `Scenarios.BestErrorsExample` | test/parser_errors_test.rb:10-20 | failures saved at 4, 5 and 5 leave `[{3, :something}, {5, :parse2}]` as the best error |
| `Scenarios.LineCounterExample` | test/line_counter_test.rb:10-15 | feeding `"abc\n  def\n"` at 0 and the overlapping fragment at 7 builds the expected line and indent tables |
| `Scenarios.ExampleQueries` | test/line_counter_test.rb:17-26 | on those tables, positions (0,0), (0,3), (1,0), (2,5) and indents 0, 2, 4, 6 at offsets 0, 4, 15 and 25 |
| `Scenarios.ChainFoldExample` | test/biop_rule_chain_test.rb:37 | folding the operand rounds of `1+2*3-4` with `construct_result` gives `['-', ['+', '1', ['*', '2', '3']], '4']` |
| `ChainExample.SumAt` | lib/pegparse/biop_rule_chain.rb:84-100 | on `1+2*3-4`, `match(0)` from offset 0 returns that tree and stops at offset 7, under any spacing hooks that match nothing in the text |
| `ChainExample.ArithExample` | test/biop_rule_chain_test.rb:28-37 | parsing `1+2*3-4` with ParserBase's spaces and comments yields `['-', ['+', '1', ['*', '2', '3']], '4']`, consumes the text and leaves no error |
| `CoreExample.DigitLoop` | lib/pegparse/parser_core.rb:188-196 | over a run of digits, `zero_or_more { read(/[0-9]/) }` collects each digit as its own string, in order, and stops where the run ends |
| `CoreExample.LoopExample` | test/parser_core_test.rb:12-22 | the loop on `'123a'` yields `['1', '2', '3']` and stops before the `a` |
| `CoreExample.ChoiceExample` | test/parser_core_test.rb:25-39 | on `'1122a'` the choice among `/0+/`, `/1+/`, `/2+/` gives `'11'`, then `'22'`, then backtracks |
| `CoreExample.NumberMiss` | test/parser_core_test.rb:42-69 | the number rule on `'xxx'` backtracks, and best_errors is `[[(0, 0), :test], [(0, 0), /[0-9]/]]` |

## Left out

- The Ruby Regexp engine and StringScanner: a regexp is an abstract matcher that returns a match length within the text. Only the patterns the core and the modelled tests use are given concrete matchers (character classes, runs of them, the rest of a line).
- The difference between characters and bytes: `memo` measures `str.size` but walks `each_byte`, so the text is taken to be single-byte.
- `block_comment`: it leaves a `zero_or_more` loop with `break`, a non-local exit. Comments are parameters of `_` instead. The chain example supplies it only as far as its first read of `/*` (`ChainExample.BlockCommentStart`); the text it parses holds no `/*`, so the rest of the rule never runs there.
- `deeper_sp`: it reads `@indent_stack`, which nothing initialises.
- `samples/` and the grammar modules under `basic_rules/`, apart from the here-document memo. They call `Pegparse::Parser` helpers (`memoize`, `bt_loop`, `regexp`, …) that are not part of this model.
- `HeredocRule#initialize` and `space_rule_live_lf_callback`, for the same reason. Their effect on the memo is `DispatchLiveLf`.
- Memoisation of rule results: the core has none.
- Dynamic class machinery: `alias_method`/`define_method` in `wrap_with_trace_method`, and `Class.new`/`class_exec` in `based_on`. They are plain higher-order wrappers here (`Rule`, a `Chain` value). Tracing output is not modelled.
- The ArgumentErrors for a bad call: `peek`/`optional` with both or neither of a pattern and a block, `get_operator_matcher` with an unsupported type, and `parse` without a scanner or rule. Each of these is a type error in the model and cannot be written.
- `parse`'s choice of the start rule and its construction of a context from a scanner. `Parse` takes the start rule and the state.
- Ruby `false`: folded into nil, since the modelled rules never return `false` itself.
- Procs of the here-document memo: a content matcher is represented by its outcome, and a setter by an identity. What the procs do to the parser is not modelled.
- `ZeroOrMore`: does not model a block that loops forever without consuming input. After `fuel` rounds it returns what it has, and `ZeroOrMoreFuelEnough` shows that a loop which stopped on its own needs no more.
- `OneOrMore`, `Space`, `Separative`, `StringLike`, `Match`: the same fuel bound as `ZeroOrMore`.
- The other concrete cases of the tests: the number rule on `'123'`, `'123.a'` and `'123.45'`, and the chain on `'1'`, `'1+2'` and `'1+2+3+4'`. They run the same operations as the stated cases, each needing its own step-by-step proof over the text; the general properties are `OneOrMoreOfTruthy`, `Match` and `FoldIsLeftAssociative`.
- The chain test that rolls back a failed trailing operator (`'A_?_B ?_C'`). It is an instance of `Optional`'s rollback.
