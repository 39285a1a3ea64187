# unnecessary_indexing, modelled in Dafny

This project models the `unnecessary_indexing` lint of Clippy
(`clippy_lints/src/methods/unnecessary_indexing.rs`). The lint looks at a call
`seq.is_empty()` inside the condition of an `if`. It counts the `!` layers
between the call and the `if` and picks a branch by their parity: the
else-branch for an even count, the then-branch for an odd one. If that branch
reads `seq[0]` and never reads `seq[n]` for a known unsigned `n != 0`, the lint
reports at the `if` condition. It would then suggest `if let … = seq.first()`.

The lint has three parts, and each becomes one module:

- `Guard` (`guard.dfy`) resolves the guard. `get_higher_if` walks up the parent
  chain, counts `!` layers, and stops at the first `if`. It gives up at a call,
  a method call, or a node that is not an expression. `new_with_not_op_count`
  turns the parity of the count into `if_is_empty`. `block_to_visit` picks the
  branch to scan. `GetHigherIf` is the loop of the source, proved equal to the
  recursive function `EnclosingIf`. Lemmas then say what `EnclosingIf`
  computes: the nearest `if` reached through transparent ancestors, with the
  number of `!` layers below it. They also prove that the parity picks the
  branch a condition made of `!` layers alone would take on a non-empty receiver
  (`Negated`, `TakenBranch`).
- `Scan` (`scan.dfy`) models the visitor closure inside `check`. `ScanBlock` is
  a loop over the visited expressions. Like the closure, it updates
  `should_lint` and `spans_to_replace` and returns at the first nonzero index.
  It is proved against `ShouldLint` and `SpansToReplace`. Lemmas say what these
  mean: exactly when the lint fires, which spans are recorded, and which
  expressions leave the state unchanged.
- `Rewrite` (`suggestion.dfy`) models `make_suggestion` and the
  `str::replace` it calls. `Replace` is specified by two lemmas that together
  fix it: "no occurrence, no change" and "the leftmost occurrence is replaced".
- `UnnecessaryIndexing` (`lint.dfy`) puts the parts together. `Check` is
  proved equal to `Lint`. `LintIff` says when `check` reports and where.
- `Hir` (`hir.dfy`) holds the data the compiler services would supply.
- `Scenarios` (`scenarios.dfy`) works through concrete call sites.

The compiler services are modelled as data:

- The parent chain from `parent_iter` is a `seq<Node>`. The ascent tells apart
  `if`, `!`, `DropTemps` (the wrapper lowering puts around every `if`
  condition), calls, method calls and every other expression kind.
- `higher::If::hir` is the `If` expression kind.
- `path_to_local` is an `Option<LocalId>`.
- `consts::constant_full_int` is an `Option<FullInt>`, where `FullInt` is either
  `U` (unsigned) or `S` (signed).
- `for_each_expr_with_closures` becomes the block's visited expressions in
  visiting order. Closure bodies are included.
- `snippet_with_applicability` is a map from spans to source text, with the
  same fallback texts as the source: `"_"` for the receiver and `".."` for a
  branch.
- Spans are opaque numbers.

Facts about the code that shape the model. The first four are each shown by a
lemma in `Scenarios`:

- `block_to_visit` returns the then-block whether or not there is an else
  (lines 59-63), so `if !v.is_empty() { v[0]; }` lints
  (`MissingElseStillLints`).
- The closure only acts on an index whose base and receiver resolve to the same
  local and whose index folds to an unsigned constant `FullInt::U` (lines
  79-83). Every other index, including one that is not a constant and one that
  folds to a signed `FullInt::S`, is skipped (`UnknownIndexIsIgnored`).
- At a nonzero index the closure sets `should_lint` to false and breaks, but it
  does not clear `spans_to_replace` (lines 88-91). The spans of the `recv[0]`
  seen before the break stay recorded (`NonzeroIndexStopsScan`).
- `get_higher_if` counts a `!` and passes through every expression kind other
  than an `if`, a call and a method call without looking at it (line 127). This
  includes `DropTemps` and also binary operators such as `&&`, `||` and `==`. So the branch picked by the
  parity of the `!` layers can be one that also runs on an empty receiver:
  `if v.is_empty() && c {} else { v[0] }` lints, yet its else-block runs when
  `v` is empty and `c` is false (`ConjunctionGuardLints`, and the findings
  below).

`make_suggestion` is never called from `check`. It is modelled on its own.

## Model

| member | source | states |
|---|---|---|
| `Guard.BlockToVisit` | clippy_lints/src/methods/unnecessary_indexing.rs:48-64 | When `if_is_empty` holds, the result is the else-block, and it is absent if there is no else or the else is not a block expression. Otherwise the result is the then-block, and it is absent if the then is not a block expression. |
| `Guard.VisitedBranchRunsWhenNonEmpty` | clippy_lints/src/methods/unnecessary_indexing.rs:26-64 | After `k` negations, the branch picked from the parity of `k` is the branch the `if` runs when `is_empty()` returned false. |
| `Guard.NegatedParity` | clippy_lints/src/methods/unnecessary_indexing.rs:29 | `k` negations of a boolean `v` give `v` when `k` is even and `!v` when it is odd. |
| `Guard.GetHigherIf` | clippy_lints/src/methods/unnecessary_indexing.rs:113-131 | The ancestor loop, with its mutable `!` counter, returns what `EnclosingIf` defines. |
| `Guard.EnclosingIfCharacterized` | clippy_lints/src/methods/unnecessary_indexing.rs:113-131 | There is a result exactly when an `if` is reached through `!` and other plain expressions only. The result is that `if`, with `if_is_empty` given by the parity of the `!` layers below it. |
| `Guard.AscendFinds` | clippy_lints/src/methods/unnecessary_indexing.rs:116-124 | Started with count `c`, the walk returns the `if` at the guard position, with count `c` plus the `!` layers before it. |
| `Guard.AscendFails` | clippy_lints/src/methods/unnecessary_indexing.rs:116-130 | With no `if` reachable through transparent ancestors, the walk returns none, whatever count it started with. |
| `Guard.GuardUnique` | clippy_lints/src/methods/unnecessary_indexing.rs:119-120 | The walk returns the nearest `if`: at most one position qualifies. |
| `Guard.AscentBlocked` | clippy_lints/src/methods/unnecessary_indexing.rs:117-126 | A non-expression node, a call or a method call before any `if` makes the walk return none. |
| `Guard.AscentExhausted` | clippy_lints/src/methods/unnecessary_indexing.rs:129-130 | If the ancestors run out without an `if`, the walk returns none. |
| `Guard.NegationParity` | clippy_lints/src/methods/unnecessary_indexing.rs:26-31 | With `k` `!` layers around the call and plain wrappers such as `DropTemps` above them, `if_is_empty` holds exactly when `k` is even. |
| `Guard.ChainValueNegated` | clippy_lints/src/methods/unnecessary_indexing.rs:123-127 | The `is_empty()` result alone decides the condition exactly when every layer below the `if` is `!` or `DropTemps`. The value is then the result negated once per `!`. |
| `Guard.EnclosingIfIntendedSound` | clippy_lints/src/methods/unnecessary_indexing.rs:113-131 | The corrected ascent finds an `if` exactly when one is reached through `!` and `DropTemps` only. Its condition then takes opposite values on an empty and a non-empty receiver, and the picked branch is the one a non-empty receiver runs. |
| `Guard.IntendedAgreesWithoutOperators` | clippy_lints/src/methods/unnecessary_indexing.rs:113-131 | With no ancestor of an operator kind such as `&&` (the `Other` kind), the corrected ascent and the code's ascent give the same result. |
| `Guard.IntendedRefinesAscent` | clippy_lints/src/methods/unnecessary_indexing.rs:113-131 | Whenever the corrected ascent finds an `if`, the code's ascent finds the same one with the same sense. |
| `Guard.NotLayerFlipsSense` | clippy_lints/src/methods/unnecessary_indexing.rs:124 | One more `!` ancestor flips `if_is_empty` and changes nothing else about the result. |
| `Scan.FirstNonzero` | clippy_lints/src/methods/unnecessary_indexing.rs:88-91 | The scan stops at the first index on the receiver with a known unsigned value other than zero, or at the end. No such index comes before the stop. |
| `Scan.ZeroSpans` | clippy_lints/src/methods/unnecessary_indexing.rs:85-87 | The recorded spans are empty exactly when there is no `recv[0]`. There are never more spans than expressions. |
| `Scan.ScanBlock` | clippy_lints/src/methods/unnecessary_indexing.rs:72-97 | The loop with early return leaves `should_lint` and `spans_to_replace` equal to `ShouldLint` and `SpansToReplace` of the block. |
| `Scan.ShouldLintIff` | clippy_lints/src/methods/unnecessary_indexing.rs:79-91 | `should_lint` ends true exactly when the block has a `recv[0]` and no `recv[n]` with a known unsigned `n != 0`. |
| `Scan.ShouldLintOnlyZero` | clippy_lints/src/methods/unnecessary_indexing.rs:79-91 | When the lint fires, every index on the receiver with a known unsigned value uses 0. |
| `Scan.NoZeroAccessNoLint` | clippy_lints/src/methods/unnecessary_indexing.rs:85-91 | A block with no `recv[0]` left, such as one already rewritten, never lints and records no span. |
| `Scan.ZeroSpansAppend` | clippy_lints/src/methods/unnecessary_indexing.rs:87 | The spans recorded for two pieces of a block, one after the other, are the spans of each piece in order. |
| `Scan.FirstNonzeroAppend` | clippy_lints/src/methods/unnecessary_indexing.rs:88-91 | In two joined pieces, the scan stops in the first piece if it stops there, and otherwise at the stop of the second piece. |
| `Scan.IgnoredKeepsShouldLint` | clippy_lints/src/methods/unnecessary_indexing.rs:79-83 | Inserting an ignored expression anywhere does not change `should_lint`. Ignored means: not an index, an index on another local, on a base or receiver that is not a local path, or with an index that is not a known unsigned constant. |
| `Scan.IgnoredKeepsSpansToReplace` | clippy_lints/src/methods/unnecessary_indexing.rs:79-83 | Inserting such an ignored expression does not change `spans_to_replace`. |
| `Scan.ZeroSpansAreZeroAccesses` | clippy_lints/src/methods/unnecessary_indexing.rs:85-87 | Each recorded span belongs to a `recv[0]`, and each `recv[0]` has its span recorded. Applied to the part before the stop, this is `spans_to_replace`. |
| `UnnecessaryIndexing.Check` | clippy_lints/src/methods/unnecessary_indexing.rs:67-110 | `check` reports, at the span `Lint` gives, only for `is_empty`. |
| `UnnecessaryIndexing.LintIff` | clippy_lints/src/methods/unnecessary_indexing.rs:67-106 | A report happens exactly when the method is `is_empty`, the nearest `if` is reached through transparent ancestors, and the branch picked by the parity of the `!` layers below it is a block with a `recv[0]` and no `recv[n]` with a known unsigned `n != 0`. The report is anchored at that `if`'s condition. |
| `UnnecessaryIndexing.LintIntendedIff` | clippy_lints/src/methods/unnecessary_indexing.rs:67-131 | With the corrected ascent, a report happens exactly when the method is `is_empty`, an `if` is reached through `!` and `DropTemps` only, its condition takes opposite values on an empty and a non-empty receiver, and the branch that runs on a non-empty receiver is a safe block. The report is anchored at that `if`'s condition. |
| `UnnecessaryIndexing.LintIntendedImpliesLint` | clippy_lints/src/methods/unnecessary_indexing.rs:67-131 | Whenever the corrected lint reports, `check` reports the same span. |
| `Rewrite.ReplaceAbsent` | clippy_lints/src/methods/unnecessary_indexing.rs:154-155 | `replace` leaves a text with no occurrence of the pattern unchanged. |
| `Rewrite.ReplaceLeftmost` | clippy_lints/src/methods/unnecessary_indexing.rs:154-155 | `replace` turns the leftmost occurrence into the replacement and goes on after it, so matches never overlap. |
| `Rewrite.SuggestionShape` | clippy_lints/src/methods/unnecessary_indexing.rs:143-160 | There is a suggestion exactly when the `if` has an else. Its condition is always `let x = <caller>.first()`. |
| `Rewrite.SuggestionBranches` | clippy_lints/src/methods/unnecessary_indexing.rs:147-158 | The new then-text comes from the branch the scan visits and the new else-text from the other branch. For `is_empty` they are swapped and unaltered. Otherwise they keep their order, and `caller[0]` becomes `x` in the then-text. |
| `Rewrite.SuggestionUnchangedWithoutIndex` | clippy_lints/src/methods/unnecessary_indexing.rs:152-157 | In the unswapped case, a then-text with no `caller[0]` comes out as it went in, and so does the else-text. |
| `Rewrite.SwappedBranchKeepsIndex` | clippy_lints/src/methods/unnecessary_indexing.rs:147-151 | For `if v.is_empty() {} else { v[0] }` the new then-text is `{ v[0] }`. The intended version gives `{ x }`. |
| `Rewrite.ConditionIsIrrefutable` | clippy_lints/src/methods/unnecessary_indexing.rs:143 | The condition text never binds through `Some(..)`. |
| `Rewrite.IntendedRewritesVisitedBranch` | clippy_lints/src/methods/unnecessary_indexing.rs:133-161 | The corrected suggestion, in both orders: the new then-text is the visited branch with `caller[0]` replaced by `x`, the new else-text is the other branch unaltered, and the condition is `let Some(x) = <caller>.first()`. |
| `Rewrite.IntendedAgreesWhenUnswapped` | clippy_lints/src/methods/unnecessary_indexing.rs:152-157 | When the branches are not swapped, the corrected and the as-written suggestions have the same branch texts. |
| `Scenarios.GuardedSense` | clippy_lints/src/methods/unnecessary_indexing.rs:113-124 | Under the `DropTemps` wrapper, `n` negations give `if_is_empty` exactly when `n` is even. |
| `Scenarios.ElseBranchWithZeroIndexLints` | clippy_lints/src/methods/unnecessary_indexing.rs:67-110 | `if seq.is_empty() { return; } else { use(seq[0]); }` lints at the condition. The suggestion puts the old else-text first. |
| `Scenarios.MissingElseStillLints` | clippy_lints/src/methods/unnecessary_indexing.rs:59-63 | `if !seq.is_empty() { use(seq[0]); }` lints, but gives no suggestion text. |
| `Scenarios.NonzeroIndexStopsScan` | clippy_lints/src/methods/unnecessary_indexing.rs:85-91 | `seq[0]` followed by `seq[1]` does not lint. `spans_to_replace` keeps the span of `seq[0]`. |
| `Scenarios.CallArgumentDoesNotLint` | clippy_lints/src/methods/unnecessary_indexing.rs:126 | `if validate(seq.is_empty())` does not lint. |
| `Scenarios.DoubleNegationScansElse` | clippy_lints/src/methods/unnecessary_indexing.rs:29 | `if !!seq.is_empty() { use(seq[0]); } else {}` scans the empty else-block and does not lint. |
| `Scenarios.UnknownIndexIsIgnored` | clippy_lints/src/methods/unnecessary_indexing.rs:79-83 | Beside a `seq[0]`, an index that is not a known constant, or that is a signed constant, does not stop the lint. |
| `Scenarios.ConjunctionGuardLints` | clippy_lints/src/methods/unnecessary_indexing.rs:123-127 | `if seq.is_empty() && c {} else { use(seq[0]); }` lints and scans the else-block. That block is the branch taken when the condition is `true && false`, that is on an empty `seq` with a false `c`. The call alone does not decide the condition, and the corrected lint does not report. |
| `Scenarios.OtherMethodDoesNotLint` | clippy_lints/src/methods/unnecessary_indexing.rs:68 | A method other than `is_empty` never lints. |

## Findings

| source | as written | input that shows it | evidently intended | confidence | as-written member | corrected member |
|---|---|---|---|---|---|---|
| clippy_lints/src/methods/unnecessary_indexing.rs:147-151 | When the test was `is_empty`, the branches are swapped and the new then-text gets no `caller[0]` replacement. | `if v.is_empty() {} else { v[0] }` gives the then-text `{ v[0] }` | The then-text `{ x }`. The doc comment at line 135 says both texts have the index replaced. | medium, not executed | `Rewrite.SwappedBranchKeepsIndex` | `Rewrite.MakeSuggestionIntended` (property: `Rewrite.IntendedRewritesVisitedBranch`) |
| clippy_lints/src/methods/unnecessary_indexing.rs:123-127 | The ascent counts `!` and passes through every other expression kind except `if`, call and method call. This includes `&&`, `||` and `==`, whose value also depends on another operand. The branch picked by the `!` parity can then also run on an empty receiver. | `if v.is_empty() && c {} else { v[0] }` lints, and with `v` empty and `c` false its else-block runs | The ascent gives up at such operators, as it does at calls (lines 125-126). It passes only `!` and `DropTemps`, so the condition is decided by `is_empty()` alone. | medium, not executed | `Scenarios.ConjunctionGuardLints` | `Guard.EnclosingIfIntended` and `UnnecessaryIndexing.LintIntended` (properties: `Guard.EnclosingIfIntendedSound`, `UnnecessaryIndexing.LintIntendedIff`) |
| clippy_lints/src/methods/unnecessary_indexing.rs:143 | The condition text is `let x = <caller>.first()`. This is an irrefutable pattern that binds the `Option`, so the new then-branch would also run on an empty receiver. | any receiver, e.g. `v`: `let x = v.first()` | `let Some(x) = v.first()`, the "if-let pattern with `.first()`" of the lint's message | medium, not executed | `Rewrite.ConditionIsIrrefutable` | `Rewrite.MakeSuggestionIntended` (property: `Rewrite.IntendedRewritesVisitedBranch`) |

`make_suggestion` is not called from `check`, so no other part of the model
uses either version of it. `Check` models `check` as written, with the code's
ascent. The corrected ascent is used by `LintIntended`, which gives the lint's
behaviour with the fix.

## Left out

- The diagnostic itself is left out: `span_lint_and_then`, the lint
  declaration `UNNECESSARY_INDEXING`, the message text and the empty closure
  at line 108. A report is modelled as the span it is anchored at.
- `Applicability` and the `&mut app` threading through
  `snippet_with_applicability` are dropped. Only the snippet text, or its
  fallback, is kept.
- The compiler services are modelled as data, as described above:
  `LateContext`, `typeck_results`, `constant_full_int`, `path_to_local`,
  `parent_iter`, `higher::If::hir` and `for_each_expr_with_closures`. How
  they compute their answers is not modelled.
- `Guard.GetHigherIf`: `not_op_count` is a `u32` in the source and a `nat`
  here. Wrap-around would keep the parity, since 2^32 is even. A debug-build
  overflow panic would need 2^32 nested `!` and is not modelled.
- `FullInt::U` holds a `u128` and is a `nat` here. Only whether it is zero
  matters.
- `spans_to_replace` is computed and proved, but `check` never uses it after
  the scan, so it reaches no output.
- `tests/ui/arithmetic_side_effects_no_std.rs` is a compile fixture for a
  different lint. It has no logic to model.
