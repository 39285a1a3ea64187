/** `check`: the whole pipeline for one method call `receiver.method_name()`.
    The diagnostic is modelled by the span it is anchored at. */
module UnnecessaryIndexing {
  import opened Hir
  import opened Guard
  import opened Scan

  /** What `check` reports: the span of the `if` condition, or nothing. */
  function Lint(methodName: string, ancestors: seq<Node>, recv: Option<LocalId>): Option<Span>
  {
    if methodName != "is_empty" then None
    else
      match EnclosingIf(ancestors)
      case None => None
      case Some(g) =>
        match BlockToVisit(g)
        case None => None
        case Some(b) => if ShouldLint(b.visited, recv) then Some(g.higherIf.cond) else None
  }

  /** `check`, lines 67-111. */
  method Check(methodName: string, ancestors: seq<Node>, recv: Option<LocalId>) returns (diagnostic: Option<Span>)
    ensures diagnostic == Lint(methodName, ancestors, recv)
    ensures diagnostic.Some? ==> methodName == "is_empty"
  {
    if methodName != "is_empty" {
      return None;
    }
    var parentIf := GetHigherIf(ancestors);
    if parentIf.None? {
      return None;
    }
    var block := BlockToVisit(parentIf.value);
    if block.None? {
      return None;
    }
    var shouldLint, spansToReplace := ScanBlock(block.value, recv);
    if !shouldLint {
      return None;
    }
    return Some(parentIf.value.higherIf.cond);
  }

  /** The block has a `recv[0]` and no `recv[n]` with a known unsigned `n != 0`. */
  ghost predicate SafeBlock(b: Block, recv: Option<LocalId>)
  {
    && (exists i :: 0 <= i < |b.visited| && IsZeroAccess(b.visited[i], recv))
    && (forall i :: 0 <= i < |b.visited| ==> !IsNonzeroAccess(b.visited[i], recv))
  }

  /** The `if` at position `k` of the parent chain is the nearest one reached
      through transparent ancestors, and the branch picked by the parity of the
      `!` layers below it (the branch a condition of only `!` layers around a
      false `is_empty()` would take) is a block that is safe to rewrite. */
  ghost predicate LintableAt(a: seq<Node>, k: int, recv: Option<LocalId>)
  {
    && GuardAt(a, k)
    && var branch := BlockOf(TakenBranch(a[k].kind.higherIf, Negated(NotCount(a[..k]), false)));
       branch.Some? && SafeBlock(branch.value, recv)
  }

  /** `check` reports exactly for `is_empty` calls whose nearest `if` has, as
      the branch picked by the parity of the `!` layers below it, a safe block,
      and it anchors the report at that `if`'s condition. */
  lemma LintIff(m: string, a: seq<Node>, recv: Option<LocalId>)
    ensures Lint(m, a, recv).Some? <==> m == "is_empty" && exists k :: LintableAt(a, k, recv)
    ensures forall k :: m == "is_empty" && LintableAt(a, k, recv) ==>
      Lint(m, a, recv) == Some(a[k].kind.higherIf.cond)
  {
    EnclosingIfCharacterized(a);
    if exists k :: GuardAt(a, k) {
      var k :| GuardAt(a, k);
      var h := a[k].kind.higherIf;
      var n := NotCount(a[..k]);
      VisitedBranchRunsWhenNonEmpty(h, n);
      var b := BlockToVisit(NewWithNotOpCount(h, n));
      if b.Some? {
        ShouldLintIff(b.value.visited, recv);
      }
      assert LintableAt(a, k, recv) <==> b.Some? && ShouldLint(b.value.visited, recv);
      forall k' | GuardAt(a, k') ensures k' == k {
        GuardUnique(a, k, k');
      }
    }
  }

  // ---------------------------------------------------------------------------
  // The lint with the intended ascent.

  /** `check` with an ascent that gives up at operators such as `&&`. */
  function LintIntended(methodName: string, ancestors: seq<Node>, recv: Option<LocalId>): Option<Span>
  {
    if methodName != "is_empty" then None
    else
      match EnclosingIfIntended(ancestors)
      case None => None
      case Some(g) =>
        match BlockToVisit(g)
        case None => None
        case Some(b) => if ShouldLint(b.visited, recv) then Some(g.higherIf.cond) else None
  }

  /** The `if` at position `k` is reached through `!` and `DropTemps` only, so
      its condition follows from `is_empty()` alone and differs between an empty
      and a non-empty receiver, and the branch it runs on a non-empty receiver
      is a safe block. */
  ghost predicate IntendedLintableAt(a: seq<Node>, k: int, recv: Option<LocalId>)
  {
    && GuardAtIntended(a, k)
    && ChainValue(a[..k], false).Some?
    && ChainValue(a[..k], true) == Some(!ChainValue(a[..k], false).value)
    && var branch := BlockOf(TakenBranch(a[k].kind.higherIf, ChainValue(a[..k], false).value));
       branch.Some? && SafeBlock(branch.value, recv)
  }

  /** The corrected lint reports exactly when the branch that runs on a
      non-empty receiver, and only on one, is safe to rewrite. */
  lemma LintIntendedIff(m: string, a: seq<Node>, recv: Option<LocalId>)
    ensures LintIntended(m, a, recv).Some? <==> m == "is_empty" && exists k :: IntendedLintableAt(a, k, recv)
    ensures forall k :: m == "is_empty" && IntendedLintableAt(a, k, recv) ==>
      LintIntended(m, a, recv) == Some(a[k].kind.higherIf.cond)
  {
    EnclosingIfIntendedSound(a);
    if exists k :: GuardAtIntended(a, k) {
      var k :| GuardAtIntended(a, k);
      var b := BlockToVisit(EnclosingIfIntended(a).value);
      if b.Some? {
        ShouldLintIff(b.value.visited, recv);
      }
      assert IntendedLintableAt(a, k, recv) <==> b.Some? && ShouldLint(b.value.visited, recv);
      forall k' | GuardAtIntended(a, k') ensures k' == k {
        GuardUnique(a, k, k');
      }
    }
  }

  /** The corrected lint reports a subset of what `check` reports, at the same span. */
  lemma LintIntendedImpliesLint(m: string, a: seq<Node>, recv: Option<LocalId>)
    requires LintIntended(m, a, recv).Some?
    ensures Lint(m, a, recv) == LintIntended(m, a, recv)
  {
    IntendedRefinesAscent(a);
  }
}
