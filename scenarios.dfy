/** Concrete call sites, written as the parent chains and blocks the lint sees.
    The receiver is the local 7 throughout; the `if` condition has span 100. */
module Scenarios {
  import opened Hir
  import opened Guard
  import opened Scan
  import opened UnnecessaryIndexing
  import opened Rewrite

  const seqLocal: LocalId := 7

  /** `seq[n]` with a constant unsigned `n`. */
  function At(n: nat, span: Span): VisitedExpr
  {
    Index(Some(seqLocal), Some(U(n)), span)
  }

  function BlockBranch(visited: seq<VisitedExpr>, span: Span): Branch
  {
    Branch(BlockBody(Block(visited)), span)
  }

  /** The `if` condition is wrapped in `DropTemps`. */
  function Guarded(nots: nat, h: IfExpr): seq<Node>
  {
    Nots(nots) + [ExprNode(DropTemps), ExprNode(If(h))]
  }

  lemma GuardedSense(nots: nat, h: IfExpr)
    ensures EnclosingIf(Guarded(nots, h)) == Some(IfExprWithIsEmpty(h, nots % 2 == 0))
  {
    NegationParity(nots, [ExprNode(DropTemps)], h, []);
    assert Guarded(nots, h) == Nots(nots) + [ExprNode(DropTemps)] + [ExprNode(If(h))] + [];
  }

  /** `if seq.is_empty() { return; } else { use(seq[0]); }` lints, and the
      suggestion puts the old else-text first. */
  lemma ElseBranchWithZeroIndexLints()
    ensures
      var h := IfExpr(100, BlockBranch([NonIndex(20)], 1), Some(BlockBranch([NonIndex(21), At(0, 22)], 2)));
      && Lint("is_empty", Guarded(0, h), Some(seqLocal)) == Some(100)
      && MakeSuggestion(EnclosingIf(Guarded(0, h)).value, 0, map[0 := "seq", 1 := "{ return; }", 2 := "{ use(seq[0]); }"])
         == Some(Suggestion("let x = seq.first()", "{ use(seq[0]); }", "{ return; }"))
  {
    var h := IfExpr(100, BlockBranch([NonIndex(20)], 1), Some(BlockBranch([NonIndex(21), At(0, 22)], 2)));
    var vs := [NonIndex(21), At(0, 22)];
    assert vs[..1] == [NonIndex(21)];
    assert ZeroSpans(vs, Some(seqLocal)) == [22];
    assert Guarded(0, h) == [ExprNode(DropTemps), ExprNode(If(h))];
    GuardedSense(0, h);
    assert "let x = " + "seq" + ".first()" == "let x = seq.first()";
  }

  /** `if !seq.is_empty() { use(seq[0]); }` without an else still lints: the
      then-block is visited whether or not there is an else. There is no
      suggestion text, because `make_suggestion` needs the else-branch. */
  lemma MissingElseStillLints()
    ensures
      var h := IfExpr(100, BlockBranch([At(0, 22)], 1), None);
      && Lint("is_empty", Guarded(1, h), Some(seqLocal)) == Some(100)
      && MakeSuggestion(EnclosingIf(Guarded(1, h)).value, 0, map[]) == None
  {
  }

  /** `if seq.is_empty() { } else { use(seq[0]); use(seq[1]); }` does not lint:
      the scan stops at `seq[1]` with `seq[0]` recorded. */
  lemma NonzeroIndexStopsScan()
    ensures
      var h := IfExpr(100, BlockBranch([], 1), Some(BlockBranch([At(0, 22), At(1, 23)], 2)));
      && Lint("is_empty", Guarded(0, h), Some(seqLocal)) == None
      && SpansToReplace([At(0, 22), At(1, 23)], Some(seqLocal)) == [22]
  {
    var h := IfExpr(100, BlockBranch([], 1), Some(BlockBranch([At(0, 22), At(1, 23)], 2)));
    var vs := [At(0, 22), At(1, 23)];
    GuardedSense(0, h);
    assert FirstNonzero(vs, Some(seqLocal)) == 1 by {
      assert vs[1..] == [At(1, 23)];
    }
    assert vs[..1] == [At(0, 22)];
    assert ZeroSpans([At(0, 22)], Some(seqLocal)) == [22];
  }

  /** `if validate(seq.is_empty()) { .. }` does not lint: the ascent meets a call. */
  lemma CallArgumentDoesNotLint(h: IfExpr)
    ensures Lint("is_empty", [ExprNode(Call), ExprNode(DropTemps), ExprNode(If(h))], Some(seqLocal)) == None
  {
  }

  /** `if !!seq.is_empty() { use(seq[0]); } else {}` does not lint: two negations
      mean "is empty", so the empty else-block is scanned. */
  lemma DoubleNegationScansElse()
    ensures
      var h := IfExpr(100, BlockBranch([At(0, 22)], 1), Some(BlockBranch([], 2)));
      Lint("is_empty", Guarded(2, h), Some(seqLocal)) == None
  {
  }

  /** `if !seq.is_empty() { seq[0]; seq[i]; .. }` where the last index is one that
      constant folding returns as a signed `FullInt::S`, as on a container indexed
      by a signed type: an index that is not a known unsigned constant does not
      stop the scan, and the lint fires. */
  lemma UnknownIndexIsIgnored()
    ensures
      var vs := [At(0, 22), Index(Some(seqLocal), None, 23), Index(Some(seqLocal), Some(S(-1)), 24)];
      var h := IfExpr(100, BlockBranch(vs, 1), Some(BlockBranch([], 2)));
      Lint("is_empty", Guarded(1, h), Some(seqLocal)) == Some(100)
  {
    var vs := [At(0, 22), Index(Some(seqLocal), None, 23), Index(Some(seqLocal), Some(S(-1)), 24)];
    var h := IfExpr(100, BlockBranch(vs, 1), Some(BlockBranch([], 2)));
    GuardedSense(1, h);
    assert IsZeroAccess(vs[0], Some(seqLocal));
    assert forall i :: 0 <= i < |vs| ==> !IsNonzeroAccess(vs[i], Some(seqLocal));
    ShouldLintIff(vs, Some(seqLocal));
  }

  /** A method other than `is_empty` never lints. */
  lemma OtherMethodDoesNotLint(a: seq<Node>, recv: Option<LocalId>)
    ensures Lint("len", a, recv) == None
  {
  }

  /** `if seq.is_empty() && c {} else { use(seq[0]); }` lints: the ascent passes
      through the `&&`, its single `!`-free layer makes the condition mean "is
      empty", and the else-block is scanned. Yet with an empty `seq` and a false
      `c` the condition `true && false` is false and that else-block runs; the
      call alone does not decide the condition. The intended ascent gives up at
      the `&&`, so the corrected lint stays silent. */
  lemma ConjunctionGuardLints()
    ensures
      var h := IfExpr(100, BlockBranch([], 1), Some(BlockBranch([At(0, 22)], 2)));
      var a := [ExprNode(Other), ExprNode(DropTemps), ExprNode(If(h))];
      && Lint("is_empty", a, Some(seqLocal)) == Some(100)
      && SelectedBranch(EnclosingIf(a).value) == TakenBranch(h, true && false)
      && ChainValue(a[..2], true) == None
      && LintIntended("is_empty", a, Some(seqLocal)) == None
  {
    var h := IfExpr(100, BlockBranch([], 1), Some(BlockBranch([At(0, 22)], 2)));
    var a := [ExprNode(Other), ExprNode(DropTemps), ExprNode(If(h))];
    assert a[1..] == [ExprNode(DropTemps), ExprNode(If(h))];
    assert a[1..][1..] == [ExprNode(If(h))];
    assert ZeroSpans([At(0, 22)], Some(seqLocal)) == [22];
  }
}
