/** Guard resolution: from the parent chain of an `is_empty()` call, find the
    nearest enclosing `if`, count the `!` layers passed on the way up, and pick
    the branch the parity of that count selects. */
module Guard {
  import opened Hir

  /** An `if` whose condition wraps the `is_empty()` call. `ifIsEmpty` is true
      when the condition, as the `if` sees it, means "is empty"
      (`if x.is_empty()`, `if !!x.is_empty()`), false when it means "is not empty". */
  datatype IfExprWithIsEmpty = IfExprWithIsEmpty(higherIf: IfExpr, ifIsEmpty: bool)

  /** `IfExprWithIsEmpty::new_with_not_op_count`. */
  function NewWithNotOpCount(higherIf: IfExpr, notOpCount: nat): IfExprWithIsEmpty
  {
    IfExprWithIsEmpty(higherIf, notOpCount % 2 == 0)
  }

  /** The branch expression that `block_to_visit` looks into: the else-expression
      (possibly absent) when the condition means "is empty", the then-expression otherwise. */
  function SelectedBranch(g: IfExprWithIsEmpty): Option<Branch>
  {
    if g.ifIsEmpty then g.higherIf.els else Some(g.higherIf.thn)
  }

  /** The block of an optional branch expression, if it is an `ExprKind::Block`. */
  function BlockOf(b: Option<Branch>): Option<Block>
  {
    match b
    case Some(Branch(BlockBody(blk), _)) => Some(blk)
    case _ => None
  }

  /** `IfExprWithIsEmpty::block_to_visit`. */
  function BlockToVisit(g: IfExprWithIsEmpty): (r: Option<Block>)
    ensures g.ifIsEmpty ==>
      (r.Some? <==> g.higherIf.els.Some? && g.higherIf.els.value.kind.BlockBody?)
    ensures !g.ifIsEmpty ==> (r.Some? <==> g.higherIf.thn.kind.BlockBody?)
    ensures r.Some? && g.ifIsEmpty ==> r.value == g.higherIf.els.value.kind.block
    ensures r.Some? && !g.ifIsEmpty ==> r.value == g.higherIf.thn.kind.block
  {
    BlockOf(SelectedBranch(g))
  }

  // ---------------------------------------------------------------------------
  // The meaning of the parity: the branch an `if` runs.

  /** The value of the condition `!…!recv.is_empty()` with `k` negations, when
      `recv.is_empty()` evaluates to `v`. */
  function Negated(k: nat, v: bool): bool
  {
    if k == 0 then v else !Negated(k - 1, v)
  }

  /** The branch expression an `if` runs when its condition evaluates to `c`. */
  function TakenBranch(h: IfExpr, c: bool): Option<Branch>
  {
    if c then Some(h.thn) else h.els
  }

  lemma {:induction false} NegatedParity(k: nat, v: bool)
    ensures Negated(k, v) == (if k % 2 == 0 then v else !v)
  {
    if k > 0 {
      NegatedParity(k - 1, v);
    }
  }

  /** The branch chosen from the parity of `k` is exactly the branch the `if`
      runs when its condition is `k` negations of an `is_empty()` that returned
      false, i.e. when the receiver is not empty. */
  lemma VisitedBranchRunsWhenNonEmpty(h: IfExpr, k: nat)
    ensures SelectedBranch(NewWithNotOpCount(h, k)) == TakenBranch(h, Negated(k, false))
    ensures BlockToVisit(NewWithNotOpCount(h, k)) == BlockOf(TakenBranch(h, Negated(k, false)))
  {
  }

  // ---------------------------------------------------------------------------
  // The ascent.

  predicate IsIf(n: Node)
  {
    n.ExprNode? && n.kind.If?
  }

  /** Ancestors the ascent passes through: `!`, `DropTemps` and every other
      expression kind that is neither an `if`, a call nor a method call. */
  predicate Transparent(n: Node)
  {
    n.ExprNode? && (n.kind.Not? || n.kind.DropTemps? || n.kind.Other?)
  }

  /** Ancestors that end the ascent without a result. */
  predicate Blocks(n: Node)
  {
    n.OtherNode? || n.kind.MethodCall? || n.kind.Call?
  }

  function NotCount(s: seq<Node>): nat
  {
    if s == [] then 0
    else (if s[0] == ExprNode(Not) then 1 else 0) + NotCount(s[1..])
  }

  /** `k` is the position of the nearest enclosing `if`, reached through transparent ancestors only. */
  ghost predicate GuardAt(a: seq<Node>, k: int)
  {
    0 <= k < |a| && IsIf(a[k]) && forall j :: 0 <= j < k ==> Transparent(a[j])
  }

  /** The loop of `get_higher_if`, from a point where `notOpCount` negations have been passed. */
  function Ascend(ancestors: seq<Node>, notOpCount: nat): Option<IfExprWithIsEmpty>
    decreases |ancestors|
  {
    if ancestors == [] then None
    else
      match ancestors[0]
      case OtherNode => None
      case ExprNode(kind) =>
        match kind
        case If(h) => Some(NewWithNotOpCount(h, notOpCount))
        case Not => Ascend(ancestors[1..], notOpCount + 1)
        case DropTemps => Ascend(ancestors[1..], notOpCount)
        case MethodCall => None
        case Call => None
        case Other => Ascend(ancestors[1..], notOpCount)
  }

  /** `get_higher_if`, as a function of the parent chain. */
  function EnclosingIf(ancestors: seq<Node>): Option<IfExprWithIsEmpty>
  {
    Ascend(ancestors, 0)
  }

  /** `get_higher_if`: walk the parents, counting `!` layers, until an `if` is
      found or the walk must give up. */
  method GetHigherIf(ancestors: seq<Node>) returns (r: Option<IfExprWithIsEmpty>)
    ensures r == EnclosingIf(ancestors)
  {
    var notOpCount: nat := 0;
    var i := 0;
    while i < |ancestors|
      invariant 0 <= i <= |ancestors|
      invariant Ascend(ancestors[i..], notOpCount) == EnclosingIf(ancestors)
    {
      var node := ancestors[i];
      assert ancestors[i..][1..] == ancestors[i + 1..];
      if node.OtherNode? {
        return None;
      }
      if node.kind.If? {
        return Some(NewWithNotOpCount(node.kind.higherIf, notOpCount));
      }
      match node.kind {
        case Not => notOpCount := notOpCount + 1;
        case MethodCall => return None;
        case Call => return None;
        case _ =>
      }
      i := i + 1;
    }
    return None;
  }

  lemma {:induction false} AscendFinds(a: seq<Node>, c: nat, k: int)
    requires GuardAt(a, k)
    ensures Ascend(a, c) == Some(NewWithNotOpCount(a[k].kind.higherIf, c + NotCount(a[..k])))
  {
    if k > 0 {
      var c' := if a[0] == ExprNode(Not) then c + 1 else c;
      assert GuardAt(a[1..], k - 1) by {
        forall j | 0 <= j < k - 1 ensures Transparent(a[1..][j]) {
          assert Transparent(a[j + 1]);
        }
      }
      AscendFinds(a[1..], c', k - 1);
      assert a[..k][1..] == a[1..][..k - 1];
      assert a[..k][0] == a[0];
    }
  }

  lemma GuardShift(a: seq<Node>)
    requires a != [] && Transparent(a[0])
    ensures forall k :: GuardAt(a[1..], k) ==> GuardAt(a, k + 1)
  {
  }

  lemma {:induction false} AscendFails(a: seq<Node>, c: nat)
    requires forall k :: !GuardAt(a, k)
    ensures Ascend(a, c) == None
    decreases |a|
  {
    if a != [] {
      if IsIf(a[0]) {
        assert GuardAt(a, 0);
      } else if Transparent(a[0]) {
        GuardShift(a);
        AscendFails(a[1..], if a[0] == ExprNode(Not) then c + 1 else c);
      }
    }
  }

  /** `get_higher_if` succeeds exactly when an `if` is reached through
      transparent ancestors, and then carries the number of `!` layers below it. */
  lemma EnclosingIfCharacterized(a: seq<Node>)
    ensures EnclosingIf(a).Some? <==> exists k :: GuardAt(a, k)
    ensures forall k :: GuardAt(a, k) ==>
      EnclosingIf(a) == Some(NewWithNotOpCount(a[k].kind.higherIf, NotCount(a[..k])))
  {
    if exists k :: GuardAt(a, k) {
      var k :| GuardAt(a, k);
      AscendFinds(a, 0, k);
      forall k' | GuardAt(a, k')
        ensures EnclosingIf(a) == Some(NewWithNotOpCount(a[k'].kind.higherIf, NotCount(a[..k'])))
      {
        AscendFinds(a, 0, k');
      }
    } else {
      AscendFails(a, 0);
    }
  }

  /** There is at most one nearest enclosing `if`. */
  lemma GuardUnique(a: seq<Node>, k: int, k': int)
    requires GuardAt(a, k) && GuardAt(a, k')
    ensures k == k'
  {
  }

  /** A call, a method call or a non-expression node met before any `if` ends
      the ascent with no result. */
  lemma {:induction false} AscentBlocked(a: seq<Node>, j: int)
    requires 0 <= j < |a| && Blocks(a[j])
    requires forall i :: 0 <= i < j ==> !IsIf(a[i])
    ensures EnclosingIf(a) == None
  {
    EnclosingIfCharacterized(a);
    assert !Transparent(a[j]) && !IsIf(a[j]);
  }

  /** Running out of ancestors without meeting an `if` gives no result. */
  lemma {:induction false} AscentExhausted(a: seq<Node>)
    requires forall i :: 0 <= i < |a| ==> !IsIf(a[i])
    ensures EnclosingIf(a) == None
  {
    EnclosingIfCharacterized(a);
  }

  function Nots(k: nat): (s: seq<Node>)
    ensures |s| == k && forall i :: 0 <= i < k ==> s[i] == ExprNode(Not)
  {
    seq(k, _ => ExprNode(Not))
  }

  lemma {:induction false} NotCountNots(k: nat)
    ensures NotCount(Nots(k)) == k
  {
    if k > 0 {
      assert Nots(k)[1..] == Nots(k - 1);
      NotCountNots(k - 1);
    }
  }

  lemma {:induction false} NotCountAppend(a: seq<Node>, b: seq<Node>)
    ensures NotCount(a + b) == NotCount(a) + NotCount(b)
  {
    if a != [] {
      assert (a + b)[0] == a[0] && (a + b)[1..] == a[1..] + b;
      NotCountAppend(a[1..], b);
    } else {
      assert a + b == b;
    }
  }

  lemma {:induction false} NotCountWrappers(ws: seq<Node>)
    requires forall i :: 0 <= i < |ws| ==> ws[i] == ExprNode(DropTemps)
    ensures NotCount(ws) == 0
  {
    if ws != [] {
      NotCountWrappers(ws[1..]);
    }
  }

  /** With `k` negations around the call, followed by `DropTemps` wrappers,
      the condition means "is empty" exactly when `k` is even. */
  lemma NegationParity(k: nat, ws: seq<Node>, h: IfExpr, rest: seq<Node>)
    requires forall i :: 0 <= i < |ws| ==> ws[i] == ExprNode(DropTemps)
    ensures EnclosingIf(Nots(k) + ws + [ExprNode(If(h))] + rest) == Some(IfExprWithIsEmpty(h, k % 2 == 0))
  {
    var a := Nots(k) + ws + [ExprNode(If(h))] + rest;
    var n := k + |ws|;
    assert a[n] == ExprNode(If(h));
    assert forall j :: 0 <= j < n ==> a[j] == (Nots(k) + ws)[j];
    assert GuardAt(a, n);
    assert a[..n] == Nots(k) + ws;
    NotCountAppend(Nots(k), ws);
    NotCountNots(k);
    NotCountWrappers(ws);
    EnclosingIfCharacterized(a);
  }

  function FlipSense(r: Option<IfExprWithIsEmpty>): Option<IfExprWithIsEmpty>
  {
    match r
    case None => None
    case Some(g) => Some(IfExprWithIsEmpty(g.higherIf, !g.ifIsEmpty))
  }

  lemma {:induction false} AscendOneMore(a: seq<Node>, c: nat)
    ensures Ascend(a, c + 1) == FlipSense(Ascend(a, c))
    decreases |a|
  {
    if a != [] && Transparent(a[0]) {
      AscendOneMore(a[1..], if a[0] == ExprNode(Not) then c + 1 else c);
    }
  }

  /** Each `!` layer passed on the way up flips the sense of the condition. */
  lemma NotLayerFlipsSense(a: seq<Node>)
    ensures EnclosingIf([ExprNode(Not)] + a) == FlipSense(EnclosingIf(a))
  {
    assert ([ExprNode(Not)] + a)[1..] == a;
    AscendOneMore(a, 0);
  }

  // ---------------------------------------------------------------------------
  // What the condition evaluates to, and the ascent the lint evidently intends.

  /** An ancestor whose value is fixed by its operand's: `!` and `DropTemps`. */
  predicate KeepsValue(n: Node)
  {
    n == ExprNode(Not) || n == ExprNode(DropTemps)
  }

  /** The value of the expression built by the layers `below` (innermost first)
      around an `is_empty()` call that returned `v`, when the call alone decides
      it; none when some layer also depends on another operand. */
  function ChainValue(below: seq<Node>, v: bool): Option<bool>
    decreases |below|
  {
    if below == [] then Some(v)
    else if below[0] == ExprNode(Not) then ChainValue(below[1..], !v)
    else if below[0] == ExprNode(DropTemps) then ChainValue(below[1..], v)
    else None
  }

  lemma NegatedFlip(k: nat, v: bool)
    ensures Negated(k, !v) == !Negated(k, v)
  {
    NegatedParity(k, v);
    NegatedParity(k, !v);
  }

  /** The call alone decides the value exactly when every layer is `!` or
      `DropTemps`, and then the value is `v` negated once per `!`. */
  lemma {:induction false} ChainValueNegated(below: seq<Node>, v: bool)
    ensures ChainValue(below, v).Some? <==> forall j :: 0 <= j < |below| ==> KeepsValue(below[j])
    ensures ChainValue(below, v).Some? ==> ChainValue(below, v) == Some(Negated(NotCount(below), v))
    decreases |below|
  {
    if below != [] {
      var v' := if below[0] == ExprNode(Not) then !v else v;
      ChainValueNegated(below[1..], v');
      if KeepsValue(below[0]) {
        NegatedFlip(NotCount(below[1..]), v);
        assert forall j :: 1 <= j < |below| ==> below[1..][j - 1] == below[j];
      } else {
        assert !KeepsValue(below[0]);
      }
    }
  }

  /** `k` is the position of an `if` reached through `!` and `DropTemps` only. */
  ghost predicate GuardAtIntended(a: seq<Node>, k: int)
  {
    0 <= k < |a| && IsIf(a[k]) && forall j :: 0 <= j < k ==> KeepsValue(a[j])
  }

  /** The ascent that also gives up at an `Other` ancestor, such as an `&&`
      operand, whose value does not follow from the `is_empty()` call alone. */
  function AscendIntended(ancestors: seq<Node>, notOpCount: nat): Option<IfExprWithIsEmpty>
    decreases |ancestors|
  {
    if ancestors == [] then None
    else
      match ancestors[0]
      case OtherNode => None
      case ExprNode(kind) =>
        match kind
        case If(h) => Some(NewWithNotOpCount(h, notOpCount))
        case Not => AscendIntended(ancestors[1..], notOpCount + 1)
        case DropTemps => AscendIntended(ancestors[1..], notOpCount)
        case MethodCall => None
        case Call => None
        case Other => None
  }

  function EnclosingIfIntended(ancestors: seq<Node>): Option<IfExprWithIsEmpty>
  {
    AscendIntended(ancestors, 0)
  }

  lemma {:induction false} AscendIntendedFinds(a: seq<Node>, c: nat, k: int)
    requires GuardAtIntended(a, k)
    ensures AscendIntended(a, c) == Some(NewWithNotOpCount(a[k].kind.higherIf, c + NotCount(a[..k])))
  {
    if k > 0 {
      var c' := if a[0] == ExprNode(Not) then c + 1 else c;
      assert GuardAtIntended(a[1..], k - 1) by {
        forall j | 0 <= j < k - 1 ensures KeepsValue(a[1..][j]) {
          assert KeepsValue(a[j + 1]);
        }
      }
      AscendIntendedFinds(a[1..], c', k - 1);
      assert a[..k][1..] == a[1..][..k - 1];
      assert a[..k][0] == a[0];
    }
  }

  lemma {:induction false} AscendIntendedFails(a: seq<Node>, c: nat)
    requires forall k :: !GuardAtIntended(a, k)
    ensures AscendIntended(a, c) == None
    decreases |a|
  {
    if a != [] {
      if IsIf(a[0]) {
        assert GuardAtIntended(a, 0);
      } else if KeepsValue(a[0]) {
        forall k | GuardAtIntended(a[1..], k) ensures GuardAtIntended(a, k + 1) {
          assert forall j :: 1 <= j < k + 1 ==> a[j] == a[1..][j - 1];
        }
        AscendIntendedFails(a[1..], if a[0] == ExprNode(Not) then c + 1 else c);
      }
    }
  }

  /** The intended ascent finds an `if` exactly when one is reached through `!`
      and `DropTemps` only. Its condition is then decided by the call alone, takes
      opposite values on an empty and a non-empty receiver, and the branch picked
      is the one that runs on a non-empty receiver. */
  lemma EnclosingIfIntendedSound(a: seq<Node>)
    ensures EnclosingIfIntended(a).Some? <==> exists k :: GuardAtIntended(a, k)
    ensures forall k :: GuardAtIntended(a, k) ==>
      && EnclosingIfIntended(a) == Some(NewWithNotOpCount(a[k].kind.higherIf, NotCount(a[..k])))
      && ChainValue(a[..k], false).Some?
      && ChainValue(a[..k], true) == Some(!ChainValue(a[..k], false).value)
      && SelectedBranch(EnclosingIfIntended(a).value) == TakenBranch(a[k].kind.higherIf, ChainValue(a[..k], false).value)
  {
    if exists k :: GuardAtIntended(a, k) {
      forall k | GuardAtIntended(a, k)
        ensures EnclosingIfIntended(a) == Some(NewWithNotOpCount(a[k].kind.higherIf, NotCount(a[..k])))
        ensures ChainValue(a[..k], false).Some?
        ensures ChainValue(a[..k], true) == Some(!ChainValue(a[..k], false).value)
        ensures SelectedBranch(EnclosingIfIntended(a).value) == TakenBranch(a[k].kind.higherIf, ChainValue(a[..k], false).value)
      {
        AscendIntendedFinds(a, 0, k);
        assert forall j :: 0 <= j < k ==> a[..k][j] == a[j];
        ChainValueNegated(a[..k], false);
        ChainValueNegated(a[..k], true);
        NegatedFlip(NotCount(a[..k]), false);
        VisitedBranchRunsWhenNonEmpty(a[k].kind.higherIf, NotCount(a[..k]));
      }
    } else {
      AscendIntendedFails(a, 0);
    }
  }

  /** Without `Other` ancestors the intended ascent and the code's ascent agree. */
  lemma {:induction false} IntendedAgreesWithoutOperators(a: seq<Node>, c: nat)
    requires forall i :: 0 <= i < |a| ==> a[i] != ExprNode(Other)
    ensures AscendIntended(a, c) == Ascend(a, c)
    decreases |a|
  {
    if a != [] && Transparent(a[0]) {
      AscendIntendedAgreesStep(a);
      IntendedAgreesWithoutOperators(a[1..], if a[0] == ExprNode(Not) then c + 1 else c);
    }
  }

  lemma AscendIntendedAgreesStep(a: seq<Node>)
    requires a != [] && forall i :: 0 <= i < |a| ==> a[i] != ExprNode(Other)
    ensures forall i :: 0 <= i < |a[1..]| ==> a[1..][i] != ExprNode(Other)
  {
    assert forall i :: 0 <= i < |a[1..]| ==> a[1..][i] == a[i + 1];
  }

  /** Whenever the intended ascent finds an `if`, the code's ascent finds the same one. */
  lemma IntendedRefinesAscent(a: seq<Node>)
    requires EnclosingIfIntended(a).Some?
    ensures EnclosingIf(a) == EnclosingIfIntended(a)
  {
    EnclosingIfIntendedSound(a);
    var k :| GuardAtIntended(a, k);
    AscendFinds(a, 0, k);
  }
}
