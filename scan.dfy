/** The safety scan inside `check`: visit every expression of the chosen block,
    remember the spans of `recv[0]`, and give up at the first `recv[n]` with a
    nonzero unsigned constant `n`. */
module Scan {
  import opened Hir

  /** `path_to_local(seq)` and `path_to_local(receiver)` both resolve, to the same local. */
  predicate OnReceiver(e: VisitedExpr, recv: Option<LocalId>)
  {
    e.Index? && e.base.Some? && recv.Some? && e.base.value == recv.value
  }

  /** The index as an unsigned constant, when constant folding gives `FullInt::U`. */
  function UnsignedIndex(e: VisitedExpr): Option<nat>
  {
    if e.Index? && e.index.Some? && e.index.value.U? then Some(e.index.value.u) else None
  }

  /** `recv[0]`: the accesses the lint would replace. */
  predicate IsZeroAccess(e: VisitedExpr, recv: Option<LocalId>)
  {
    OnReceiver(e, recv) && UnsignedIndex(e) == Some(0)
  }

  /** `recv[n]` with a known unsigned `n != 0`: the accesses that stop the scan. */
  predicate IsNonzeroAccess(e: VisitedExpr, recv: Option<LocalId>)
  {
    OnReceiver(e, recv) && UnsignedIndex(e).Some? && UnsignedIndex(e).value != 0
  }

  /** The position where the visit breaks off: the first nonzero access, or the end. */
  function FirstNonzero(s: seq<VisitedExpr>, recv: Option<LocalId>): (k: nat)
    ensures k <= |s|
    ensures forall i :: 0 <= i < k ==> !IsNonzeroAccess(s[i], recv)
    ensures k < |s| ==> IsNonzeroAccess(s[k], recv)
  {
    if s == [] then 0
    else if IsNonzeroAccess(s[0], recv) then 0
    else 1 + FirstNonzero(s[1..], recv)
  }

  /** The spans of the zero accesses of `s`, in visiting order. */
  function ZeroSpans(s: seq<VisitedExpr>, recv: Option<LocalId>): (r: seq<Span>)
    ensures |r| <= |s|
    ensures r == [] <==> forall i :: 0 <= i < |s| ==> !IsZeroAccess(s[i], recv)
  {
    if s == [] then []
    else
      var last := s[|s| - 1];
      assert forall i :: 0 <= i < |s| - 1 ==> s[..|s| - 1][i] == s[i];
      ZeroSpans(s[..|s| - 1], recv) + (if IsZeroAccess(last, recv) then [last.span] else [])
  }

  /** The final value of `should_lint`. */
  predicate ShouldLint(s: seq<VisitedExpr>, recv: Option<LocalId>)
  {
    FirstNonzero(s, recv) == |s| && ZeroSpans(s, recv) != []
  }

  /** The final contents of `spans_to_replace`: it is not cleared at the break. */
  function SpansToReplace(s: seq<VisitedExpr>, recv: Option<LocalId>): seq<Span>
  {
    ZeroSpans(s[..FirstNonzero(s, recv)], recv)
  }

  /** Lines 72-97 of `check`: `for_each_expr_with_closures` over the block with
      the closure that updates `should_lint` and `spans_to_replace`. */
  method ScanBlock(block: Block, recv: Option<LocalId>) returns (shouldLint: bool, spansToReplace: seq<Span>)
    ensures shouldLint == ShouldLint(block.visited, recv)
    ensures spansToReplace == SpansToReplace(block.visited, recv)
  {
    var exprs := block.visited;
    shouldLint := false;
    spansToReplace := [];
    var i := 0;
    while i < |exprs|
      invariant 0 <= i <= FirstNonzero(exprs, recv)
      invariant spansToReplace == ZeroSpans(exprs[..i], recv)
      invariant shouldLint == (spansToReplace != [])
    {
      assert exprs[..i + 1][..i] == exprs[..i];
      match exprs[i] {
        case Index(base, index, span) =>
          if base.Some? && recv.Some? && base.value == recv.value && index.Some? && index.value.U? {
            if index.value.u == 0 {
              shouldLint := true;
              spansToReplace := spansToReplace + [span];
            } else {
              shouldLint := false;
              return;
            }
          }
        case NonIndex(_) =>
      }
      i := i + 1;
    }
    assert exprs[..i] == exprs;
  }

  // ---------------------------------------------------------------------------
  // What the outcome of the scan means.

  /** `should_lint` holds exactly when the block has a `recv[0]` and no `recv[n]`
      with a known unsigned `n != 0`. */
  lemma ShouldLintIff(s: seq<VisitedExpr>, recv: Option<LocalId>)
    ensures ShouldLint(s, recv) <==>
      (exists i :: 0 <= i < |s| && IsZeroAccess(s[i], recv)) &&
      (forall i :: 0 <= i < |s| ==> !IsNonzeroAccess(s[i], recv))
  {
  }

  /** Every access on the receiver whose index is a known unsigned constant uses 0
      when the lint fires. */
  lemma ShouldLintOnlyZero(s: seq<VisitedExpr>, recv: Option<LocalId>, i: int)
    requires ShouldLint(s, recv) && 0 <= i < |s|
    requires OnReceiver(s[i], recv) && UnsignedIndex(s[i]).Some?
    ensures UnsignedIndex(s[i]) == Some(0)
  {
  }

  /** A block with no `recv[0]` left (one already rewritten) never lints. */
  lemma NoZeroAccessNoLint(s: seq<VisitedExpr>, recv: Option<LocalId>)
    requires forall i :: 0 <= i < |s| ==> !IsZeroAccess(s[i], recv)
    ensures !ShouldLint(s, recv) && SpansToReplace(s, recv) == []
  {
  }

  lemma {:induction false} ZeroSpansAppend(a: seq<VisitedExpr>, b: seq<VisitedExpr>, recv: Option<LocalId>)
    ensures ZeroSpans(a + b, recv) == ZeroSpans(a, recv) + ZeroSpans(b, recv)
    decreases |b|
  {
    if b != [] {
      var b' := b[..|b| - 1];
      assert (a + b)[..|a + b| - 1] == a + b';
      ZeroSpansAppend(a, b', recv);
    } else {
      assert a + b == a;
    }
  }

  lemma {:induction false} FirstNonzeroAppend(a: seq<VisitedExpr>, b: seq<VisitedExpr>, recv: Option<LocalId>)
    ensures FirstNonzero(a + b, recv) ==
      if FirstNonzero(a, recv) < |a| then FirstNonzero(a, recv) else |a| + FirstNonzero(b, recv)
    decreases |a|
  {
    if a == [] {
      assert a + b == b;
    } else {
      assert (a + b)[0] == a[0];
      assert (a + b)[1..] == a[1..] + b;
      FirstNonzeroAppend(a[1..], b, recv);
    }
  }

  /** An ignored expression is one that is neither a zero nor a nonzero access:
      a non-index, an index on another local or on something that is not a local
      path, or an index that is not a known unsigned constant. */
  predicate Ignored(e: VisitedExpr, recv: Option<LocalId>)
  {
    !IsZeroAccess(e, recv) && !IsNonzeroAccess(e, recv)
  }

  lemma ZeroSpansSkipIgnored(pre: seq<VisitedExpr>, e: VisitedExpr, post: seq<VisitedExpr>, recv: Option<LocalId>)
    requires Ignored(e, recv)
    ensures ZeroSpans(pre + [e] + post, recv) == ZeroSpans(pre + post, recv)
  {
    assert ZeroSpans([e], recv) == [] by {
      assert [e][..0] == [];
    }
    ZeroSpansAppend(pre + [e], post, recv);
    ZeroSpansAppend(pre, [e], recv);
    ZeroSpansAppend(pre, post, recv);
  }

  lemma FirstNonzeroSkipIgnored(pre: seq<VisitedExpr>, e: VisitedExpr, post: seq<VisitedExpr>, recv: Option<LocalId>)
    requires Ignored(e, recv)
    ensures FirstNonzero(pre + [e] + post, recv) ==
      if FirstNonzero(pre, recv) < |pre| then FirstNonzero(pre, recv) else |pre| + 1 + FirstNonzero(post, recv)
    ensures FirstNonzero(pre + post, recv) ==
      if FirstNonzero(pre, recv) < |pre| then FirstNonzero(pre, recv) else |pre| + FirstNonzero(post, recv)
  {
    assert pre + [e] + post == pre + ([e] + post);
    assert ([e] + post)[0] == e && ([e] + post)[1..] == post;
    FirstNonzeroAppend(pre, [e] + post, recv);
    FirstNonzeroAppend(pre, post, recv);
  }

  /** Inserting an ignored expression anywhere in a block does not change `should_lint`. */
  lemma IgnoredKeepsShouldLint(pre: seq<VisitedExpr>, e: VisitedExpr, post: seq<VisitedExpr>, recv: Option<LocalId>)
    requires Ignored(e, recv)
    ensures ShouldLint(pre + [e] + post, recv) == ShouldLint(pre + post, recv)
  {
    FirstNonzeroSkipIgnored(pre, e, post, recv);
    ZeroSpansSkipIgnored(pre, e, post, recv);
  }

  /** Inserting an ignored expression anywhere in a block does not change `spans_to_replace`. */
  lemma IgnoredKeepsSpansToReplace(pre: seq<VisitedExpr>, e: VisitedExpr, post: seq<VisitedExpr>, recv: Option<LocalId>)
    requires Ignored(e, recv)
    ensures SpansToReplace(pre + [e] + post, recv) == SpansToReplace(pre + post, recv)
  {
    FirstNonzeroSkipIgnored(pre, e, post, recv);
    var kp := FirstNonzero(pre, recv);
    if kp < |pre| {
      SlicesBeforeStop(pre, e, post, kp);
    } else {
      var kq := FirstNonzero(post, recv);
      SlicesAfterStop(pre, e, post, kq);
      ZeroSpansSkipIgnored(pre, e, post[..kq], recv);
    }
  }

  lemma SlicesBeforeStop(pre: seq<VisitedExpr>, e: VisitedExpr, post: seq<VisitedExpr>, k: nat)
    requires k < |pre|
    ensures (pre + [e] + post)[..k] == pre[..k] && (pre + post)[..k] == pre[..k]
  {
  }

  lemma SlicesAfterStop(pre: seq<VisitedExpr>, e: VisitedExpr, post: seq<VisitedExpr>, k: nat)
    requires k <= |post|
    ensures (pre + [e] + post)[..|pre| + 1 + k] == pre + [e] + post[..k]
    ensures (pre + post)[..|pre| + k] == pre + post[..k]
  {
  }

  /** The recorded spans are the spans of the zero accesses, and of nothing else.
      Applied to the prefix before the break, this describes `spans_to_replace`. */
  lemma {:induction false} ZeroSpansAreZeroAccesses(s: seq<VisitedExpr>, recv: Option<LocalId>)
    ensures forall j :: 0 <= j < |ZeroSpans(s, recv)| ==>
      exists i :: 0 <= i < |s| && IsZeroAccess(s[i], recv) && s[i].span == ZeroSpans(s, recv)[j]
    ensures forall i :: 0 <= i < |s| && IsZeroAccess(s[i], recv) ==> s[i].span in ZeroSpans(s, recv)
    decreases |s|
  {
    if s != [] {
      var n := |s|;
      var init := s[..n - 1];
      ZeroSpansAreZeroAccesses(init, recv);
      var prev := ZeroSpans(init, recv);
      var r := ZeroSpans(s, recv);
      assert r == prev + (if IsZeroAccess(s[n - 1], recv) then [s[n - 1].span] else []);
      forall j | 0 <= j < |r|
        ensures exists i :: 0 <= i < n && IsZeroAccess(s[i], recv) && s[i].span == r[j]
      {
        if j < |prev| {
          var i :| 0 <= i < n - 1 && IsZeroAccess(init[i], recv) && init[i].span == prev[j];
          assert s[i] == init[i];
        } else {
          assert r[j] == s[n - 1].span;
        }
      }
      forall i | 0 <= i < n && IsZeroAccess(s[i], recv) ensures s[i].span in r {
        if i < n - 1 {
          assert init[i] == s[i];
        }
      }
    } else {
      assert ZeroSpans(s, recv) == [];
    }
  }
}
