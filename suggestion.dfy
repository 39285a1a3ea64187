/** `make_suggestion`: the three replacement texts of the proposed `if let`
    rewrite, built from source snippets. */
module Rewrite {
  import opened Hir
  import opened Guard

  // ---------------------------------------------------------------------------
  // `str::replace`

  /** `pat` occurs in `s` at position `i`. */
  predicate OccursAt(s: string, pat: string, i: int)
  {
    0 <= i && i + |pat| <= |s| && s[i..i + |pat|] == pat
  }

  /** `s.replace(pat, rep)`: every occurrence of `pat`, scanning from the left and
      without overlaps, becomes `rep`. */
  function Replace(s: string, pat: string, rep: string): string
    requires pat != []
    decreases |s|
  {
    if |s| < |pat| then s
    else if s[..|pat|] == pat then rep + Replace(s[|pat|..], pat, rep)
    else [s[0]] + Replace(s[1..], pat, rep)
  }

  lemma OccursAtTail(s: string, pat: string, i: nat)
    requires s != []
    ensures OccursAt(s[1..], pat, i) <==> OccursAt(s, pat, i + 1)
  {
  }

  /** A text without an occurrence of the pattern is left as it is. */
  lemma {:induction false} ReplaceAbsent(s: string, pat: string, rep: string)
    requires pat != []
    requires forall i :: !OccursAt(s, pat, i)
    ensures Replace(s, pat, rep) == s
    decreases |s|
  {
    if |s| >= |pat| {
      assert !OccursAt(s, pat, 0);
      forall i ensures !OccursAt(s[1..], pat, i) {
        if i >= 0 {
          OccursAtTail(s, pat, i);
        }
      }
      ReplaceAbsent(s[1..], pat, rep);
      assert [s[0]] + s[1..] == s;
    }
  }

  /** The leftmost occurrence is replaced and the rest of the text is processed
      after it. With `ReplaceAbsent` this determines `Replace` completely. */
  lemma {:induction false} ReplaceLeftmost(a: string, b: string, pat: string, rep: string)
    requires pat != []
    requires forall i :: 0 <= i < |a| ==> !OccursAt(a + pat + b, pat, i)
    ensures Replace(a + pat + b, pat, rep) == a + rep + Replace(b, pat, rep)
    decreases |a|
  {
    var s := a + pat + b;
    if a == [] {
      assert s == pat + b;
      assert s[..|pat|] == pat && s[|pat|..] == b;
    } else {
      assert !OccursAt(s, pat, 0);
      assert s[1..] == a[1..] + pat + b;
      forall i | 0 <= i < |a| - 1 ensures !OccursAt(a[1..] + pat + b, pat, i) {
        OccursAtTail(s, pat, i);
      }
      ReplaceLeftmost(a[1..], b, pat, rep);
      assert [s[0]] + (a[1..] + rep + Replace(b, pat, rep)) == a + rep + Replace(b, pat, rep);
    }
  }

  // ---------------------------------------------------------------------------
  // `make_suggestion`

  /** `snippet_with_applicability`: the source text of a span, or `default` when
      the text is not available. `source` maps the spans whose text is known. */
  function Snippet(source: map<Span, string>, span: Span, default: string): string
  {
    if span in source then source[span] else default
  }

  /** The condition text and the new then- and else-texts. */
  datatype Suggestion = Suggestion(cond: string, thenText: string, elseText: string)

  /** The snippet of the receiver, `caller` in the source. */
  function Caller(receiverSpan: Span, source: map<Span, string>): string
  {
    Snippet(source, receiverSpan, "_")
  }

  /** The text that stands for `caller[0]`. */
  function ZeroIndexText(caller: string): (t: string)
    ensures t != []
  {
    caller + "[0]"
  }

  /** `make_suggestion`, as written: the new then-text is rewritten only when the
      branches keep their order. */
  function MakeSuggestion(g: IfExprWithIsEmpty, receiverSpan: Span, source: map<Span, string>): Option<Suggestion>
  {
    var caller := Caller(receiverSpan, source);
    var condSugg := "let x = " + caller + ".first()";
    match g.higherIf.els
    case None => None
    case Some(els) =>
      var thenSnippet := Snippet(source, g.higherIf.thn.span, "..");
      var elseSnippet := Snippet(source, els.span, "..");
      if g.ifIsEmpty then
        Some(Suggestion(condSugg, elseSnippet, thenSnippet))
      else
        Some(Suggestion(condSugg, Replace(thenSnippet, ZeroIndexText(caller), "x"), elseSnippet))
  }

  /** The branch that is not visited: the then-expression when the condition means
      "is empty", the else-expression otherwise. */
  function OtherBranch(g: IfExprWithIsEmpty): Option<Branch>
  {
    if g.ifIsEmpty then Some(g.higherIf.thn) else g.higherIf.els
  }

  /** There is a suggestion exactly when the `if` has an else-branch, and its
      condition is always `let x = <caller>.first()`. */
  lemma SuggestionShape(g: IfExprWithIsEmpty, receiverSpan: Span, source: map<Span, string>)
    ensures MakeSuggestion(g, receiverSpan, source).None? <==> g.higherIf.els.None?
    ensures MakeSuggestion(g, receiverSpan, source).Some? ==>
      MakeSuggestion(g, receiverSpan, source).value.cond == "let x = " + Caller(receiverSpan, source) + ".first()"
  {
  }

  /** The new then-text comes from the branch the scan visits, the new else-text
      from the other one: swapped and unaltered when the condition meant "is empty",
      in order with `caller[0]` replaced by `x` otherwise. */
  lemma SuggestionBranches(g: IfExprWithIsEmpty, receiverSpan: Span, source: map<Span, string>)
    requires g.higherIf.els.Some?
    ensures
      var s := MakeSuggestion(g, receiverSpan, source).value;
      var visited := Snippet(source, SelectedBranch(g).value.span, "..");
      && s.elseText == Snippet(source, OtherBranch(g).value.span, "..")
      && s.thenText == if g.ifIsEmpty then visited else Replace(visited, ZeroIndexText(Caller(receiverSpan, source)), "x")
  {
  }

  /** When the branches keep their order and the then-text has no `caller[0]`,
      both texts come out unchanged. */
  lemma SuggestionUnchangedWithoutIndex(g: IfExprWithIsEmpty, receiverSpan: Span, source: map<Span, string>)
    requires g.higherIf.els.Some? && !g.ifIsEmpty
    requires forall i :: !OccursAt(Snippet(source, g.higherIf.thn.span, ".."), ZeroIndexText(Caller(receiverSpan, source)), i)
    ensures MakeSuggestion(g, receiverSpan, source).value.thenText == Snippet(source, g.higherIf.thn.span, "..")
    ensures MakeSuggestion(g, receiverSpan, source).value.elseText == Snippet(source, g.higherIf.els.value.span, "..")
  {
    ReplaceAbsent(Snippet(source, g.higherIf.thn.span, ".."), ZeroIndexText(Caller(receiverSpan, source)), "x");
  }

  // ---------------------------------------------------------------------------
  // The suggestion the code evidently intends.

  /** The condition binds the element through a refutable `Some(..)` pattern. */
  predicate BindsSome(cond: string)
  {
    |cond| >= 9 && cond[..9] == "let Some("
  }

  /** `make_suggestion` as its doc comment and the lint's message describe it:
      the visited branch, the one the scan approved, gets `caller[0]` replaced by
      `x` whichever order the branches end up in, and the condition is an
      if-let pattern on `Some(x)`. */
  function MakeSuggestionIntended(g: IfExprWithIsEmpty, receiverSpan: Span, source: map<Span, string>): Option<Suggestion>
  {
    var caller := Caller(receiverSpan, source);
    var condSugg := "let Some(x) = " + caller + ".first()";
    match g.higherIf.els
    case None => None
    case Some(els) =>
      var thenSnippet := Snippet(source, g.higherIf.thn.span, "..");
      var elseSnippet := Snippet(source, els.span, "..");
      var pat := ZeroIndexText(caller);
      if g.ifIsEmpty then
        Some(Suggestion(condSugg, Replace(elseSnippet, pat, "x"), thenSnippet))
      else
        Some(Suggestion(condSugg, Replace(thenSnippet, pat, "x"), elseSnippet))
  }

  /** In both orders the new then-text is the visited branch with `caller[0]`
      replaced, the new else-text is the other branch unaltered, and the
      condition is a refutable `Some(x)` binding. */
  lemma IntendedRewritesVisitedBranch(g: IfExprWithIsEmpty, receiverSpan: Span, source: map<Span, string>)
    requires g.higherIf.els.Some?
    ensures
      var s := MakeSuggestionIntended(g, receiverSpan, source).value;
      var caller := Caller(receiverSpan, source);
      && s.cond == "let Some(x) = " + caller + ".first()"
      && BindsSome(s.cond)
      && s.thenText == Replace(Snippet(source, SelectedBranch(g).value.span, ".."), ZeroIndexText(caller), "x")
      && s.elseText == Snippet(source, OtherBranch(g).value.span, "..")
  {
  }

  /** The two versions agree on the branch texts when the condition meant "is not empty". */
  lemma IntendedAgreesWhenUnswapped(g: IfExprWithIsEmpty, receiverSpan: Span, source: map<Span, string>)
    requires g.higherIf.els.Some? && !g.ifIsEmpty
    ensures MakeSuggestionIntended(g, receiverSpan, source).value.thenText == MakeSuggestion(g, receiverSpan, source).value.thenText
    ensures MakeSuggestionIntended(g, receiverSpan, source).value.elseText == MakeSuggestion(g, receiverSpan, source).value.elseText
  {
  }

  // ---------------------------------------------------------------------------
  // Where the code as written departs from that.

  /** `if v.is_empty() {} else { v[0] }`, with the receiver `v` (the local 0) at
      span 0, the condition at span 3, the then-block at span 1 and the else-block,
      holding `v[0]` at span 4, at span 2. */
  function SwapExample(): IfExprWithIsEmpty
  {
    IfExprWithIsEmpty(IfExpr(3, Branch(BlockBody(Block([])), 1), Some(Branch(BlockBody(Block([Index(Some(0), Some(U(0)), 4)])), 2))), true)
  }

  function SwapExampleSource(): map<Span, string>
  {
    map[0 := "v", 1 := "{}", 2 := "{ v[0] }"]
  }

  /** As written, the swapped then-text still contains `v[0]`; the intended
      version turns it into `{ x }`. */
  lemma SwappedBranchKeepsIndex()
    ensures MakeSuggestion(SwapExample(), 0, SwapExampleSource()).value.thenText == "{ v[0] }"
    ensures OccursAt("{ v[0] }", "v[0]", 2)
    ensures MakeSuggestionIntended(SwapExample(), 0, SwapExampleSource()).value.thenText == "{ x }"
  {
    var src := SwapExampleSource();
    assert Caller(0, src) == "v";
    assert ZeroIndexText("v") == "v[0]";
    assert "{ v[0] }" == "{ " + "v[0]" + " }";
    assert "{ v[0] }"[2..6] == "v[0]";
    forall i | 0 <= i < 2 ensures !OccursAt("{ " + "v[0]" + " }", "v[0]", i) {
      assert ("{ " + "v[0]" + " }")[i] != 'v';
    }
    ReplaceLeftmost("{ ", " }", "v[0]", "x");
    assert Replace(" }", "v[0]", "x") == " }";
  }

  /** As written, the condition never binds through `Some(..)`: `if let x = v.first()`
      is irrefutable, so its then-branch runs even when `v` is empty. */
  lemma ConditionIsIrrefutable(g: IfExprWithIsEmpty, receiverSpan: Span, source: map<Span, string>)
    requires g.higherIf.els.Some?
    ensures !BindsSome(MakeSuggestion(g, receiverSpan, source).value.cond)
  {
    var cond := MakeSuggestion(g, receiverSpan, source).value.cond;
    assert cond[4] == 'x';
  }
}
