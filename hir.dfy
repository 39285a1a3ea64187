/** The slice of the compiler's high-level IR that the unnecessary_indexing lint
    looks at, with every compiler service replaced by data:
    - the parent chain of the `is_empty()` call is a sequence of ancestor nodes;
    - `path_to_local` on an expression is an optional local id;
    - constant folding of an index expression is an optional `FullInt`;
    - the expressions that `for_each_expr_with_closures` visits inside a block
      are that block's flattened sequence, closure bodies included, in visiting order.
    Spans are opaque ids. */
module Hir {

  datatype Option<+T> = None | Some(value: T)

  /** An opaque source location. */
  type Span = nat

  /** The id of a local binding, as `path_to_local` yields it. */
  type LocalId = nat

  /** The result of `consts::constant_full_int`: an unsigned or a signed constant. */
  datatype FullInt = U(u: nat) | S(s: int)

  /** An expression visited while scanning a block. Only index expressions
      `base[index]` matter: `base` is what `path_to_local(base)` resolves to and
      `index` is what constant folding makes of the bracketed expression. */
  datatype VisitedExpr =
    | Index(base: Option<LocalId>, index: Option<FullInt>, span: Span)
    | NonIndex(span: Span)

  /** A block, reduced to the expressions a visit of it reaches, in order. */
  datatype Block = Block(visited: seq<VisitedExpr>)

  /** The kind of a branch expression of an `if`: only `ExprKind::Block` carries a block. */
  datatype BranchKind = BlockBody(block: Block) | NonBlock

  /** A branch expression of an `if` together with its span. */
  datatype Branch = Branch(kind: BranchKind, span: Span)

  /** What `higher::If` extracts from an `if` expression: the condition's span,
      the then-expression and the optional else-expression. */
  datatype IfExpr = IfExpr(cond: Span, thn: Branch, els: Option<Branch>)

  /** The kinds of expression the ascent distinguishes. `If` stands for an
      expression that `higher::If::hir` recognises. `DropTemps` is the wrapper
      that lowering puts around every `if` condition; its value is its operand's.
      `Other` is every other kind, among them the binary operators `&&`, `||`
      and `==`, whose value also depends on another operand. */
  datatype ExprKind =
    | If(higherIf: IfExpr)
    | Not
    | DropTemps
    | MethodCall
    | Call
    | Other

  /** An ancestor in the parent chain: an expression node, or any other HIR node
      (statement, block, local, item, ...). */
  datatype Node = ExprNode(kind: ExprKind) | OtherNode
}
