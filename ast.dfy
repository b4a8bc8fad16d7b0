// The typed expression tree that the lowering engine consumes.

module Ast {

  const MinInt64: int := -0x8000_0000_0000_0000
  const MaxInt64: int := 0x7FFF_FFFF_FFFF_FFFF

  /** A signed 64-bit integer, the payload of literals and of the interpreter's store. */
  type Int64 = x: int | MinInt64 <= x <= MaxInt64

  /** The width tag carried by literals, variables and arithmetic instructions. */
  datatype Type = I32 | I64

  datatype Expr =
    | Int(value: Int64, ty: Type)
    | Var(name: string, ty: Type)
    | Add(left: Expr, right: Expr)
    | Sub(left: Expr, right: Expr)
    | Mul(left: Expr, right: Expr)
    | Div(left: Expr, right: Expr)
  {
    predicate IsBinary() {
      Add? || Sub? || Mul? || Div?
    }
  }

  /** Number of nodes of the tree. */
  function Size(e: Expr): (n: nat)
    ensures n >= 1
  {
    match e
    case Int(_, _) => 1
    case Var(_, _) => 1
    case Add(a, b) => Size(a) + Size(b) + 1
    case Sub(a, b) => Size(a) + Size(b) + 1
    case Mul(a, b) => Size(a) + Size(b) + 1
    case Div(a, b) => Size(a) + Size(b) + 1
  }

  /**
   * The statically known width of an expression: the tag of a literal or
   * variable, and for a binary node the width of its left operand (the
   * binary node itself carries no tag).
   */
  function StaticType(e: Expr): Type {
    if e.IsBinary() then StaticType(e.left) else e.ty
  }

  /** The source-level variable names read by an expression. */
  function VarsOf(e: Expr): set<string> {
    if e.Var? then {e.name}
    else if e.IsBinary() then VarsOf(e.left) + VarsOf(e.right)
    else {}
  }
}
