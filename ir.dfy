// The three-address intermediate representation: the static energy table of
// machine-level operations, the instruction set the interpreter runs, and the
// one-line text form of each instruction.

module Ir {
  import Ast
  import opened Decimal
  import opened Wrappers

  // ---------------------------------------------------------------------------
  // Energy cost table
  // ---------------------------------------------------------------------------

  /** A signed 32-bit integer, the payload of a 32-bit constant. */
  type Int32 = x: int | -0x8000_0000 <= x <= 0x7FFF_FFFF

  /** Machine-level operations priced by the energy table. */
  datatype IROp =
    | Add32(a: string, b: string)
    | Add64(a: string, b: string)
    | Sub32(a: string, b: string)
    | Sub64(a: string, b: string)
    | Mul32(a: string, b: string)
    | Mul64(a: string, b: string)
    | Div32(a: string, b: string)
    | Div64(a: string, b: string)
    | FAdd32(a: string, b: string)
    | FAdd64(a: string, b: string)
    | FSub32(a: string, b: string)
    | FSub64(a: string, b: string)
    | FMul32(a: string, b: string)
    | FMul64(a: string, b: string)
    | FDiv32(a: string, b: string)
    | FDiv64(a: string, b: string)
    | LoadVar32(a: string)
    | LoadVar64(a: string)
    | StoreVar32(a: string, b: string)
    | StoreVar64(a: string, b: string)
    | LoadMem(a: string)
    | Const32(i32: Int32)
    | Const64(i64: Ast.Int64)
    | FConst32
    | FConst64

  /** Energy units of one operation; every operation has a price of at least one unit. */
  function EnergyCost(op: IROp): (c: nat)
    ensures c >= 1
  {
    match op
    case Add32(_, _) => 1
    case Sub32(_, _) => 1
    case Mul32(_, _) => 3
    case Div32(_, _) => 20
    case Add64(_, _) => 1
    case Sub64(_, _) => 1
    case Mul64(_, _) => 5
    case Div64(_, _) => 40
    case FAdd32(_, _) => 2
    case FSub32(_, _) => 2
    case FMul32(_, _) => 4
    case FDiv32(_, _) => 40
    case FAdd64(_, _) => 3
    case FSub64(_, _) => 3
    case FMul64(_, _) => 6
    case FDiv64(_, _) => 80
    case LoadVar32(_) => 4
    case LoadVar64(_) => 5
    case StoreVar32(_, _) => 4
    case StoreVar64(_, _) => 5
    case LoadMem(_) => 50
    case Const32(_) => 1
    case Const64(_) => 1
    case FConst32 => 1
    case FConst64 => 1
  }

  /** The four arithmetic kinds that the table prices at two widths, integer and float. */
  datatype ArithKind = AddKind | SubKind | MulKind | DivKind

  /** The arithmetic operation of a given kind, width and family. */
  function ArithOp(k: ArithKind, w: Ast.Type, float: bool, a: string, b: string): IROp {
    match (k, w, float)
    case (AddKind, I32, false) => Add32(a, b)
    case (AddKind, I64, false) => Add64(a, b)
    case (SubKind, I32, false) => Sub32(a, b)
    case (SubKind, I64, false) => Sub64(a, b)
    case (MulKind, I32, false) => Mul32(a, b)
    case (MulKind, I64, false) => Mul64(a, b)
    case (DivKind, I32, false) => Div32(a, b)
    case (DivKind, I64, false) => Div64(a, b)
    case (AddKind, I32, true) => FAdd32(a, b)
    case (AddKind, I64, true) => FAdd64(a, b)
    case (SubKind, I32, true) => FSub32(a, b)
    case (SubKind, I64, true) => FSub64(a, b)
    case (MulKind, I32, true) => FMul32(a, b)
    case (MulKind, I64, true) => FMul64(a, b)
    case (DivKind, I32, true) => FDiv32(a, b)
    case (DivKind, I64, true) => FDiv64(a, b)
  }

  /**
   * A 64-bit operation never costs less than its 32-bit form; the two cost the
   * same exactly for integer Add and Sub.
   */
  lemma Width64NeverCheaper(k: ArithKind, float: bool, a: string, b: string)
    ensures EnergyCost(ArithOp(k, Ast.I32, float, a, b)) <= EnergyCost(ArithOp(k, Ast.I64, float, a, b))
    ensures EnergyCost(ArithOp(k, Ast.I32, float, a, b)) == EnergyCost(ArithOp(k, Ast.I64, float, a, b))
            <==> !float && (k == AddKind || k == SubKind)
  {
  }

  /** A float operation costs strictly more than the integer operation of the same kind and width. */
  lemma FloatCostsMore(k: ArithKind, w: Ast.Type, a: string, b: string)
    ensures EnergyCost(ArithOp(k, w, false, a, b)) < EnergyCost(ArithOp(k, w, true, a, b))
  {
  }

  /** At each width, in both families, division is strictly the most expensive arithmetic kind. */
  lemma DivMostExpensive(k: ArithKind, w: Ast.Type, float: bool, a: string, b: string)
    ensures k != DivKind ==>
      EnergyCost(ArithOp(k, w, float, a, b)) < EnergyCost(ArithOp(DivKind, w, float, a, b))
  {
  }

  /**
   * Constants cost one unit, a general memory load costs more than any
   * variable load or store, and the 64-bit load or store costs one unit more
   * than the 32-bit one.
   */
  lemma MemoryAndConstantCosts(op: IROp)
    ensures (op.Const32? || op.Const64? || op.FConst32? || op.FConst64?) ==> EnergyCost(op) == 1
    ensures (op.LoadVar32? || op.LoadVar64? || op.StoreVar32? || op.StoreVar64?) ==>
              EnergyCost(op) < EnergyCost(LoadMem(op.a))
    ensures op.LoadVar32? ==> EnergyCost(LoadVar64(op.a)) == EnergyCost(op) + 1
    ensures op.StoreVar32? ==> EnergyCost(StoreVar64(op.a, op.b)) == EnergyCost(op) + 1
  {
  }

  // ---------------------------------------------------------------------------
  // Instructions
  // ---------------------------------------------------------------------------

  datatype BinOp =
    | Add(ty: Ast.Type)
    | Sub(ty: Ast.Type)
    | Mul(ty: Ast.Type)
    | Div(ty: Ast.Type)

  datatype CmpIR = Eq | Ne | Lt | Le | Gt | Ge

  datatype Instr =
    | LoadConst(value: Ast.Int64, dest: string, ty: Ast.Type)
    | Move(src: string, dest: string, ty: Ast.Type)
    | BinOp(op: BinOp, left: string, right: string, dest: string)
    | Cmp(cmp: CmpIR, left: string, right: string, dest: string)
    | Label(name: string)
    | BrIf(cond: string, thenLabel: string, elseLabel: string)
    | Jmp(target: string)

  /** The name an instruction writes, if it writes one. */
  function Dest(i: Instr): (d: Option<string>)
    ensures d.Some? <==> !(i.Label? || i.BrIf? || i.Jmp?)
  {
    match i
    case LoadConst(_, d, _) => Some(d)
    case Move(_, d, _) => Some(d)
    case BinOp(_, _, _, d) => Some(d)
    case Cmp(_, _, _, d) => Some(d)
    case _ => None
  }

  // ---------------------------------------------------------------------------
  // Text form
  // ---------------------------------------------------------------------------

  /** The width tag as Rust's `{:?}` prints it. */
  function TypeName(t: Ast.Type): string {
    match t
    case I32 => "I32"
    case I64 => "I64"
  }

  function ArithMnemonic(op: BinOp): string {
    match op
    case Add(_) => "add"
    case Sub(_) => "sub"
    case Mul(_) => "mul"
    case Div(_) => "div"
  }

  function CmpMnemonic(c: CmpIR): string {
    match c
    case Eq => "cmpeq"
    case Ne => "cmpne"
    case Lt => "cmplt"
    case Le => "cmple"
    case Gt => "cmpgt"
    case Ge => "cmpge"
  }

  /** The one-line text form of an instruction. */
  function Render(i: Instr): string {
    match i
    case LoadConst(v, d, _) => d + " = const " + IntToString(v)
    case Move(s, d, _) => d + " = " + s
    case BinOp(op, a, b, d) =>
      d + " = " + ArithMnemonic(op) + " " + a + ", " + b + " (" + TypeName(op.ty) + ")"
    case Cmp(c, a, b, d) => d + " = " + CmpMnemonic(c) + " " + a + ", " + b
    case Label(n) => n + ":"
    case BrIf(c, t, e) => "br_if " + c + ", " + t + ", " + e
    case Jmp(l) => "jmp " + l
  }

  /** Every name an instruction mentions. */
  function NamesOf(i: Instr): seq<string> {
    match i
    case LoadConst(_, d, _) => [d]
    case Move(s, d, _) => [s, d]
    case BinOp(_, a, b, d) => [a, b, d]
    case Cmp(_, a, b, d) => [a, b, d]
    case Label(n) => [n]
    case BrIf(c, t, e) => [c, t, e]
    case Jmp(l) => [l]
  }

  predicate PlainNames(i: Instr) {
    forall k :: 0 <= k < |NamesOf(i)| ==> '\n' !in NamesOf(i)[k]
  }

  /** An instruction whose names hold no line break renders to a single line. */
  lemma RenderOneLine(i: Instr)
    requires PlainNames(i)
    ensures '\n' !in Render(i)
  {
    match i
    case LoadConst(v, d, _) =>
      var s := IntToString(v);
      assert forall k :: 0 <= k < |s| ==> s[k] != '\n';
      assert NamesOf(i)[0] == d;
    case Move(s, d, _) =>
      assert NamesOf(i)[0] == s && NamesOf(i)[1] == d;
    case BinOp(op, a, b, d) =>
      assert NamesOf(i)[0] == a && NamesOf(i)[1] == b && NamesOf(i)[2] == d;
      assert '\n' !in ArithMnemonic(op) && '\n' !in TypeName(op.ty);
    case Cmp(c, a, b, d) =>
      assert NamesOf(i)[0] == a && NamesOf(i)[1] == b && NamesOf(i)[2] == d;
      assert '\n' !in CmpMnemonic(c);
    case Label(n) =>
      assert NamesOf(i)[0] == n;
    case BrIf(c, t, e) =>
      assert NamesOf(i)[0] == c && NamesOf(i)[1] == t && NamesOf(i)[2] == e;
    case Jmp(l) =>
      assert NamesOf(i)[0] == l;
  }

  /** The six comparison mnemonics are pairwise distinct. */
  lemma CmpMnemonicsDistinct(c1: CmpIR, c2: CmpIR)
    ensures CmpMnemonic(c1) == CmpMnemonic(c2) <==> c1 == c2
  {
  }

  /** Over the same operands, the text of a comparison determines its kind. */
  lemma {:induction false} RenderDeterminesCmp(c1: CmpIR, c2: CmpIR, a: string, b: string, d: string)
    ensures Render(Cmp(c1, a, b, d)) == Render(Cmp(c2, a, b, d)) ==> c1 == c2
  {
    var s1, s2 := Render(Cmp(c1, a, b, d)), Render(Cmp(c2, a, b, d));
    if s1 == s2 {
      // the mnemonics start after "d = " and differ in their last two letters
      var k := |d| + 3;
      assert s1[k + 3] == CmpMnemonic(c1)[3] && s1[k + 4] == CmpMnemonic(c1)[4];
      assert s2[k + 3] == CmpMnemonic(c2)[3] && s2[k + 4] == CmpMnemonic(c2)[4];
    }
  }

  /**
   * Over the same operands, the text of an arithmetic instruction determines
   * both its kind and its width tag.
   */
  lemma {:induction false} RenderDeterminesArith(op1: BinOp, op2: BinOp, a: string, b: string, d: string)
    ensures Render(BinOp(op1, a, b, d)) == Render(BinOp(op2, a, b, d)) ==> op1 == op2
  {
    var s1, s2 := Render(BinOp(op1, a, b, d)), Render(BinOp(op2, a, b, d));
    if s1 == s2 {
      // the mnemonics differ in their first letter, the width tags in their middle one
      var k := |d| + 3;
      assert s1[k] == ArithMnemonic(op1)[0];
      assert s2[k] == ArithMnemonic(op2)[0];
      var n := |s1|;
      assert s1[n - 3] == TypeName(op1.ty)[1];
      assert s2[n - 3] == TypeName(op2.ty)[1];
    }
  }

  // ---------------------------------------------------------------------------
  // Program listing
  // ---------------------------------------------------------------------------

  /** The listing of a program: each instruction's text followed by a line break. */
  function Listing(p: seq<Instr>): string {
    if p == [] then "" else Render(p[0]) + "\n" + Listing(p[1..])
  }

  function CountLineBreaks(s: string): nat {
    if s == [] then 0 else (if s[0] == '\n' then 1 else 0) + CountLineBreaks(s[1..])
  }

  lemma {:induction false} CountLineBreaksAppend(s: string, t: string)
    ensures CountLineBreaks(s + t) == CountLineBreaks(s) + CountLineBreaks(t)
  {
    if s != [] {
      assert (s + t)[0] == s[0];
      assert (s + t)[1..] == s[1..] + t;
      CountLineBreaksAppend(s[1..], t);
      calc {
        CountLineBreaks(s + t);
        (if s[0] == '\n' then 1 else 0) + CountLineBreaks(s[1..] + t);
      }
    } else {
      assert s + t == t;
    }
  }

  lemma {:induction false} NoLineBreakCountsZero(s: string)
    requires '\n' !in s
    ensures CountLineBreaks(s) == 0
  {
    if s != [] {
      assert s[0] != '\n';
      assert '\n' !in s[1..];
      NoLineBreakCountsZero(s[1..]);
    }
  }

  /** A listing has exactly as many lines as the program has instructions. */
  lemma {:induction false} ListingLineCount(p: seq<Instr>)
    requires forall k :: 0 <= k < |p| ==> PlainNames(p[k])
    ensures CountLineBreaks(Listing(p)) == |p|
  {
    if p != [] {
      RenderOneLine(p[0]);
      NoLineBreakCountsZero(Render(p[0]));
      CountLineBreaksAppend(Render(p[0]), "\n");
      CountLineBreaksAppend(Render(p[0]) + "\n", Listing(p[1..]));
      ListingLineCount(p[1..]);
    }
  }
}
