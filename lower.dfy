// The lowering engine: translates an expression tree into straight-line IR,
// one instruction and one fresh temporary per tree node, and the static
// energy estimate of the instructions it emits.
//
// The engine was written against an older, untyped instruction set. In this
// model it emits the current typed instructions: LoadConst and Move copy the
// width tag of their Int or Var node, and an arithmetic instruction is tagged
// with the static width of its LEFT operand (Ast.StaticType).

module Lowering {
  import Ast
  import opened Ir
  import opened Decimal
  import opened Wrappers

  // ---------------------------------------------------------------------------
  // Static energy estimate
  // ---------------------------------------------------------------------------

  /** The instructions the estimate has a price for. */
  predicate StraightLine(i: Instr) {
    i.LoadConst? || i.Move? || i.BinOp?
  }

  predicate AllStraightLine(p: seq<Instr>) {
    forall k :: 0 <= k < |p| ==> StraightLine(p[k])
  }

  /** Width-blind price of one instruction. */
  function Cost(i: Instr): nat
    requires StraightLine(i)
  {
    match i
    case LoadConst(_, _, _) => 1
    case Move(_, _, _) => 5
    case BinOp(op, _, _, _) =>
      match op
      case Add(_) => 1
      case Sub(_) => 1
      case Mul(_) => 5
      case Div(_) => 40
  }

  /** The priced operation whose 64-bit price the estimate charges for an instruction. */
  function Counterpart64(i: Instr): IROp
    requires StraightLine(i)
  {
    match i
    case LoadConst(v, _, _) => Const64(v)
    case Move(s, _, _) => LoadVar64(s)
    case BinOp(op, a, b, _) =>
      match op
      case Add(_) => Add64(a, b)
      case Sub(_) => Sub64(a, b)
      case Mul(_) => Mul64(a, b)
      case Div(_) => Div64(a, b)
  }

  /**
   * The estimate ignores the width tag and charges every instruction the
   * 64-bit price from the energy table, which is never below the 32-bit one.
   */
  lemma CostIsWidth64Price(i: Instr)
    requires StraightLine(i)
    ensures Cost(i) == EnergyCost(Counterpart64(i))
    ensures i.BinOp? ==> Cost(i) >= EnergyCost(ArithOp(KindOf(i.op), Ast.I32, false, i.left, i.right))
    ensures i.Move? ==> Cost(i) == EnergyCost(LoadVar32(i.src)) + 1
  {
    if i.BinOp? {
      Width64NeverCheaper(KindOf(i.op), false, i.left, i.right);
    }
  }

  function KindOf(op: BinOp): ArithKind {
    match op
    case Add(_) => AddKind
    case Sub(_) => SubKind
    case Mul(_) => MulKind
    case Div(_) => DivKind
  }

  /** Sum of the prices of a program's instructions; each costs at least one unit. */
  function TotalEnergy(p: seq<Instr>): (total: nat)
    requires AllStraightLine(p)
    ensures total >= |p|
  {
    if p == [] then 0 else TotalEnergy(p[..|p| - 1]) + Cost(p[|p| - 1])
  }

  /**
   * The estimate is additive over concatenation: it prices the text of a
   * program, not how often any part of it would run.
   */
  lemma {:induction false} TotalEnergyAppend(a: seq<Instr>, b: seq<Instr>)
    requires AllStraightLine(a) && AllStraightLine(b)
    ensures AllStraightLine(a + b)
    ensures TotalEnergy(a + b) == TotalEnergy(a) + TotalEnergy(b)
    decreases |b|
  {
    assert AllStraightLine(a + b);
    if b == [] {
      assert a + b == a;
    } else {
      var b' := b[..|b| - 1];
      assert (a + b)[..|a + b| - 1] == a + b';
      assert AllStraightLine(b');
      TotalEnergyAppend(a, b');
    }
  }

  /** The estimate as a loop over the program, accumulating a running total. */
  method EstimateEnergy(instrs: seq<Instr>) returns (total: nat)
    requires AllStraightLine(instrs)
    ensures total == TotalEnergy(instrs)
  {
    total := 0;
    for k := 0 to |instrs|
      invariant total == TotalEnergy(instrs[..k])
    {
      assert instrs[..k + 1][..k] == instrs[..k];
      total := total + Cost(instrs[k]);
    }
    assert instrs[..|instrs|] == instrs;
  }

  // ---------------------------------------------------------------------------
  // Lowering, as a function of the tree and the temp counter
  // ---------------------------------------------------------------------------

  /** The name of the k-th temporary. */
  function TempName(k: nat): string {
    "t" + NatToString(k)
  }

  /** The counter value a temporary's name encodes. */
  function TempIndex(name: string): nat {
    if |name| == 0 then 0 else ParseNat(name[1..])
  }

  /** A temporary's name gives back its counter value, so distinct counters give distinct names. */
  lemma TempIndexOfTempName(k: nat)
    ensures TempIndex(TempName(k)) == k
  {
    assert TempName(k)[1..] == NatToString(k);
    ParseNatToString(k);
  }

  lemma TempNameInjective(j: nat, k: nat)
    ensures TempName(j) == TempName(k) <==> j == k
  {
    TempIndexOfTempName(j);
    TempIndexOfTempName(k);
  }

  /**
   * A scheme naming the k-th temporary. The engine uses TempName; the shape
   * of the emitted code is stated for any scheme, so that reasoning about it
   * does not depend on how numbers are spelled.
   */
  type Naming = nat -> string

  /** `index` recovers the counter from every name `tmp` gives, so `tmp` never repeats a name. */
  ghost predicate Decodes(index: string -> nat, tmp: Naming) {
    forall k: nat :: index(tmp(k)) == k
  }

  lemma TempIndexDecodesTempName()
    ensures Decodes(TempIndex, TempName)
  {
    forall k: nat
      ensures TempIndex(TempName(k)) == k
    {
      TempIndexOfTempName(k);
    }
  }

  /** The arithmetic instruction kind of a binary node, tagged with its left operand's width. */
  function OpOf(e: Ast.Expr): BinOp
    requires e.IsBinary()
  {
    match e
    case Add(a, _) => Add(Ast.StaticType(a))
    case Sub(a, _) => Sub(Ast.StaticType(a))
    case Mul(a, _) => Mul(Ast.StaticType(a))
    case Div(a, _) => Div(Ast.StaticType(a))
  }

  /** The temporary that holds the value of `e` when lowering starts at counter `n`. */
  function ResultTemp(e: Ast.Expr, n: nat, tmp: Naming): string {
    tmp(n + Ast.Size(e) - 1)
  }

  /**
   * The arithmetic instruction that ends the code of binary node `e`: it reads
   * the result temporaries of both operands and writes the next temporary.
   */
  function Combine(e: Ast.Expr, n: nat, tmp: Naming): Instr
    requires e.IsBinary()
  {
    var m := n + Ast.Size(e.left);
    BinOp(OpOf(e), ResultTemp(e.left, n, tmp), ResultTemp(e.right, m, tmp), tmp(m + Ast.Size(e.right)))
  }

  /** The instructions lowering appends for `e` when the temp counter is `n`. */
  function Emit(e: Ast.Expr, n: nat, tmp: Naming): seq<Instr>
    decreases e
  {
    if e.Int? then [LoadConst(e.value, tmp(n), e.ty)]
    else if e.Var? then [Move(e.name, tmp(n), e.ty)]
    else Emit(e.left, n, tmp) + Emit(e.right, n + Ast.Size(e.left), tmp) + [Combine(e, n, tmp)]
  }

  /** The k-th instruction of `code` writes temporary number `n + k`. */
  predicate WritesTempsFrom(code: seq<Instr>, n: nat, tmp: Naming) {
    forall k :: 0 <= k < |code| ==> Dest(code[k]) == Some(tmp(n + k))
  }

  lemma WritesTempsFromAppend(a: seq<Instr>, b: seq<Instr>, n: nat, m: nat, tmp: Naming)
    requires m == n + |a|
    requires WritesTempsFrom(a, n, tmp) && WritesTempsFrom(b, m, tmp)
    ensures WritesTempsFrom(a + b, n, tmp)
  {
    forall k | 0 <= k < |a + b|
      ensures Dest((a + b)[k]) == Some(tmp(n + k))
    {
      if k >= |a| {
        assert (a + b)[k] == b[k - |a|];
      }
    }
  }

  lemma StraightLineAppend(a: seq<Instr>, b: seq<Instr>)
    requires AllStraightLine(a) && AllStraightLine(b)
    ensures AllStraightLine(a + b)
  {
  }

  /** Lowering emits exactly one instruction per node. */
  lemma {:induction false} EmitLength(e: Ast.Expr, n: nat, tmp: Naming)
    ensures |Emit(e, n, tmp)| == Ast.Size(e)
    decreases e
  {
    if e.IsBinary() {
      EmitLength(e.left, n, tmp);
      EmitLength(e.right, n + Ast.Size(e.left), tmp);
      assert Ast.Size(e) == Ast.Size(e.left) + Ast.Size(e.right) + 1;
    }
  }

  /** Lowering emits only LoadConst, Move and BinOp, the instructions the estimate prices. */
  lemma {:induction false} EmitStraightLine(e: Ast.Expr, n: nat, tmp: Naming)
    ensures AllStraightLine(Emit(e, n, tmp))
    decreases e
  {
    if e.IsBinary() {
      EmitStraightLine(e.left, n, tmp);
      EmitStraightLine(e.right, n + Ast.Size(e.left), tmp);
      BinaryStraightLine(e, n, tmp);
    } else {
      EmitLeaf(e, n, tmp);
    }
  }

  lemma BinaryStraightLine(e: Ast.Expr, n: nat, tmp: Naming)
    requires e.IsBinary()
    requires AllStraightLine(Emit(e.left, n, tmp)) && AllStraightLine(Emit(e.right, n + Ast.Size(e.left), tmp))
    ensures AllStraightLine(Emit(e, n, tmp))
  {
    var A, B, C := Emit(e.left, n, tmp), Emit(e.right, n + Ast.Size(e.left), tmp), Combine(e, n, tmp);
    StraightLineAppend(A, B);
    StraightLineAppend(A + B, [C]);
    assert Emit(e, n, tmp) == A + B + [C];
  }

  /** The k-th instruction lowering emits writes the k-th fresh temporary. */
  lemma {:induction false} EmitTemps(e: Ast.Expr, n: nat, tmp: Naming)
    ensures WritesTempsFrom(Emit(e, n, tmp), n, tmp)
    decreases e
  {
    if e.IsBinary() {
      EmitTemps(e.left, n, tmp);
      EmitTemps(e.right, n + Ast.Size(e.left), tmp);
      BinaryTemps(e, n, tmp);
    } else {
      EmitLeaf(e, n, tmp);
    }
  }

  lemma BinaryTemps(e: Ast.Expr, n: nat, tmp: Naming)
    requires e.IsBinary()
    requires WritesTempsFrom(Emit(e.left, n, tmp), n, tmp)
    requires WritesTempsFrom(Emit(e.right, n + Ast.Size(e.left), tmp), n + Ast.Size(e.left), tmp)
    ensures WritesTempsFrom(Emit(e, n, tmp), n, tmp)
  {
    var m := n + Ast.Size(e.left);
    var m' := m + Ast.Size(e.right);
    var A, B, C := Emit(e.left, n, tmp), Emit(e.right, m, tmp), Combine(e, n, tmp);
    EmitLength(e.left, n, tmp);
    EmitLength(e.right, m, tmp);
    WritesTempsFromAppend(A, B, n, m, tmp);
    assert WritesTempsFrom([C], m', tmp) by {
      assert Dest(C) == Some(tmp(m'));
    }
    WritesTempsFromAppend(A + B, [C], n, m', tmp);
    assert Emit(e, n, tmp) == A + B + [C];
  }

  /**
   * Lowering emits exactly one straight-line instruction per node; the k-th
   * writes the k-th fresh temporary, so the last writes the temporary that is
   * returned as the node's value.
   */
  lemma EmitShape(e: Ast.Expr, n: nat, tmp: Naming)
    ensures |Emit(e, n, tmp)| == Ast.Size(e)
    ensures AllStraightLine(Emit(e, n, tmp))
    ensures WritesTempsFrom(Emit(e, n, tmp), n, tmp)
    ensures Dest(Emit(e, n, tmp)[Ast.Size(e) - 1]) == Some(ResultTemp(e, n, tmp))
  {
    EmitLength(e, n, tmp);
    EmitStraightLine(e, n, tmp);
    EmitTemps(e, n, tmp);
    var k := Ast.Size(e) - 1;
    assert Dest(Emit(e, n, tmp)[k]) == Some(tmp(n + k));
  }

  /** When names decode back to counters, all temporaries written by one lowering are distinct. */
  lemma EmitDestsDistinct(e: Ast.Expr, n: nat, tmp: Naming, index: string -> nat)
    requires Decodes(index, tmp)
    ensures forall i, j :: 0 <= i < j < |Emit(e, n, tmp)| ==> Dest(Emit(e, n, tmp)[i]) != Dest(Emit(e, n, tmp)[j])
  {
    EmitLength(e, n, tmp);
    EmitTemps(e, n, tmp);
    var E := Emit(e, n, tmp);
    forall i, j | 0 <= i < j < |E|
      ensures Dest(E[i]) != Dest(E[j])
    {
      assert Dest(E[i]) == Some(tmp(n + i));
      assert Dest(E[j]) == Some(tmp(n + j));
      assert index(tmp(n + i)) != index(tmp(n + j));
    }
  }

  /**
   * For a binary node, the left operand's instructions come first, then the
   * right operand's, then one arithmetic instruction that reads both operand
   * results and writes a temporary numbered after every temporary the operands used.
   */
  lemma EmitLeftBeforeRight(e: Ast.Expr, n: nat, tmp: Naming)
    requires e.IsBinary()
    ensures |Emit(e, n, tmp)| == Ast.Size(e)
    ensures Emit(e, n, tmp)[..Ast.Size(e.left)] == Emit(e.left, n, tmp)
    ensures Emit(e, n, tmp)[Ast.Size(e.left)..Ast.Size(e) - 1] == Emit(e.right, n + Ast.Size(e.left), tmp)
    ensures Emit(e, n, tmp)[Ast.Size(e) - 1]
         == BinOp(OpOf(e), ResultTemp(e.left, n, tmp), ResultTemp(e.right, n + Ast.Size(e.left), tmp),
                  ResultTemp(e, n, tmp))
  {
    EmitBinary(e, n, tmp);
    EmitLength(e.left, n, tmp);
    EmitLength(e.right, n + Ast.Size(e.left), tmp);
    SplitThree(Emit(e.left, n, tmp), Emit(e.right, n + Ast.Size(e.left), tmp),
               BinOp(OpOf(e), ResultTemp(e.left, n, tmp), ResultTemp(e.right, n + Ast.Size(e.left), tmp),
                     tmp(n + Ast.Size(e.left) + Ast.Size(e.right))));
  }

  lemma SplitThree(a: seq<Instr>, b: seq<Instr>, c: Instr)
    ensures |a + b + [c]| == |a| + |b| + 1
    ensures (a + b + [c])[..|a|] == a
    ensures (a + b + [c])[|a|..|a| + |b|] == b
    ensures (a + b + [c])[|a| + |b|] == c
  {
    assert (a + b + [c])[..|a|] == a;
    assert (a + b + [c])[|a|..|a| + |b|] == b;
  }

  /** The names the instructions of `code` write. */
  function Written(code: seq<Instr>): set<string>
    decreases |code|
  {
    if |code| == 0 then {}
    else
      Written(code[..|code| - 1])
      + match Dest(code[|code| - 1]) case Some(d) => {d} case None => {}
  }

  /** A name is written by a concatenation iff one of its parts writes it. */
  lemma {:induction false} WrittenAppend(a: seq<Instr>, b: seq<Instr>)
    ensures Written(a + b) == Written(a) + Written(b)
    decreases |b|
  {
    if |b| == 0 {
      assert a + b == a;
    } else {
      var b' := b[..|b| - 1];
      assert (a + b)[..|a + b| - 1] == a + b';
      assert (a + b)[|a + b| - 1] == b[|b| - 1];
      WrittenAppend(a, b');
    }
  }

  /** The name the last instruction writes is among the names written. */
  lemma LastWritten(a: seq<Instr>, x: string)
    requires |a| > 0 && Dest(a[|a| - 1]) == Some(x)
    ensures x in Written(a)
  {
  }

  /** An arithmetic instruction reads only names in `written`; other instructions read no temporaries. */
  predicate OperandsIn(i: Instr, written: set<string>) {
    i.BinOp? ==> i.left in written && i.right in written
  }

  /** Every operand of every arithmetic instruction is written by an earlier instruction. */
  predicate OperandsDefined(code: seq<Instr>)
    decreases |code|
  {
    |code| == 0
    || (OperandsDefined(code[..|code| - 1]) && OperandsIn(code[|code| - 1], Written(code[..|code| - 1])))
  }

  lemma {:induction false} OperandsDefinedAppend(a: seq<Instr>, b: seq<Instr>)
    requires OperandsDefined(a) && OperandsDefined(b)
    ensures OperandsDefined(a + b)
    decreases |b|
  {
    if |b| == 0 {
      assert a + b == a;
    } else {
      var b' := b[..|b| - 1];
      assert (a + b)[..|a + b| - 1] == a + b';
      assert (a + b)[|a + b| - 1] == b[|b| - 1];
      OperandsDefinedAppend(a, b');
      WrittenAppend(a, b');
    }
  }

  lemma OperandsDefinedSnoc(c: seq<Instr>, i: Instr)
    requires OperandsDefined(c) && OperandsIn(i, Written(c))
    ensures OperandsDefined(c + [i])
  {
    assert (c + [i])[..|c|] == c;
  }

  /** Lowered code never reads a temporary before writing it. */
  lemma {:induction false} EmitOperandsDefined(e: Ast.Expr, n: nat, tmp: Naming)
    ensures OperandsDefined(Emit(e, n, tmp))
    decreases e
  {
    if e.IsBinary() {
      EmitOperandsDefined(e.left, n, tmp);
      EmitOperandsDefined(e.right, n + Ast.Size(e.left), tmp);
      BinaryOperandsDefined(e, n, tmp);
    } else {
      LeafOperandsDefined(e, n, tmp);
    }
  }

  lemma LeafOperandsDefined(e: Ast.Expr, n: nat, tmp: Naming)
    requires !e.IsBinary()
    ensures OperandsDefined(Emit(e, n, tmp))
  {
    EmitLeaf(e, n, tmp);
    assert Emit(e, n, tmp)[..0] == [];
    assert OperandsDefined(Emit(e, n, tmp)[..0]) && !Emit(e, n, tmp)[0].BinOp?;
  }

  lemma BinaryOperandsDefined(e: Ast.Expr, n: nat, tmp: Naming)
    requires e.IsBinary()
    requires OperandsDefined(Emit(e.left, n, tmp))
    requires OperandsDefined(Emit(e.right, n + Ast.Size(e.left), tmp))
    ensures OperandsDefined(Emit(e, n, tmp))
  {
    EmitBinary(e, n, tmp);
    EmitLastWrite(e.left, n, tmp);
    EmitLastWrite(e.right, n + Ast.Size(e.left), tmp);
    CombineOperandsDefined(Emit(e.left, n, tmp), Emit(e.right, n + Ast.Size(e.left), tmp), OpOf(e),
                           ResultTemp(e.left, n, tmp), ResultTemp(e.right, n + Ast.Size(e.left), tmp),
                           tmp(n + Ast.Size(e.left) + Ast.Size(e.right)));
  }

  /** The last instruction of a lowering writes its result temporary. */
  lemma EmitLastWrite(e: Ast.Expr, n: nat, tmp: Naming)
    ensures |Emit(e, n, tmp)| > 0
    ensures Dest(Emit(e, n, tmp)[|Emit(e, n, tmp)| - 1]) == Some(ResultTemp(e, n, tmp))
  {
    EmitShape(e, n, tmp);
  }

  /**
   * Two pieces of code that each define their operands before use, followed by
   * an instruction reading what the last instruction of each piece writes,
   * define their operands before use.
   */
  lemma CombineOperandsDefined(a: seq<Instr>, b: seq<Instr>, op: BinOp, x: string, y: string, d: string)
    requires OperandsDefined(a) && OperandsDefined(b)
    requires |a| > 0 && Dest(a[|a| - 1]) == Some(x)
    requires |b| > 0 && Dest(b[|b| - 1]) == Some(y)
    ensures OperandsDefined(a + b + [BinOp(op, x, y, d)])
  {
    OperandsDefinedAppend(a, b);
    WrittenAppend(a, b);
    LastWritten(a, x);
    LastWritten(b, y);
    OperandsDefinedSnoc(a + b, BinOp(op, x, y, d));
  }

  /** Closed form of the estimate of a lowered expression. */
  function ExprEnergy(e: Ast.Expr): nat {
    match e
    case Int(_, _) => 1
    case Var(_, _) => 5
    case Add(a, b) => ExprEnergy(a) + ExprEnergy(b) + 1
    case Sub(a, b) => ExprEnergy(a) + ExprEnergy(b) + 1
    case Mul(a, b) => ExprEnergy(a) + ExprEnergy(b) + 5
    case Div(a, b) => ExprEnergy(a) + ExprEnergy(b) + 40
  }

  lemma CombineEnergy(e: Ast.Expr, n: nat, tmp: Naming)
    requires e.IsBinary()
    ensures StraightLine(Combine(e, n, tmp))
    ensures TotalEnergy([Combine(e, n, tmp)]) == ExprEnergy(e) - ExprEnergy(e.left) - ExprEnergy(e.right)
  {
    var c := [Combine(e, n, tmp)];
    assert c[..0] == [];
  }

  /**
   * The estimate of lowered code depends only on the tree: literals cost 1 and
   * variable reads 5 whatever their width, and each operator its 64-bit price.
   */
  lemma {:induction false} EmitEnergy(e: Ast.Expr, n: nat, tmp: Naming)
    ensures AllStraightLine(Emit(e, n, tmp)) && TotalEnergy(Emit(e, n, tmp)) == ExprEnergy(e)
    decreases e
  {
    if e.IsBinary() {
      EmitEnergy(e.left, n, tmp);
      EmitEnergy(e.right, n + Ast.Size(e.left), tmp);
      BinaryEnergy(e, n, tmp);
    } else {
      LeafEnergy(e, n, tmp);
    }
  }

  lemma LeafEnergy(e: Ast.Expr, n: nat, tmp: Naming)
    requires !e.IsBinary()
    ensures AllStraightLine(Emit(e, n, tmp)) && TotalEnergy(Emit(e, n, tmp)) == ExprEnergy(e)
  {
    EmitLeaf(e, n, tmp);
    assert Emit(e, n, tmp)[..0] == [];
  }

  lemma BinaryEnergy(e: Ast.Expr, n: nat, tmp: Naming)
    requires e.IsBinary()
    requires AllStraightLine(Emit(e.left, n, tmp)) && TotalEnergy(Emit(e.left, n, tmp)) == ExprEnergy(e.left)
    requires AllStraightLine(Emit(e.right, n + Ast.Size(e.left), tmp))
             && TotalEnergy(Emit(e.right, n + Ast.Size(e.left), tmp)) == ExprEnergy(e.right)
    ensures AllStraightLine(Emit(e, n, tmp)) && TotalEnergy(Emit(e, n, tmp)) == ExprEnergy(e)
  {
    var A, B, C := Emit(e.left, n, tmp), Emit(e.right, n + Ast.Size(e.left), tmp), Combine(e, n, tmp);
    TotalEnergyAppend(A, B);
    CombineEnergy(e, n, tmp);
    TotalEnergyAppend(A + B, [C]);
    assert Emit(e, n, tmp) == A + B + [C];
  }

  /** How `Emit` and `ResultTemp` unfold on a binary node. */
  lemma EmitBinary(e: Ast.Expr, n: nat, tmp: Naming)
    requires e.IsBinary()
    ensures Ast.Size(e) == Ast.Size(e.left) + Ast.Size(e.right) + 1
    ensures ResultTemp(e, n, tmp) == tmp(n + Ast.Size(e.left) + Ast.Size(e.right))
    ensures Emit(e, n, tmp)
         == Emit(e.left, n, tmp) + Emit(e.right, n + Ast.Size(e.left), tmp)
            + [BinOp(OpOf(e), ResultTemp(e.left, n, tmp), ResultTemp(e.right, n + Ast.Size(e.left), tmp),
                     tmp(n + Ast.Size(e.left) + Ast.Size(e.right)))]
  {
    assert Ast.Size(e) == Ast.Size(e.left) + Ast.Size(e.right) + 1;
    assert n + Ast.Size(e) - 1 == n + Ast.Size(e.left) + Ast.Size(e.right);
  }

  /** A leaf emits one instruction, which writes the leaf's result temporary. */
  lemma EmitLeaf(e: Ast.Expr, n: nat, tmp: Naming)
    requires !e.IsBinary()
    ensures Ast.Size(e) == 1 && ResultTemp(e, n, tmp) == tmp(n)
    ensures Emit(e, n, tmp) == if e.Int? then [LoadConst(e.value, tmp(n), e.ty)] else [Move(e.name, tmp(n), e.ty)]
    ensures AllStraightLine(Emit(e, n, tmp))
  {
  }

  /**
   * Appending one instruction for a leaf at counter `n`, writing temporary
   * `t` = tmp(n), appends exactly the leaf's code and returns its result.
   */
  lemma LeafStep(e: Ast.Expr, n: nat, tmp: Naming, c0: seq<Instr>, t: string, i: Instr)
    requires !e.IsBinary() && t == tmp(n)
    requires i == if e.Int? then LoadConst(e.value, t, e.ty) else Move(e.name, t, e.ty)
    ensures c0 + [i] == c0 + Emit(e, n, tmp)
    ensures t == ResultTemp(e, n, tmp) && Ast.Size(e) == 1
  {
    EmitLeaf(e, n, tmp);
  }

  /**
   * Code grown by the left operand's code from counter `n`, then by the right
   * operand's code from counter `m`, then by one arithmetic instruction on
   * their results into tmp(m'), has grown by exactly the binary node's code.
   */
  lemma BinaryStep(e: Ast.Expr, n: nat, tmp: Naming,
                   c0: seq<Instr>, c1: seq<Instr>, c2: seq<Instr>, la: string, lb: string, rd: string)
    requires e.IsBinary()
    requires c1 == c0 + Emit(e.left, n, tmp) && c2 == c1 + Emit(e.right, n + Ast.Size(e.left), tmp)
    requires la == ResultTemp(e.left, n, tmp) && lb == ResultTemp(e.right, n + Ast.Size(e.left), tmp)
    requires rd == tmp(n + Ast.Size(e.left) + Ast.Size(e.right))
    ensures c2 + [BinOp(OpOf(e), la, lb, rd)] == c0 + Emit(e, n, tmp)
    ensures rd == ResultTemp(e, n, tmp)
  {
    EmitBinary(e, n, tmp);
    AppendSteps(c0, c1, c2, Emit(e.left, n, tmp), Emit(e.right, n + Ast.Size(e.left), tmp),
                BinOp(OpOf(e), la, lb, rd));
  }

  /** Code grown by `left`, then by `right`, then by `last` has grown by their concatenation. */
  lemma AppendSteps(c0: seq<Instr>, c1: seq<Instr>, c2: seq<Instr>, left: seq<Instr>, right: seq<Instr>, last: Instr)
    requires c1 == c0 + left && c2 == c1 + right
    ensures c2 + [last] == c0 + (left + right + [last])
  {
  }

  // ---------------------------------------------------------------------------
  // The lowering engine
  // ---------------------------------------------------------------------------

  /** One compilation: a temp counter and the code emitted so far. */
  class Lower {
    var nextTemp: nat
    var code: seq<Instr>

    constructor ()
      ensures nextTemp == 0 && code == []
    {
      nextTemp := 0;
      code := [];
    }

    /** Allocates the next temporary. */
    method Fresh() returns (t: string)
      modifies this
      ensures t == TempName(old(nextTemp))
      ensures nextTemp == old(nextTemp) + 1 && code == old(code)
    {
      t := "t" + NatToString(nextTemp);
      nextTemp := nextTemp + 1;
    }

    /**
     * Appends the code of `e` (and nothing else) and returns the temporary
     * holding its value; one temporary is allocated per node.
     */
    method LowerExpr(e: Ast.Expr) returns (r: string)
      modifies this
      ensures code == old(code) + Emit(e, old(nextTemp), TempName)
      ensures nextTemp == old(nextTemp) + Ast.Size(e)
      ensures r == ResultTemp(e, old(nextTemp), TempName)
      decreases e, 1
    {
      if e.Int? {
        ghost var n, c0 := nextTemp, code;
        var t := Fresh();
        code := code + [LoadConst(e.value, t, e.ty)];
        r := t;
        LeafStep(e, n, TempName, c0, t, LoadConst(e.value, t, e.ty));
      } else if e.Var? {
        ghost var n, c0 := nextTemp, code;
        var t := Fresh();
        code := code + [Move(e.name, t, e.ty)];
        r := t;
        LeafStep(e, n, TempName, c0, t, Move(e.name, t, e.ty));
      } else {
        r := LowerBinary(e);
      }
    }

    /** The binary case: left operand, right operand, then the operation. */
    method LowerBinary(e: Ast.Expr) returns (r: string)
      requires e.IsBinary()
      modifies this
      ensures code == old(code) + Emit(e, old(nextTemp), TempName)
      ensures nextTemp == old(nextTemp) + Ast.Size(e)
      ensures r == ResultTemp(e, old(nextTemp), TempName)
      decreases e, 0
    {
      ghost var n, c0 := nextTemp, code;
      var la := LowerExpr(e.left);
      ghost var c1 := code;
      var lb := LowerExpr(e.right);
      ghost var c2 := code;
      assert nextTemp == n + Ast.Size(e.left) + Ast.Size(e.right);
      var rd := Fresh();
      code := code + [BinOp(OpOf(e), la, lb, rd)];
      r := rd;
      BinaryStep(e, n, TempName, c0, c1, c2, la, lb, rd);
      EmitBinary(e, n, TempName);
    }
  }
}
