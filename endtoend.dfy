// Lowering followed by interpretation computes what the expression means:
// the value of its tree, evaluated left operand first with checked 64-bit
// arithmetic, or the first error that evaluation meets.

module EndToEnd {
  import Ast
  import opened Ir
  import opened Wrappers
  import opened Lowering
  import opened Interp

  /** The meaning of an expression in a store, evaluating the left operand first. */
  function Eval(e: Ast.Expr, env: Store): Outcome
    decreases e
  {
    if e.Int? then Ok(e.value)
    else if e.Var? then
      if e.name in env then Ok(env[e.name]) else Err(UndefinedVariable(e.name))
    else Apply(OpOf(e), Eval(e.left, env), Eval(e.right, env))
  }

  /** Combines the outcomes of two operands: the left operand's error first, then the right's. */
  function Apply(op: BinOp, a: Outcome, b: Outcome): Outcome {
    if a.Err? then a else if b.Err? then b else Arith(op, a.value, b.value)
  }

  /** Two stores agree on a name: both lack it, or both hold the same value. */
  predicate SameAt(s1: Store, s2: Store, x: string) {
    (x in s1 <==> x in s2) && (x in s1 ==> s1[x] == s2[x])
  }

  /** Evaluation looks only at the variables of the expression. */
  lemma {:induction false} EvalReadsOnlyItsVars(e: Ast.Expr, s1: Store, s2: Store)
    requires forall x :: x in Ast.VarsOf(e) ==> SameAt(s1, s2, x)
    ensures Eval(e, s1) == Eval(e, s2)
    decreases e
  {
    if e.IsBinary() {
      assert Ast.VarsOf(e) == Ast.VarsOf(e.left) + Ast.VarsOf(e.right);
      EvalReadsOnlyItsVars(e.left, s1, s2);
      EvalReadsOnlyItsVars(e.right, s1, s2);
    } else if e.Var? {
      assert e.name in Ast.VarsOf(e);
    }
  }

  /** Lowered code never jumps. */
  lemma EmitNoJumps(e: Ast.Expr, n: nat, tmp: Naming)
    ensures NoJumps(Emit(e, n, tmp))
  {
    EmitStraightLine(e, n, tmp);
    StraightLineHasNoJumps(Emit(e, n, tmp));
  }

  lemma StraightLineHasNoJumps(p: seq<Instr>)
    requires AllStraightLine(p)
    ensures NoJumps(p)
  {
    forall k | 0 <= k < |p|
      ensures !p[k].BrIf? && !p[k].Jmp?
    {
      assert StraightLine(p[k]);
    }
  }

  /** Jump-free code leaves every name that none of its instructions writes as it was. */
  lemma {:induction false} StraightFrame(code: seq<Instr>, vars: Store, last: Option<string>, x: string)
    requires NoJumps(code)
    requires forall k :: 0 <= k < |code| ==> Dest(code[k]) != Some(x)
    ensures SameAt(Straight(code, vars, last).vars, vars, x)
    decreases |code|
  {
    if |code| > 0 {
      EffectSpec(code[0], vars);
      assert forall k :: 0 <= k < |code| - 1 ==> code[1..][k] == code[k + 1];
      match Effect(code[0], vars)
      case Write(d, v) =>
        StraightFrame(code[1..], vars[d := v], Some(d), x);
      case Skip =>
        StraightFrame(code[1..], vars, last, x);
      case Fault(_) =>
      case Branch(_) =>
    }
  }

  /** The code lowered from `e` at counter `n` writes none of the names that are not its temporaries. */
  lemma EmitFrame(e: Ast.Expr, n: nat, tmp: Naming, vars: Store, last: Option<string>, x: string)
    requires forall k: nat :: n <= k < n + Ast.Size(e) ==> tmp(k) != x
    ensures NoJumps(Emit(e, n, tmp))
    ensures SameAt(Straight(Emit(e, n, tmp), vars, last).vars, vars, x)
  {
    var code := Emit(e, n, tmp);
    EmitShape(e, n, tmp);
    StraightLineHasNoJumps(code);
    forall k | 0 <= k < |code|
      ensures Dest(code[k]) != Some(x)
    {
      assert Dest(code[k]) == Some(tmp(n + k));
    }
    StraightFrame(code, vars, last, x);
  }

  /**
   * Flow `f` computed outcome `v` into name `r`: on success `r` holds the
   * value and is the last destination written; on failure the flow stopped
   * with the same error.
   */
  predicate Computes(f: Flow, v: Outcome, r: string) {
    (v.Ok? ==> f.Going? && f.last == Some(r) && r in f.vars && f.vars[r] == v.value) &&
    (v.Err? ==> f.Failed? && f.error == v.error)
  }

  /**
   * Running the lowered code of `e` computes `Eval(e)` into the result
   * temporary. The temporaries must be distinct from each other and from
   * the variables of `e`.
   */
  lemma {:induction false} LowerCorrect(e: Ast.Expr, n: nat, tmp: Naming, index: string -> nat,
                                        vars: Store, last: Option<string>)
    requires Decodes(index, tmp)
    requires forall k: nat :: tmp(k) !in Ast.VarsOf(e)
    ensures NoJumps(Emit(e, n, tmp))
    ensures Computes(Straight(Emit(e, n, tmp), vars, last), Eval(e, vars), ResultTemp(e, n, tmp))
    decreases e, 2
  {
    if e.IsBinary() {
      OperandVars(e, tmp);
      EmitBinary(e, n, tmp);
      EvalBinary(e, vars);
      LowerBinaryCorrect(e, n, tmp, index, vars, last);
    } else {
      LeafCorrect(e, n, tmp, vars, last);
    }
  }

  /** A literal or a variable lowers to one instruction that computes its value. */
  lemma LeafCorrect(e: Ast.Expr, n: nat, tmp: Naming, vars: Store, last: Option<string>)
    requires !e.IsBinary()
    requires forall k: nat :: tmp(k) !in Ast.VarsOf(e)
    ensures NoJumps(Emit(e, n, tmp))
    ensures Computes(Straight(Emit(e, n, tmp), vars, last), Eval(e, vars), ResultTemp(e, n, tmp))
  {
    EmitLeaf(e, n, tmp);
    var i := Emit(e, n, tmp)[0];
    StraightLineHasNoJumps(Emit(e, n, tmp));
    EffectSpec(i, vars);
    assert Emit(e, n, tmp)[1..] == [];
  }

  /**
   * The binary case, stated on the pieces of the emitted code: the left
   * operand's code, the right operand's code and the final arithmetic
   * instruction together compute the left-first combination of the
   * operands' outcomes.
   */
  lemma {:induction false} LowerBinaryCorrect(e: Ast.Expr, n: nat, tmp: Naming, index: string -> nat,
                                              vars: Store, last: Option<string>)
    requires e.IsBinary()
    requires Decodes(index, tmp)
    requires forall k: nat :: tmp(k) !in Ast.VarsOf(e.left)
    requires forall k: nat :: tmp(k) !in Ast.VarsOf(e.right)
    ensures NoJumps(Emit(e.left, n, tmp) + Emit(e.right, n + Ast.Size(e.left), tmp)
                    + [BinOp(OpOf(e), ResultTemp(e.left, n, tmp), ResultTemp(e.right, n + Ast.Size(e.left), tmp),
                             tmp(n + Ast.Size(e.left) + Ast.Size(e.right)))])
    ensures Computes(Straight(Emit(e.left, n, tmp) + Emit(e.right, n + Ast.Size(e.left), tmp)
                              + [BinOp(OpOf(e), ResultTemp(e.left, n, tmp), ResultTemp(e.right, n + Ast.Size(e.left), tmp),
                                       tmp(n + Ast.Size(e.left) + Ast.Size(e.right)))], vars, last),
                     Apply(OpOf(e), Eval(e.left, vars), Eval(e.right, vars)),
                     tmp(n + Ast.Size(e.left) + Ast.Size(e.right)))
    decreases e, 1
  {
    LowerCorrect(e.left, n, tmp, index, vars, last);
    EmitNoJumps(e.right, n + Ast.Size(e.left), tmp);
    if Eval(e.left, vars).Ok? {
      RightOperandCorrect(e, n, tmp, index, vars, last);
    }
    SequenceStep(Emit(e.left, n, tmp), Emit(e.right, n + Ast.Size(e.left), tmp),
                 OpOf(e), ResultTemp(e.left, n, tmp), ResultTemp(e.right, n + Ast.Size(e.left), tmp),
                 tmp(n + Ast.Size(e.left) + Ast.Size(e.right)), vars, last, Eval(e.left, vars), Eval(e.right, vars));
  }

  /**
   * After the left operand's code, the right operand's code computes the
   * right operand's value and keeps the left operand's result.
   */
  lemma {:induction false} RightOperandCorrect(e: Ast.Expr, n: nat, tmp: Naming, index: string -> nat,
                                               vars: Store, last: Option<string>)
    requires e.IsBinary()
    requires Decodes(index, tmp)
    requires forall k: nat :: tmp(k) !in Ast.VarsOf(e.right)
    requires NoJumps(Emit(e.left, n, tmp)) && Straight(Emit(e.left, n, tmp), vars, last).Going?
    ensures NoJumps(Emit(e.right, n + Ast.Size(e.left), tmp))
    ensures Computes(Straight(Emit(e.right, n + Ast.Size(e.left), tmp),
                              Straight(Emit(e.left, n, tmp), vars, last).vars,
                              Straight(Emit(e.left, n, tmp), vars, last).last),
                     Eval(e.right, vars), ResultTemp(e.right, n + Ast.Size(e.left), tmp))
    ensures SameAt(Straight(Emit(e.right, n + Ast.Size(e.left), tmp),
                            Straight(Emit(e.left, n, tmp), vars, last).vars,
                            Straight(Emit(e.left, n, tmp), vars, last).last).vars,
                   Straight(Emit(e.left, n, tmp), vars, last).vars, ResultTemp(e.left, n, tmp))
    decreases e, 0
  {
    var f1 := Straight(Emit(e.left, n, tmp), vars, last);
    RightOperandUnaffected(e, n, tmp, vars, last);
    LowerCorrect(e.right, n + Ast.Size(e.left), tmp, index, f1.vars, f1.last);
    LeftResultKept(e, n, tmp, index, f1.vars, f1.last);
  }

  lemma EvalBinary(e: Ast.Expr, env: Store)
    requires e.IsBinary()
    ensures Eval(e, env) == Apply(OpOf(e), Eval(e.left, env), Eval(e.right, env))
  {
  }

  /**
   * Code that computes `va` into `ra`, then code that computes `vb` into `rb`
   * without touching `ra`, then one arithmetic instruction, computes the
   * left-first combination of the two outcomes into `rd`.
   */
  lemma SequenceStep(L: seq<Instr>, R: seq<Instr>, op: BinOp, ra: string, rb: string, rd: string,
                     vars: Store, last: Option<string>, va: Outcome, vb: Outcome)
    requires NoJumps(L) && NoJumps(R)
    requires Computes(Straight(L, vars, last), va, ra)
    requires va.Ok? ==>
      Computes(Straight(R, Straight(L, vars, last).vars, Straight(L, vars, last).last), vb, rb)
    requires va.Ok? ==>
      SameAt(Straight(R, Straight(L, vars, last).vars, Straight(L, vars, last).last).vars,
             Straight(L, vars, last).vars, ra)
    ensures NoJumps(L + R + [BinOp(op, ra, rb, rd)])
    ensures Computes(Straight(L + R + [BinOp(op, ra, rb, rd)], vars, last), Apply(op, va, vb), rd)
  {
    var C := BinOp(op, ra, rb, rd);
    NoJumpsAppend(L, R);
    assert NoJumps([C]) by {
      assert [C][0] == C;
    }
    StraightAppend(L, R, vars, last);
    StraightAppend(L + R, [C], vars, last);
    var f1 := Straight(L, vars, last);
    if va.Ok? {
      ThenCombine(f1, R, op, ra, rb, rd, va.value, vb);
    }
  }

  /**
   * After a flow that holds value `a` in `ra`, code that computes `b` into
   * `rb` without touching `ra`, followed by one arithmetic instruction,
   * computes the arithmetic on the two values into `rd`.
   */
  lemma ThenCombine(f1: Flow, R: seq<Instr>, op: BinOp, ra: string, rb: string, rd: string,
                    a: Ast.Int64, b: Outcome)
    requires NoJumps(R)
    requires f1.Going? && ra in f1.vars && f1.vars[ra] == a
    requires Computes(Straight(R, f1.vars, f1.last), b, rb)
    requires SameAt(Straight(R, f1.vars, f1.last).vars, f1.vars, ra)
    ensures NoJumps([BinOp(op, ra, rb, rd)])
    ensures Computes(Then(Then(f1, R), [BinOp(op, ra, rb, rd)]),
                     if b.Err? then b else Arith(op, a, b.value), rd)
  {
    var C := BinOp(op, ra, rb, rd);
    var f2 := Straight(R, f1.vars, f1.last);
    assert Then(f1, R) == f2;
    if f2.Going? {
      assert ra in f2.vars && f2.vars[ra] == a;
      assert rb in f2.vars && f2.vars[rb] == b.value;
      var res := Arith(op, a, b.value);
      assert [C][1..] == [];
      assert Effect(C, f2.vars) == if res.Ok? then Write(rd, res.value) else Fault(res.error);
      if res.Ok? {
        assert Straight([C], f2.vars, f2.last) == Straight([], f2.vars[rd := res.value], Some(rd));
      } else {
        assert Straight([C], f2.vars, f2.last) == Failed(res.error, f2.vars);
      }
    }
  }

  /** A name no temporary takes is not a temporary in either operand. */
  lemma OperandVars(e: Ast.Expr, tmp: Naming)
    requires e.IsBinary()
    requires forall k: nat :: tmp(k) !in Ast.VarsOf(e)
    ensures forall k: nat :: tmp(k) !in Ast.VarsOf(e.left)
    ensures forall k: nat :: tmp(k) !in Ast.VarsOf(e.right)
  {
    assert Ast.VarsOf(e) == Ast.VarsOf(e.left) + Ast.VarsOf(e.right);
  }

  /** Concatenating jump-free code gives jump-free code. */
  lemma NoJumpsAppend(a: seq<Instr>, b: seq<Instr>)
    requires NoJumps(a) && NoJumps(b)
    ensures NoJumps(a + b)
  {
    assert forall k :: 0 <= k < |a + b| ==> (a + b)[k] == if k < |a| then a[k] else b[k - |a|];
  }

  /** The left operand's code leaves the variables of the right operand alone. */
  lemma RightOperandUnaffected(e: Ast.Expr, n: nat, tmp: Naming, vars: Store, last: Option<string>)
    requires e.IsBinary()
    requires forall k: nat :: tmp(k) !in Ast.VarsOf(e.right)
    ensures NoJumps(Emit(e.left, n, tmp))
    ensures Eval(e.right, Straight(Emit(e.left, n, tmp), vars, last).vars) == Eval(e.right, vars)
  {
    EmitShape(e.left, n, tmp);
    StraightLineHasNoJumps(Emit(e.left, n, tmp));
    var f1 := Straight(Emit(e.left, n, tmp), vars, last);
    forall x | x in Ast.VarsOf(e.right)
      ensures SameAt(f1.vars, vars, x)
    {
      EmitFrame(e.left, n, tmp, vars, last, x);
    }
    EvalReadsOnlyItsVars(e.right, f1.vars, vars);
  }

  /** The right operand's code leaves the left operand's result temporary alone. */
  lemma LeftResultKept(e: Ast.Expr, n: nat, tmp: Naming, index: string -> nat,
                        vars: Store, last: Option<string>)
    requires e.IsBinary() && Decodes(index, tmp)
    ensures NoJumps(Emit(e.right, n + Ast.Size(e.left), tmp))
    ensures SameAt(Straight(Emit(e.right, n + Ast.Size(e.left), tmp), vars, last).vars, vars,
                   ResultTemp(e.left, n, tmp))
  {
    var m := n + Ast.Size(e.left);
    forall k: nat | m <= k < m + Ast.Size(e.right)
      ensures tmp(k) != tmp(m - 1)
    {
      assert index(tmp(k)) == k && index(tmp(m - 1)) == m - 1;
    }
    EmitFrame(e.right, m, tmp, vars, last, tmp(m - 1));
  }

  /**
   * The whole pipeline: lowering an expression from a fresh counter and
   * executing the result, with at least one step per node, returns the
   * expression's value or the error its evaluation meets. The expression
   * must not use the names of the temporaries.
   */
  lemma CompileAndRun(e: Ast.Expr, vars: Store, fuel: nat)
    requires forall k: nat :: TempName(k) !in Ast.VarsOf(e)
    requires fuel >= Ast.Size(e)
    ensures Exec(Emit(e, 0, TempName), vars, fuel).result == Eval(e, vars)
  {
    TempIndexDecodesTempName();
    CompileAndRunWith(e, TempName, TempIndex, vars, fuel);
  }

  /** The same for any naming of the temporaries that never repeats a name. */
  lemma CompileAndRunWith(e: Ast.Expr, tmp: Naming, index: string -> nat, vars: Store, fuel: nat)
    requires Decodes(index, tmp)
    requires forall k: nat :: tmp(k) !in Ast.VarsOf(e)
    requires fuel >= Ast.Size(e)
    ensures Exec(Emit(e, 0, tmp), vars, fuel).result == Eval(e, vars)
  {
    LowerCorrect(e, 0, tmp, index, vars, None);
    EmitLength(e, 0, tmp);
    ExecWithoutJumps(Emit(e, 0, tmp), vars, fuel);
  }

  /**
   * Without the requirement on variable names the pipeline can be wrong: in
   * `1 + t0` the literal is stored into t0 before the variable t0 is read.
   */
  lemma TempNameClash()
    ensures Eval(ClashExample(), map["t0" := 5]) == Ok(6)
    ensures Exec(Emit(ClashExample(), 0, TempName), map["t0" := 5], 3).result == Ok(2)
  {
    assert TempName(0) == "t0";
    assert TempName(1) == "t1";
    assert TempName(2) == "t2";
    var code := Emit(ClashExample(), 0, TempName);
    assert code == [LoadConst(1, "t0", Ast.I64), Move("t0", "t1", Ast.I64), BinOp(Add(Ast.I64), "t0", "t1", "t2")];
    ExecWithoutJumps(code, map["t0" := 5], 3);
  }

  function ClashExample(): Ast.Expr {
    Ast.Add(Ast.Int(1, Ast.I64), Ast.Var("t0", Ast.I64))
  }

  /** `(3 + 4) * 2` lowers to two constants, an addition, a constant and a multiplication. */
  lemma ThreePlusFourTimesTwoCode()
    ensures var t := TempName;
      Emit(Example(), 0, t)
      == [LoadConst(3, t(0), Ast.I64), LoadConst(4, t(1), Ast.I64), BinOp(Add(Ast.I64), t(0), t(1), t(2)),
          LoadConst(2, t(3), Ast.I64), BinOp(Mul(Ast.I64), t(2), t(3), t(4))]
  {
    var t := TempName;
    var sum := Ast.Add(Ast.Int(3, Ast.I64), Ast.Int(4, Ast.I64));
    assert Emit(sum, 0, t) == [LoadConst(3, t(0), Ast.I64), LoadConst(4, t(1), Ast.I64), BinOp(Add(Ast.I64), t(0), t(1), t(2))];
  }

  /** ... and running that code yields 14. */
  lemma ThreePlusFourTimesTwoValue()
    ensures Exec(Emit(Example(), 0, TempName), map[], 5).result == Ok(14)
  {
    var e := Example();
    assert Ast.VarsOf(e) == {};
    assert Eval(e.left, map[]) == Ok(7);
    CompileAndRun(e, map[], 5);
  }

  function Example(): Ast.Expr {
    Ast.Mul(Ast.Add(Ast.Int(3, Ast.I64), Ast.Int(4, Ast.I64)), Ast.Int(2, Ast.I64))
  }
}
