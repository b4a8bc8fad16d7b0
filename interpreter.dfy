// The IR interpreter: a program counter walks the instruction list, a store
// maps names to signed 64-bit values, labels are resolved by a pre-pass, and
// the result is the value last written.
//
// The store belongs to the interpreter object and survives from one run to
// the next. Integer overflow, which a debug build of the source turns into a
// panic, is an explicit Overflow outcome here; a run that would go on forever
// is cut off by a step budget (OutOfFuel).

module Interp {
  import Ast
  import opened Ir
  import opened Wrappers

  type Store = map<string, Ast.Int64>

  datatype Error =
    | UndefinedVariable(name: string)
    | DivisionByZero
    | UnknownLabel(target: string)
    | NoResult
    | NoInstructions
    | Overflow
    | OutOfFuel

  datatype Outcome = Ok(value: Ast.Int64) | Err(error: Error)

  /** The errors the source reports as messages (the other two are model-only). */
  predicate Reported(e: Error) {
    !(e.Overflow? || e.OutOfFuel?)
  }

  /** The message text of a reported error. */
  function Message(e: Error): string
    requires Reported(e)
  {
    match e
    case UndefinedVariable(x) => "Undefined variable: " + x
    case DivisionByZero => "Division by zero"
    case UnknownLabel(l) => "Unknown label: " + l
    case NoResult => "No result"
    case NoInstructions => "No instructions"
  }

  /** A message names its error: distinct reported errors have distinct messages. */
  lemma MessagesDistinct(e1: Error, e2: Error)
    requires Reported(e1) && Reported(e2)
    ensures Message(e1) == Message(e2) ==> e1 == e2
  {
    if Message(e1) == Message(e2) {
      var s := Message(e1);
      if e1.UndefinedVariable? && e2.UndefinedVariable? {
        assert e1.name == s[20..] == e2.name;
      } else if e1.UnknownLabel? && e2.UnknownLabel? {
        assert e1.target == s[15..] == e2.target;
      } else {
        assert s[0] == Message(e1)[0] == Message(e2)[0];
        assert |s| > 4 && s[2] == Message(e1)[2] == Message(e2)[2];
        assert s[3] == Message(e1)[3] == Message(e2)[3];
      }
    }
  }

  // ---------------------------------------------------------------------------
  // Arithmetic on 64-bit values
  // ---------------------------------------------------------------------------

  function Abs(x: int): nat {
    if x < 0 then -x else x
  }

  /**
   * Integer division rounding toward zero, as the source language's `/` on
   * integers does (Dafny's own `/` is Euclidean).
   */
  function TruncDiv(a: int, b: int): int
    requires b != 0
  {
    if (a < 0) == (b < 0) then Abs(a) / Abs(b) else -(Abs(a) / Abs(b))
  }

  /**
   * The quotient leaves a remainder smaller than the divisor that is zero or
   * has the sign of the dividend, and is never larger than the dividend.
   */
  lemma TruncDivRemainder(a: int, b: int)
    requires b != 0
    ensures Abs(a - TruncDiv(a, b) * b) < Abs(b)
    ensures a - TruncDiv(a, b) * b == 0 || (a - TruncDiv(a, b) * b < 0 <==> a < 0)
    ensures Abs(TruncDiv(a, b)) <= Abs(a)
  {
    TruncDivParts(a, b);
    EuclidNat(Abs(a), Abs(b));
  }

  /** The truncated quotient and its remainder, in terms of the magnitudes. */
  lemma TruncDivParts(a: int, b: int)
    requires b != 0
    ensures Abs(TruncDiv(a, b)) == Abs(a) / Abs(b)
    ensures a - TruncDiv(a, b) * b == if a < 0 then -(Abs(a) % Abs(b)) else Abs(a) % Abs(b)
  {
    var A, B := Abs(a), Abs(b);
    assert B > 0;
    var Q: int, R: int := A / B, A % B;
    assert A == Q * B + R && 0 <= R < B by { EuclidNat(A, B); }
    var t := TruncDiv(a, b);
    assert t == if (a < 0) == (b < 0) then Q else -Q;
    SignedRemainder(a, b, Q, R, t);
  }

  lemma EuclidNat(A: nat, B: nat)
    requires B > 0
    ensures A == (A / B) * B + A % B && 0 <= A % B < B && A / B <= A
  {
    MulAtLeast(A / B, B);
  }

  lemma MulAtLeast(q: int, B: int)
    requires q >= 0 && B >= 1
    ensures q * B >= q
  {
    assert q * B == q * (B - 1) + q;
    assert q * (B - 1) >= 0;
  }

  lemma SignedRemainder(a: int, b: int, q: int, r: int, t: int)
    requires b != 0 && Abs(a) == q * Abs(b) + r && 0 <= r < Abs(b)
    requires t == if (a < 0) == (b < 0) then q else -q
    ensures a - t * b == (if a < 0 then -r else r)
  {
    if b > 0 {
      assert q * b == q * Abs(b);
    } else {
      assert q * b == -(q * Abs(b));
    }
    assert (-q) * b == -(q * b);
  }

  /** On a non-negative dividend and a positive divisor both divisions agree. */
  lemma TruncDivNonNegative(a: int, b: int)
    requires a >= 0 && b > 0
    ensures TruncDiv(a, b) == a / b
  {
  }

  /** On a negative dividend they differ: -7 / 2 is -3, not -4. */
  lemma TruncDivRoundsTowardZero()
    ensures TruncDiv(-7, 2) == -3 && -7 / 2 == -4
  {
  }

  predicate InRange(x: int) {
    Ast.MinInt64 <= x <= Ast.MaxInt64
  }

  /** The exact value of an arithmetic instruction on unbounded integers. */
  function MathValue(op: BinOp, a: int, b: int): int
    requires op.Div? ==> b != 0
  {
    match op
    case Add(_) => a + b
    case Sub(_) => a - b
    case Mul(_) => a * b
    case Div(_) => TruncDiv(a, b)
  }

  /**
   * An arithmetic instruction on two stored values: a zero divisor is an
   * error, and so is a value outside the 64-bit range. The width tag of the
   * instruction plays no part.
   */
  function Arith(op: BinOp, a: Ast.Int64, b: Ast.Int64): (r: Outcome)
    ensures r == Err(DivisionByZero) <==> op.Div? && b == 0
    ensures r.Ok? <==> !(op.Div? && b == 0) && InRange(MathValue(op, a, b))
    ensures r.Ok? ==> r.value == MathValue(op, a, b)
    ensures r.Err? ==> r.error == DivisionByZero || r.error == Overflow
  {
    if op.Div? && b == 0 then Err(DivisionByZero)
    else
      var v := MathValue(op, a, b);
      if InRange(v) then Ok(v) else Err(Overflow)
  }

  /** The only quotient that overflows is the most negative value divided by -1. */
  lemma DivisionOverflow(t: Ast.Type, a: Ast.Int64, b: Ast.Int64)
    requires b != 0
    ensures Arith(Div(t), a, b) == Err(Overflow) <==> a == Ast.MinInt64 && b == -1
  {
    TruncDivRemainder(a, b);
    if a == Ast.MinInt64 && b == -1 {
      assert TruncDiv(a, b) == 0x8000_0000_0000_0000;
    }
  }

  predicate Holds(c: CmpIR, a: int, b: int) {
    match c
    case Eq => a == b
    case Ne => a != b
    case Lt => a < b
    case Le => a <= b
    case Gt => a > b
    case Ge => a >= b
  }

  /** A comparison stores 1 when it holds and 0 when it does not. */
  function Compare(c: CmpIR, a: int, b: int): (r: Ast.Int64)
    ensures r == 0 || r == 1
    ensures r == 1 <==> Holds(c, a, b)
  {
    if Holds(c, a, b) then 1 else 0
  }

  // ---------------------------------------------------------------------------
  // Label pre-pass
  // ---------------------------------------------------------------------------

  /** Every label of the program mapped to the index of its last occurrence. */
  function LabelTable(p: seq<Instr>): (t: map<string, nat>)
    ensures forall x :: x in t ==> t[x] < |p| && p[t[x]] == Label(x)
  {
    if |p| == 0 then map[]
    else
      var t := LabelTable(p[..|p| - 1]);
      assert forall x :: x in t ==> p[..|p| - 1][t[x]] == p[t[x]];
      if p[|p| - 1].Label? then t[p[|p| - 1].name := |p| - 1] else t
  }

  /**
   * A name is in the table exactly when the program has a label of that name,
   * and the table points at the last such label.
   */
  lemma {:induction false} LabelTableLast(p: seq<Instr>, x: string)
    ensures x in LabelTable(p) <==> exists i :: 0 <= i < |p| && p[i] == Label(x)
    ensures x in LabelTable(p) ==> forall j :: LabelTable(p)[x] < j < |p| ==> p[j] != Label(x)
  {
    if |p| > 0 {
      var q := p[..|p| - 1];
      LabelTableLast(q, x);
      if exists i :: 0 <= i < |p| && p[i] == Label(x) {
        var i :| 0 <= i < |p| && p[i] == Label(x);
        if i < |p| - 1 {
          assert q[i] == Label(x);
        }
      }
      if x in LabelTable(q) && p[|p| - 1] != Label(x) {
        forall j | LabelTable(p)[x] < j < |p|
          ensures p[j] != Label(x)
        {
          if j < |p| - 1 {
            assert q[j] == p[j];
          }
        }
      }
    }
  }

  // ---------------------------------------------------------------------------
  // One instruction
  // ---------------------------------------------------------------------------

  /** The names an instruction reads, in the order it looks them up. */
  function Reads(i: Instr): seq<string> {
    match i
    case LoadConst(_, _, _) => []
    case Move(s, _, _) => [s]
    case BinOp(_, l, r, _) => [l, r]
    case Cmp(_, l, r, _) => [l, r]
    case Label(_) => []
    case BrIf(c, _, _) => [c]
    case Jmp(_) => []
  }

  /** The first of `names` the store has no value for. */
  function FirstUnbound(names: seq<string>, vars: Store): (r: Option<string>)
    ensures r.None? <==> forall k :: 0 <= k < |names| ==> names[k] in vars
    ensures r.Some? ==> r.value in names && r.value !in vars
  {
    if |names| == 0 then None
    else if names[0] !in vars then Some(names[0])
    else FirstUnbound(names[1..], vars)
  }

  /** What executing one instruction does, before the program counter moves. */
  datatype Action =
    | Write(dest: string, value: Ast.Int64)
    | Skip
    | Branch(target: string)
    | Fault(error: Error)

  /** The effect of one instruction on the store. */
  function Effect(i: Instr, vars: Store): Action
  {
    match i
    case LoadConst(v, d, _) => Write(d, v)
    case Move(s, d, _) =>
      if s !in vars then Fault(UndefinedVariable(s)) else Write(d, vars[s])
    case BinOp(op, l, r, d) =>
      if l !in vars then Fault(UndefinedVariable(l))
      else if r !in vars then Fault(UndefinedVariable(r))
      else
        var res := Arith(op, vars[l], vars[r]);
        if res.Ok? then Write(d, res.value) else Fault(res.error)
    case Cmp(c, l, r, d) =>
      if l !in vars then Fault(UndefinedVariable(l))
      else if r !in vars then Fault(UndefinedVariable(r))
      else Write(d, Compare(c, vars[l], vars[r]))
    case Label(_) => Skip
    case BrIf(c, t, e) =>
      if c !in vars then Fault(UndefinedVariable(c))
      else Branch(if vars[c] != 0 then t else e)
    case Jmp(l) => Branch(l)
  }

  /**
   * Reading a name the store lacks fails with UndefinedVariable for the first
   * such name; only the instructions with a destination write, and only to
   * it; only the arithmetic instructions fail otherwise.
   */
  lemma EffectSpec(i: Instr, vars: Store)
    ensures FirstUnbound(Reads(i), vars).Some? ==>
              Effect(i, vars) == Fault(UndefinedVariable(FirstUnbound(Reads(i), vars).value))
    ensures Effect(i, vars).Fault? && Effect(i, vars).error.UndefinedVariable? ==>
              FirstUnbound(Reads(i), vars) == Some(Effect(i, vars).error.name)
    ensures Effect(i, vars).Fault? && !Effect(i, vars).error.UndefinedVariable? ==>
              i.BinOp? && i.left in vars && i.right in vars &&
              Arith(i.op, vars[i.left], vars[i.right]) == Err(Effect(i, vars).error)
    ensures Effect(i, vars).Write? ==> Dest(i) == Some(Effect(i, vars).dest)
    ensures FirstUnbound(Reads(i), vars).None? && Dest(i).Some? ==> Effect(i, vars).Write? || i.BinOp?
    ensures Effect(i, vars).Branch? <==> FirstUnbound(Reads(i), vars).None? && (i.BrIf? || i.Jmp?)
    ensures Effect(i, vars).Skip? <==> i.Label?
  {
  }

  /** The machine state between instructions. */
  datatype Config = Config(vars: Store, pc: nat, last: Option<string>)

  datatype StepResult = Next(next: Config) | Stop(error: Error)

  /** One step: apply the effect, then move to the next instruction or the branch target. */
  function Step(p: seq<Instr>, labels: map<string, nat>, c: Config): StepResult
    requires c.pc < |p|
  {
    match Effect(p[c.pc], c.vars)
    case Write(d, v) => Next(Config(c.vars[d := v], c.pc + 1, Some(d)))
    case Skip => Next(Config(c.vars, c.pc + 1, c.last))
    case Branch(t) =>
      if t in labels then Next(Config(c.vars, labels[t], c.last)) else Stop(UnknownLabel(t))
    case Fault(e) => Stop(e)
  }

  /**
   * A step changes the store only at the destination of its instruction,
   * which then becomes the last destination written, and moves on to the
   * next instruction; a label only moves on.
   */
  lemma StepFrame(p: seq<Instr>, labels: map<string, nat>, c: Config)
    requires c.pc < |p|
    ensures var s := Step(p, labels, c);
      s.Next? && Dest(p[c.pc]).None? ==> s.next.vars == c.vars && s.next.last == c.last
    ensures p[c.pc].Label? ==> Step(p, labels, c) == Next(Config(c.vars, c.pc + 1, c.last))
    ensures var s, d := Step(p, labels, c), Dest(p[c.pc]);
      s.Next? && d.Some? ==>
        d.value in s.next.vars && s.next.vars == c.vars[d.value := s.next.vars[d.value]] &&
        s.next.last == d && s.next.pc == c.pc + 1
  {
    EffectSpec(p[c.pc], c.vars);
  }

  // ---------------------------------------------------------------------------
  // A whole run
  // ---------------------------------------------------------------------------

  /** The outcome of a run and the store it leaves behind. */
  datatype Final = Final(result: Outcome, vars: Store)

  /** The end of a run: the value of the last destination written, if any. */
  function Finish(vars: Store, last: Option<string>): Final {
    match last
    case None => Final(Err(NoInstructions), vars)
    case Some(d) => if d in vars then Final(Ok(vars[d]), vars) else Final(Err(NoResult), vars)
  }

  /** Runs from `c` for at most `fuel` steps. */
  function Run(p: seq<Instr>, labels: map<string, nat>, c: Config, fuel: nat): Final
    decreases fuel
  {
    if c.pc >= |p| then Finish(c.vars, c.last)
    else if fuel == 0 then Final(Err(OutOfFuel), c.vars)
    else
      match Step(p, labels, c)
      case Stop(e) => Final(Err(e), c.vars)
      case Next(c') => Run(p, labels, c', fuel - 1)
  }

  /** A run of the whole program from the first instruction, with labels resolved first. */
  function Exec(p: seq<Instr>, vars: Store, fuel: nat): Final {
    Run(p, LabelTable(p), Config(vars, 0, None), fuel)
  }

  /** Once the last destination is in the store it stays there: keys are never removed. */
  lemma {:induction false} RunKeepsKeys(p: seq<Instr>, labels: map<string, nat>, c: Config, fuel: nat)
    requires c.last.Some? ==> c.last.value in c.vars
    ensures c.vars.Keys <= Run(p, labels, c, fuel).vars.Keys
    ensures Run(p, labels, c, fuel).result != Err(NoResult)
    decreases fuel
  {
    if c.pc < |p| && fuel > 0 && Step(p, labels, c).Next? {
      RunKeepsKeys(p, labels, Step(p, labels, c).next, fuel - 1);
    }
  }

  /** The "No result" error can never be reported. */
  lemma NoResultUnreachable(p: seq<Instr>, vars: Store, fuel: nat)
    ensures Exec(p, vars, fuel).result != Err(NoResult)
    ensures vars.Keys <= Exec(p, vars, fuel).vars.Keys
  {
    RunKeepsKeys(p, LabelTable(p), Config(vars, 0, None), fuel);
  }

  /**
   * A program none of whose instructions has a destination never produces a
   * value and leaves the store as it was. Its run ends with NoInstructions,
   * unless a jump target or a branch condition is missing or the step budget
   * runs out.
   */
  lemma {:induction false} NoWritesNoValue(p: seq<Instr>, labels: map<string, nat>, c: Config, fuel: nat)
    requires forall k :: 0 <= k < |p| ==> Dest(p[k]).None?
    requires c.last.None?
    ensures Run(p, labels, c, fuel).result.Err?
    ensures Run(p, labels, c, fuel).vars == c.vars
    ensures c.pc >= |p| ==> Run(p, labels, c, fuel).result == Err(NoInstructions)
    ensures var r := Run(p, labels, c, fuel).result;
      r == Err(NoInstructions) || r == Err(OutOfFuel) ||
      (r.Err? && (r.error.UnknownLabel? || r.error.UndefinedVariable?))
    decreases fuel
  {
    if c.pc < |p| && fuel > 0 && Step(p, labels, c).Next? {
      NoWritesNoValue(p, labels, Step(p, labels, c).next, fuel - 1);
    }
  }

  /** A division whose divisor is zero stops the run before anything is written. */
  lemma DivisionByZeroStops(p: seq<Instr>, labels: map<string, nat>, c: Config, fuel: nat)
    requires c.pc < |p| && p[c.pc].BinOp? && p[c.pc].op.Div?
    requires p[c.pc].left in c.vars && p[c.pc].right in c.vars && c.vars[p[c.pc].right] == 0
    ensures Run(p, labels, c, fuel + 1) == Final(Err(DivisionByZero), c.vars)
  {
  }

  /** A comparison writes 1 when it holds and 0 when it does not. */
  lemma ComparisonStoresTruth(p: seq<Instr>, labels: map<string, nat>, c: Config)
    requires c.pc < |p| && p[c.pc].Cmp?
    requires p[c.pc].left in c.vars && p[c.pc].right in c.vars
    ensures Step(p, labels, c).Next?
    ensures var i, v := p[c.pc], Step(p, labels, c).next.vars;
      i.dest in v && (v[i.dest] == 0 || v[i.dest] == 1) &&
      (v[i.dest] == 1 <==> Holds(i.cmp, c.vars[i.left], c.vars[i.right]))
  {
  }

  /**
   * A branch or jump goes to the last label of its target's name and changes
   * nothing else; when the program has no such label it fails with UnknownLabel.
   */
  lemma BranchTargets(p: seq<Instr>, c: Config, t: string)
    requires c.pc < |p| && Effect(p[c.pc], c.vars) == Branch(t)
    ensures p[c.pc].BrIf? ==> t == if c.vars[p[c.pc].cond] != 0 then p[c.pc].thenLabel else p[c.pc].elseLabel
    ensures p[c.pc].Jmp? ==> t == p[c.pc].target
    ensures Step(p, LabelTable(p), c).Next? <==> exists i :: 0 <= i < |p| && p[i] == Label(t)
    ensures Step(p, LabelTable(p), c).Next? ==>
              Step(p, LabelTable(p), c).next == Config(c.vars, LabelTable(p)[t], c.last)
    ensures Step(p, LabelTable(p), c).Next? ==>
              p[LabelTable(p)[t]] == Label(t) && forall j :: LabelTable(p)[t] < j < |p| ==> p[j] != Label(t)
    ensures Step(p, LabelTable(p), c).Stop? ==> Step(p, LabelTable(p), c).error == UnknownLabel(t)
  {
    LabelTableLast(p, t);
  }

  // ---------------------------------------------------------------------------
  // Programs without jumps
  // ---------------------------------------------------------------------------

  predicate NoJumps(p: seq<Instr>) {
    forall k :: 0 <= k < |p| ==> !p[k].BrIf? && !p[k].Jmp?
  }

  /** The state after straight-line code: still going, or stopped by an error. */
  datatype Flow = Going(vars: Store, last: Option<string>) | Failed(error: Error, vars: Store)

  /** Executes jump-free code once, front to back. */
  function Straight(code: seq<Instr>, vars: Store, last: Option<string>): Flow
    requires NoJumps(code)
    decreases |code|
  {
    if |code| == 0 then Going(vars, last)
    else
      match Effect(code[0], vars)
      case Write(d, v) => Straight(code[1..], vars[d := v], Some(d))
      case Skip => Straight(code[1..], vars, last)
      case Fault(e) => Failed(e, vars)
      case Branch(_) => assert false; Going(vars, last)
  }

  /** Continue with more code after a flow, unless it has failed. */
  function Then(f: Flow, code: seq<Instr>): Flow
    requires NoJumps(code)
  {
    if f.Failed? then f else Straight(code, f.vars, f.last)
  }

  /** The final result of a flow, as the end of a run reports it. */
  function Conclude(f: Flow): Final {
    match f
    case Going(vars, last) => Finish(vars, last)
    case Failed(e, vars) => Final(Err(e), vars)
  }

  /** Running two pieces of code one after the other is running their concatenation. */
  lemma {:induction false} StraightAppend(a: seq<Instr>, b: seq<Instr>, vars: Store, last: Option<string>)
    requires NoJumps(a) && NoJumps(b)
    ensures NoJumps(a + b)
    ensures Straight(a + b, vars, last) == Then(Straight(a, vars, last), b)
    decreases |a|
  {
    if |a| > 0 {
      assert (a + b)[0] == a[0];
      assert (a + b)[1..] == a[1..] + b;
      match Effect(a[0], vars)
      case Write(d, v) => StraightAppend(a[1..], b, vars[d := v], Some(d));
      case Skip => StraightAppend(a[1..], b, vars, last);
      case Fault(e) =>
      case Branch(_) =>
    } else {
      assert a + b == b;
    }
  }

  /**
   * With enough fuel, a program without jumps executes each of its remaining
   * instructions exactly once, in order.
   */
  lemma {:induction false} RunWithoutJumps(p: seq<Instr>, labels: map<string, nat>, c: Config, fuel: nat)
    requires NoJumps(p) && c.pc <= |p| && fuel >= |p| - c.pc
    ensures Run(p, labels, c, fuel) == Conclude(Straight(p[c.pc..], c.vars, c.last))
    decreases |p| - c.pc
  {
    if c.pc < |p| {
      var rest := p[c.pc..];
      assert rest[0] == p[c.pc];
      assert rest[1..] == p[c.pc + 1..];
      if Step(p, labels, c).Next? {
        RunWithoutJumps(p, labels, Step(p, labels, c).next, fuel - 1);
      }
    }
  }

  lemma ExecWithoutJumps(p: seq<Instr>, vars: Store, fuel: nat)
    requires NoJumps(p) && fuel >= |p|
    ensures Exec(p, vars, fuel) == Conclude(Straight(p, vars, None))
  {
    RunWithoutJumps(p, LabelTable(p), Config(vars, 0, None), fuel);
    assert p[0..] == p;
  }

  /** A step that stops ends the run with its error and the store as it was. */
  lemma RunStops(p: seq<Instr>, labels: map<string, nat>, c: Config, fuel: nat, e: Error)
    requires c.pc < |p| && fuel > 0 && Step(p, labels, c) == Stop(e)
    ensures Run(p, labels, c, fuel) == Final(Err(e), c.vars)
  {
  }

  /** A step that does not stop leaves the rest of the run to the next state. */
  lemma RunNext(p: seq<Instr>, labels: map<string, nat>, c: Config, fuel: nat)
    requires c.pc < |p| && fuel > 0 && Step(p, labels, c).Next?
    ensures Run(p, labels, c, fuel) == Run(p, labels, Step(p, labels, c).next, fuel - 1)
  {
  }

  /** The interpreter object: its store outlives each run. */
  class Interpreter {
    var vars: Store

    constructor ()
      ensures vars == map[]
    {
      vars := map[];
    }

    /** Runs `instrs` on the current store, stopping after `fuel` steps. */
    method Execute(instrs: seq<Instr>, fuel: nat) returns (r: Outcome)
      modifies this
      ensures Final(r, vars) == Exec(instrs, old(vars), fuel)
    {
      var labels: map<string, nat> := map[];
      for i := 0 to |instrs|
        invariant labels == LabelTable(instrs[..i])
      {
        assert instrs[..i + 1][..i] == instrs[..i];
        if instrs[i].Label? {
          labels := labels[instrs[i].name := i];
        }
      }
      assert instrs[..|instrs|] == instrs;
      var pc: nat := 0;
      var last: Option<string> := None;
      var budget := fuel;
      while pc < |instrs|
        invariant Run(instrs, labels, Config(vars, pc, last), budget) == Exec(instrs, old(vars), fuel)
        decreases budget
      {
        if budget == 0 {
          return Err(OutOfFuel);
        }
        ghost var c0 := Config(vars, pc, last);
        var stop;
        pc, last, stop := Dispatch(instrs, labels, pc, last);
        if stop.Some? {
          RunStops(instrs, labels, c0, budget, stop.value);
          return Err(stop.value);
        }
        RunNext(instrs, labels, c0, budget);
        budget := budget - 1;
      }
      match last
      case None =>
        r := Err(NoInstructions);
      case Some(d) =>
        if d in vars {
          r := Ok(vars[d]);
        } else {
          r := Err(NoResult);
        }
    }

    /**
     * Executes the instruction at `pc`: either updates the store and returns
     * the next program counter and last destination, or returns the error
     * that stops the run, leaving the store as it was.
     */
    method Dispatch(instrs: seq<Instr>, labels: map<string, nat>, pc: nat, last: Option<string>)
      returns (pc': nat, last': Option<string>, stop: Option<Error>)
      requires pc < |instrs|
      modifies this
      ensures stop.None? ==> Step(instrs, labels, Config(old(vars), pc, last)) == Next(Config(vars, pc', last'))
      ensures stop.Some? ==> Step(instrs, labels, Config(old(vars), pc, last)) == Stop(stop.value) && vars == old(vars)
    {
      pc', last', stop := pc, last, None;
      match instrs[pc] {
      case LoadConst(v, d, _) =>
        vars := vars[d := v];
        last' := Some(d);
        pc' := pc + 1;
      case Move(s, d, _) =>
        if s !in vars {
          return pc, last, Some(UndefinedVariable(s));
        }
        vars := vars[d := vars[s]];
        last' := Some(d);
        pc' := pc + 1;
      case BinOp(op, l, rr, d) =>
        if l !in vars {
          return pc, last, Some(UndefinedVariable(l));
        }
        if rr !in vars {
          return pc, last, Some(UndefinedVariable(rr));
        }
        var res := Arith(op, vars[l], vars[rr]);
        if res.Err? {
          return pc, last, Some(res.error);
        }
        vars := vars[d := res.value];
        last' := Some(d);
        pc' := pc + 1;
      case Cmp(c, l, rr, d) =>
        if l !in vars {
          return pc, last, Some(UndefinedVariable(l));
        }
        if rr !in vars {
          return pc, last, Some(UndefinedVariable(rr));
        }
        vars := vars[d := Compare(c, vars[l], vars[rr])];
        last' := Some(d);
        pc' := pc + 1;
      case Label(_) =>
        pc' := pc + 1;
      case BrIf(c, t, e) =>
        if c !in vars {
          return pc, last, Some(UndefinedVariable(c));
        }
        var target := if vars[c] != 0 then t else e;
        if target !in labels {
          return pc, last, Some(UnknownLabel(target));
        }
        pc' := labels[target];
      case Jmp(l) =>
        if l !in labels {
          return pc, last, Some(UnknownLabel(l));
        }
        pc' := labels[l];
      }
    }
  }
}
