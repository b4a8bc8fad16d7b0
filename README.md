# econocode back end, modelled in Dafny

econocode is a small compiler for integer arithmetic expressions that reports
an estimate of the energy its output would use. This project models its back
end, which has three parts:

- **The IR** (`ir.dfy`, module `Ir`).
  - The energy price table of machine-level operations (`IROp`).
  - The three-address instruction set `Instr` that the interpreter runs.
  - The one-line text form of each instruction.
- **The lowering engine** (`lower.dfy`, module `Lowering`).
  - The class `Lower` keeps a temporary counter and the code emitted so far. It translates an expression tree into instructions, with one fresh temporary `t<k>` per node, left operand before right.
  - The estimate `EstimateEnergy` is a loop that sums a width-blind price per instruction.
  - What lowering appends is specified by the function `Emit` of the tree and the counter. Its properties are proved about `Emit`, and the methods of `Lower` are proved to append exactly `Emit`.
- **The interpreter** (`interpreter.dfy`, module `Interp`).
  - The class `Interpreter` owns a store from names to signed 64-bit values.
  - Its method `Execute` first builds a label table, then runs a program-counter loop. It returns the value of the last destination written, or an error.
  - `Execute` is proved equal to the step function `Run`. The properties of the machine are proved about `Run` and `Step`.

`endtoend.dfy` (module `EndToEnd`) ties the two halves together. Lowering an
expression and executing the code returns the expression's value under
left-to-right, checked 64-bit evaluation (`Eval`), or the first error that
evaluation meets. `ast.dfy` holds the typed expression tree, `decimal.dfy` the
decimal rendering of numbers, and `wrappers.dfy` an `Option` type.

The lowering engine (src/lower.rs) is written against an older, untyped
instruction set. The model lowers to the current typed instructions instead:
- `LoadConst` and `Move` copy the width tag of their literal or variable.
- An arithmetic instruction carries the static width of its left operand.

The estimate stays width-blind, as the source's is.

Three behaviours of the code are worth stating plainly:
- The interpreter's store is a field that is never cleared, so it survives from one `Execute` to the next.
- The "No result" error cannot occur. A run that writes nothing and reaches the end reports "No instructions".
- There are no conditionals, sequences or input instructions in the tree or in lowering.

## Model

| member | source | states |
|---|---|---|
| Ir.EnergyCost | src/ir.rs:46-85 | every operation has a price, and every price is at least one unit |
| Ir.Width64NeverCheaper | src/ir.rs:49-70 | the 64-bit form of an arithmetic operation never costs less than the 32-bit form, and costs the same exactly for integer add and sub |
| Ir.FloatCostsMore | src/ir.rs:49-70 | a float operation costs strictly more than the integer operation of the same kind and width |
| Ir.DivMostExpensive | src/ir.rs:49-70 | at each width, in both families, division costs strictly more than every other arithmetic kind |
| Ir.MemoryAndConstantCosts | src/ir.rs:73-83 | constants cost 1; a general memory load costs more than any variable load or store; a 64-bit load or store costs one more than its 32-bit form |
| Ir.Dest | src/ir.rs:103-111 | exactly LoadConst, Move, BinOp and Cmp have a destination |
| Decimal.IntToString | src/ir.rs:116 | a constant prints as digits, with a leading minus sign exactly when it is negative; `Decimal.IntToStringCanonical` and `Decimal.IntToStringSpells` pin down the exact text |
| Decimal.NatToStringNoLeadingZero | src/ir.rs:116 | a rendered number starts with '0' only when it is zero |
| Decimal.IntToStringCanonical | src/ir.rs:116 | a printed constant is canonical: after the optional sign come only digits, at least one, and the first digit is '0' only for zero, which prints as the single digit "0" |
| Decimal.IntToStringSpells | src/ir.rs:116 | the digits of a printed constant read back as its magnitude |
| Ir.Render | src/ir.rs:113-136 | the text form of each instruction; `Ir.RenderOneLine`, `Ir.RenderDeterminesCmp` and `Ir.RenderDeterminesArith` state its properties |
| Ir.Listing | src/main.rs:51-53 | the printed program, each instruction's text followed by a line break; `Ir.ListingLineCount` states its line count |
| Ir.RenderOneLine | src/ir.rs:113-136 | an instruction whose names contain no line break renders as a single line |
| Ir.CmpMnemonicsDistinct | src/ir.rs:128 | the six comparison mnemonics are pairwise distinct |
| Ir.RenderDeterminesCmp | src/ir.rs:127-130 | over the same operands, the rendered text of a comparison determines its kind |
| Ir.RenderDeterminesArith | src/ir.rs:118-126 | over the same operands, the rendered text of an arithmetic instruction determines its kind and its width tag |
| Ir.ListingLineCount | src/main.rs:51-53 | the printed program has exactly one line per instruction |
| Lowering.Cost | src/lower.rs:6-14 | the width-blind price of one instruction; `Lowering.CostIsWidth64Price` relates it to the energy table |
| Lowering.TotalEnergy | src/lower.rs:3-17 | the estimate of a program is at least its number of instructions |
| Lowering.TotalEnergyAppend | src/lower.rs:3-17 | the estimate is additive over concatenation, so it prices the text and not how often code would run |
| Lowering.EstimateEnergy | src/lower.rs:3-17 | the accumulating loop returns the sum of the per-instruction prices |
| Lowering.CostIsWidth64Price | src/lower.rs:7-12 | each instruction is charged the 64-bit price from the energy table, never less than its 32-bit price; a variable read costs one more than the 32-bit load |
| Decimal.ParseNatToString | src/lower.rs:32 | reading the decimal digits of a number back gives the number |
| Lowering.TempName | src/lower.rs:32 | the name `t<k>` of the k-th temporary; `Lowering.TempNameInjective` and `Lowering.TempIndexOfTempName` state that it never repeats |
| Lowering.TempIndexOfTempName | src/lower.rs:31-35 | the counter can be read back from the temporary's name `t<k>` |
| Lowering.TempNameInjective | src/lower.rs:31-35 | two counters give the same temporary name iff they are equal |
| Lowering.TempIndexDecodesTempName | src/lower.rs:31-35 | the naming of temporaries never repeats a name |
| Lowering.Lower.constructor | src/lower.rs:27-29 | a new engine starts with counter 0 and no code |
| Lowering.Lower.Fresh | src/lower.rs:31-35 | returns `t` followed by the current counter, increments the counter by one and leaves the code alone |
| Lowering.Lower.LowerExpr | src/lower.rs:37-64 | only appends to the code, exactly the code `Emit` gives for the tree; advances the counter by the number of nodes; returns the node's result temporary |
| Lowering.Lower.LowerBinary | src/lower.rs:49-61 | the same for a binary node: left operand's code, right operand's code, then the operation |
| Lowering.Emit | src/lower.rs:37-64 | the code appended for a tree from a counter; `Lowering.Lower.LowerExpr` is proved to append exactly it, and the `Lowering.Emit*` lemmas below state its shape |
| Lowering.EmitLeaf | src/lower.rs:39-48 | a literal emits one LoadConst and a variable one Move, into the next fresh temporary, which is returned |
| Lowering.EmitLength | src/lower.rs:37-64 | lowering emits exactly one instruction per node |
| Lowering.EmitTemps | src/lower.rs:37-64 | the k-th emitted instruction writes the k-th fresh temporary |
| Lowering.EmitShape | src/lower.rs:37-64 | one instruction per node, all priced by the estimate, the k-th writing the k-th temporary, and the last writing the returned temporary |
| Lowering.EmitLastWrite | src/lower.rs:41-61 | the returned name is the destination of the last appended instruction |
| Lowering.EmitDestsDistinct | src/lower.rs:31-64 | all temporaries written by one lowering are pairwise distinct |
| Lowering.EmitLeftBeforeRight | src/lower.rs:49-61 | for a binary node, the left operand's code comes first, then the right's, then one operation reading both results into a temporary numbered after all of theirs |
| Lowering.EmitOperandsDefined | src/lower.rs:49-61 | every operand of every emitted arithmetic instruction is written by an earlier instruction |
| Lowering.EmitStraightLine | src/lower.rs:37-64 | lowering emits only LoadConst, Move and BinOp, the instructions the estimate prices |
| Lowering.EmitEnergy | src/lower.rs:3-17 | the estimate of lowered code is a function of the tree alone: 1 per literal, 5 per variable, and 1, 1, 5 or 40 per add, sub, mul or div |
| Interp.Interpreter.constructor | src/interpreter.rs:9-13 | a new interpreter has an empty store |
| Interp.Interpreter.Execute | src/interpreter.rs:15-65 | the label pass and the program-counter loop return the outcome, and leave the store, that `Exec` defines for the program on the old store |
| Interp.LabelTable | src/interpreter.rs:17-20 | every entry of the label table points at a Label instruction of that name |
| Interp.LabelTableLast | src/interpreter.rs:17-20 | a name is in the table iff the program has a label of that name, and the table holds its last occurrence |
| Interp.MessagesDistinct | src/interpreter.rs:27-64 | distinct reported errors have distinct messages |
| Interp.Arith | src/interpreter.rs:35-40 | a zero divisor is a DivisionByZero error; otherwise the result is the exact sum, difference, product or truncated quotient when it fits in 64 bits, and Overflow when it does not |
| Interp.TruncDiv | src/interpreter.rs:39 | the quotient rounded toward zero; `Interp.TruncDivRemainder`, `Interp.TruncDivNonNegative` and `Interp.TruncDivRoundsTowardZero` state its properties |
| Interp.TruncDivRemainder | src/interpreter.rs:39 | the quotient rounds toward zero: the remainder is smaller than the divisor and is zero or has the dividend's sign |
| Interp.TruncDivParts | src/interpreter.rs:39 | the quotient's magnitude is the quotient of the magnitudes, and the remainder is the remainder of the magnitudes carrying the dividend's sign |
| Interp.TruncDivNonNegative | src/interpreter.rs:39 | on a non-negative dividend and a positive divisor the quotient is the ordinary one |
| Interp.TruncDivRoundsTowardZero | src/interpreter.rs:39 | -7 / 2 is -3, where Euclidean division gives -4 |
| Interp.DivisionOverflow | src/interpreter.rs:39 | the only overflowing quotient is the most negative value divided by -1 |
| Interp.DivisionByZeroStops | src/interpreter.rs:39 | a division by zero stops the run before anything is written |
| Interp.Compare | src/interpreter.rs:48 | a comparison yields 1 when it holds and 0 when it does not |
| Interp.ComparisonStoresTruth | src/interpreter.rs:45-52 | a Cmp on bound operands stores 0 or 1 in its destination, 1 exactly when the comparison holds |
| Interp.Effect | src/interpreter.rs:24-61 | what one instruction does to the store before the counter moves; `Interp.EffectSpec` states its properties |
| Interp.Step | src/interpreter.rs:24-61 | one step of the machine; `Interp.StepFrame`, `Interp.BranchTargets` and `Interp.Interpreter.Dispatch` state its properties |
| Interp.Interpreter.Dispatch | src/interpreter.rs:24-61 | executing the instruction at the counter updates the store, counter and last destination exactly as `Step` does, or returns the error `Step` stops with and leaves the store as it was |
| Interp.EffectSpec | src/interpreter.rs:24-61 | reading an unbound name fails with UndefinedVariable for the first such name; only instructions with a destination write, and only to it; only arithmetic fails otherwise; only branches and jumps branch; only labels skip |
| Interp.StepFrame | src/interpreter.rs:25-53 | a writing step changes the store only at its destination, makes it the last destination and advances the counter by one; a label only advances it |
| Interp.BranchTargets | src/interpreter.rs:54-61 | BrIf chooses the then-label on a nonzero condition and the else-label otherwise; a branch goes to the table's entry for that name, which is the last label of that name, and changes nothing else, or fails with UnknownLabel when there is none |
| Interp.Finish | src/interpreter.rs:64 | the end of a run: the value of the last destination, or NoInstructions when nothing was written; `Interp.NoResultUnreachable` shows its "No result" case never happens |
| Interp.Run | src/interpreter.rs:23-64 | the program-counter loop from a state with a step budget; `Interp.Interpreter.Execute` is proved equal to it, and the lemmas below state its properties |
| Interp.Exec | src/interpreter.rs:15-64 | a whole run: label pass, then `Run` from the first instruction with no last destination |
| Interp.RunKeepsKeys | src/interpreter.rs:23-64 | a run never removes a name from the store and never ends with NoResult |
| Interp.NoResultUnreachable | src/interpreter.rs:64 | the "No result" error is never reported |
| Interp.NoWritesNoValue | src/interpreter.rs:22-64 | a program that writes nothing never yields a value and leaves the store unchanged; its run ends with NoInstructions unless a label or branch condition is missing or the step budget runs out |
| Interp.StraightAppend | src/interpreter.rs:23-62 | running jump-free code a then b is running a + b |
| Interp.RunWithoutJumps | src/interpreter.rs:23-62 | with one step per instruction, a program without jumps runs each remaining instruction once, in order, and terminates |
| Interp.ExecWithoutJumps | src/interpreter.rs:15-65 | the same for a whole run from the first instruction |
| EndToEnd.EmitNoJumps | src/lower.rs:37-64 | lowered code never branches or jumps |
| EndToEnd.LowerCorrect | src/lower.rs:37-64 | running the lowered code of a tree computes its value into the returned temporary, or stops with the error its evaluation meets |
| EndToEnd.CompileAndRunWith | src/lower.rs:37-64 | for any naming of temporaries that never repeats a name and avoids the tree's variables, lowering then executing returns the tree's value or error |
| EndToEnd.CompileAndRun | src/lower.rs:37-64 | the same for the engine's own `t<k>` names, from a fresh engine |
| EndToEnd.TempNameClash | src/lower.rs:31-35 | without that requirement the result can be wrong: `1 + t0` with t0 = 5 evaluates to 6 but the lowered code returns 2 |
| EndToEnd.ThreePlusFourTimesTwoCode | src/lower.rs:37-64 | `(3 + 4) * 2` lowers to two constants, an add, a constant and a mul |
| EndToEnd.ThreePlusFourTimesTwoValue | src/interpreter.rs:23-64 | running that code yields 14 |

## Left out

- The command line, file reading and writing and standard output (src/main.rs): I/O. The only part kept is the one-line-per-instruction listing, as `Ir.Listing`.
- The lexer (src/lexer.rs) and the generated parser: foreign generated code. The model starts from the expression tree.
- src/lib.rs: module wiring only.
- The float payloads of `FConst32` and `FConst64`: only their price is modelled.
- Rust `String` and `HashMap` internals: names are Dafny strings and the store is a `map`.
- Interp.Interpreter.Execute:
  - it takes a step budget `fuel` and reports `OutOfFuel` when the budget runs out; the source has no budget and can loop forever on a backward jump;
  - overflow of `+`, `-`, `*` and of the most negative value divided by -1 is an `Overflow` error outcome. The source panics on all four in a debug build. In a release build `+`, `-` and `*` wrap, while the division still panics.
- Lowering.Lower.Fresh: the counter is an unbounded `nat`; the machine-word counter of the source is not modelled.
- Lowering.EstimateEnergy: the total is an unbounded `nat`; 32-bit overflow of the source's total is not modelled.
- EndToEnd.CompileAndRun: requires that no variable of the expression is spelled like a temporary (`t0`, `t1`, ...). The temporaries share the store with the program's variables, and `EndToEnd.TempNameClash` shows a wrong result when this requirement does not hold.
- The `Emit` lemmas are stated for any naming of temporaries. The engine itself always uses `t<k>`.
- Lowering never emits `Cmp`, `Label`, `BrIf` or `Jmp`, because the tree has no comparison or control-flow nodes. These instructions are modelled only in the interpreter.
