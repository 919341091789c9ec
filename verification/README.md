# A verified model of the tp2cc translator

tp2cc translates Pascal (the Free Pascal and Turbo Pascal dialects) to C++. Most of it produces
text; this project models the parts that compute something with a meaning to keep, over abstract
syntax instead of strings, and proves what they keep. `dafny verify dfyconfig.toml` checks the whole
project (Dafny 4.11).

## What is modelled

**Statements** (`Pascal`, `Cxx`, `Lowering`, `Simulation`, `Branches`, `Preservation`, `Strictness`,
`Departures`, `StatementLaws`, `Binders`, `Iteration`, `ForLoops`, `Theorems`, `Labels`, `Jumps`,
`SelectorNames`, `Diagnostics`, `Emitter`). `Pascal` gives the structured statements a big-step
meaning, `Cxx` gives one to the emitted C++: blocks, forward gotos to generated labels, scope
guards, try and catch. Fuel is consumed by loop iterations alone, alike on both sides, so equality at
every fuel value is equality of results and of divergence. `Lowering` is the translation as a function;
`Emitter.EmitStmts` is the translator as it runs, a recursive walk over counters, label stacks, scope
tables and a sink, and is proved to produce that function's code and to restore every stack and table.
The meaning of a finally part (run once, on every way out) and of an except part (first matching handler,
else part, or the same exception again) is `Run` in `Pascal`; preservation carries it to the C++ side. A
*strict* run reports where the translation is known to depart; `Departures` tells from a statement's text that it
cannot.

**Integer constants** (`Carriers`, `ConstInts`, `ConstExprs`, `ArithmeticCarriers`, `OrdinalSteps`,
`CarrierWidths`, `CutConstants`, `CheckedTrees`, `NamedConstants`, `LexicalConstants`, `ConstEvaluator`). The
folder's constants are a signed 64-bit value, a 64-bit pattern and a carrier. Arithmetic on them, conversion,
comparison, `succ`/`pred`, the selection of carriers for generated arithmetic, division and comparison,
folding through named constants, and the enum ordinal cache. `ConstEvaluator.Evaluator` is the folder as it
runs, with its visiting set, overflow flag, cache and in-progress set; its reference is unlimited unfolding
without cache or cycle check.

**Overload choice** (`Overloads`), **metaclass tables** (`Metaclasses`, `MetaclassTables`, `MetaclassOffers`),
**storage addresses** (`StorageAddresses`), **scope save and restore** (`ScopeStates`, `Visibility`,
`ScopeMachine`) and **structural type equality** (`TypeEquality`). Where the source loops over mutable state
the model has methods, each proved equal to a specification function that the lemmas are about.

## Where the code does not do what one would expect

Each of these is a lemma; the exact condition is proved beside it, or the entry says what the condition leaves open.

- A finally part that writes the result slot after `exit` loses the write (`Theorems.FinallyWritesResult`), and one
  that raises terminates the program (`Theorems.FinallyRaiseTerminates`); the condition for both is
  `Theorems.FinallyExact`. Handlers are not offered an object that is no exception: it escapes, or
  runs the else part (`Theorems.ForeignExceptionEscapes`, `Theorems.ForeignTakesElse`, condition
  `Theorems.DispatchExact`).
- A `for` that is entered with its final value outside the control variable's carrier does not end unless the
  body leaves it (condition `ForLoops.ForEndsIff`); one whose first value alone is outside ends, but starts from
  the converted value (condition `ForLoops.ForWalks`).
- A cast to a narrow signed type cuts the pattern of a negative constant to the low bits, and arithmetic takes
  such a constant for another integer: `shortint(255) + 1` is reported as an overflow
  (`ConstInts.CastThenAddOverflows`), while `shortint(255) - shortint(254)` happens to be right
  (`CutConstants.CutExamples`). Which constants are cut is `ConstInts.ConvertReads`; when each operator is right on
  them is `CutConstants.FoldRightIff`. Ordinal steps leave the same kind of constant and misread it: with all
  checks on, `pred(pred(-127))` over shortint folds to 127 (`OrdinalSteps.StepsDoNotCompose`, condition
  `OrdinalSteps.CheckedStepRightIff`).
- Unary minus works on the signed view and is exact only for magnitudes below 2^63 (`ConstInts.FoldNegateExact`).
- The range test on a step over unsigned 64-bit storage skips the lower bound (`OrdinalSteps.WidePredEscapes`,
  condition `OrdinalSteps.WideStepLeavesDomainIff`).
- Having no unsigned 64-bit operand at the leaves does not make an arithmetic tree safe on a 64-bit target,
  because the sum of two narrow unsigned operands is itself bound to unsigned 64 bits
  (`ArithmeticCarriers.NarrowLeavesCanGoWrong`); on a 32-bit target native unsigned operands wrap silently.
  Two conditions are exact: per pair of carriers, for all values, `ArithmeticCarriers.ArithmeticIsExactIff` and
  `ArithmeticCarriers.DivisionKeepsOperandsIff`; and for whole trees, for given values,
  `CheckedTrees.TreeHonestIff`. The two for whole trees and all values, from intervals
  (`CheckedTrees.IntervalRunIsExact`) and from carriers alone (`ArithmeticCarriers.CheckedRunIsExact`), are
  sufficient only: they do not see that two operands depend on one variable.
- The initializer of a constant is unfolded in the scope of use: a name in it is found where Pascal means it if and
  only if it is not declared again nearer (`LexicalConstants.SameFindIff`, `LexicalConstants.CapturedName`). Where
  none is, values are what Pascal means (`LexicalConstants.FoldingIsLexical`); values may agree elsewhere too, since
  two declarations can have one value.

## Model

| member | source | states |
|---|---|---|
| Theorems.LoweringPreserves | src/emit_stmts.cc:1314-1406 | for every statement, store, handler context and fuel: the emitted goto-and-label code ends with the same store and the matching outcome, wherever the strict run meets no departure |
| Theorems.StructuredPreserved | src/emit_stmts.cc:1314-1406 | the same outright for every statement without try: no condition but that the run keeps Pascal's own rules |
| Theorems.ProperPreserved | src/emit_stmts.cc:226-341 | the same outright with try, where finally parts are silent and handlers can be offered exceptions only, both told from the text |
| Departures.TryFreeIsProper | src/emit_stmts.cc:1314-1406 | a statement without try is proper, whatever its expressions do |
| Departures.MeetingIsAllowed | src/emit_stmts.cc:226-341 | a statement that meets the static demand never departs, keeps the result slot where it must be silent, and raises only exceptions where it must |
| Theorems.FunctionPreserved | src/emit_procs.cc:225-295 | calling the generated function gives the Pascal function's value, variables and exceptions, wherever the strict run of its body meets no departure |
| Theorems.RoutinePreserved | src/emit_procs.cc:225-295 | the same outright for every routine with a proper body |
| Theorems.ForLoopVisits | src/emit_stmts.cc:832-868 | the generated `for` runs the body's meaning once for each value from first to last in order, bounds evaluated once, `continue` included, wherever the strict run meets no departure |
| Theorems.SetLoopVisits | src/emit_stmts.cc:1223-1291 | the generated set for-in runs the body's meaning once for each member between the element bounds, ascending, wherever the strict run meets no departure |
| Theorems.ProperForVisits | src/emit_stmts.cc:832-868 | ForLoopVisits for proper statements, with no condition on the run |
| Theorems.ProperSetVisits | src/emit_stmts.cc:1223-1291 | SetLoopVisits for proper statements, with no condition on the run |
| Theorems.GeneratedLoopEnds | src/emit_stmts.cc:832-868 | a proper `for` over values or a set whose body ends from every store ends in the generated code too |
| ForLoops.ForWalks | src/emit_stmts.cc:845-862 | with the final value in the carrier the generated `for` visits the walk from the converted first value, which is the list between the bounds iff the first value is in the carrier too |
| ForLoops.ForEndsIff | src/emit_stmts.cc:845-862 | around a body that completes and leaves the control variable alone the generated `for` ends iff nothing lies between its bounds or the final value is in the carrier |
| ForLoops.EmptyForEndsIff | src/emit_stmts.cc:845-862 | in particular around an empty body |
| ForLoops.OutOfCarrierHangs | src/emit_stmts.cc:852-862 | entered with a final value outside the carrier, such a loop never ends |
| Theorems.FinallyExact | src/emit_stmts.cc:226-249 | a try-finally is translated faithfully if and only if its finally part never ends, completes leaving the result slot alone after `exit`, or exits with the result already exited with |
| Theorems.FinallyWritesResult | src/emit_stmts.cc:564-584 | `try exit(1) finally result := 2 end` returns 2 in Pascal and 1 in the generated code |
| Theorems.FinallyRaiseTerminates | src/emit_stmts.cc:229-249 | `try finally raise o end` raises in Pascal and terminates the generated program |
| Theorems.ForeignExceptionEscapes | src/emit_stmts.cc:270-341 | an object that is no exception passes every handler of a try without an else part |
| Theorems.ForeignTakesElse | src/emit_stmts.cc:332-341 | with an else part it runs that part where Pascal runs the handler: 2 instead of 1 in the smallest example |
| Theorems.DispatchExact | src/emit_stmts.cc:253-341 | both sides take up a raised object at the same handler, else part or outer place iff it is an exception or no handler is due, and each does what stands there |
| Preservation.Preserve | src/emit_stmts.cc:1314-1406 | the simulation behind the theorem, for every statement inside any surrounding loops and handlers |
| Preservation.PreserveFinally | src/emit_stmts.cc:226-249 | the scope guard runs the finally part on every way out of the protected part, and then that way out goes on |
| Preservation.PreserveExcept | src/emit_stmts.cc:253-341 | an exception of the protected part runs the first matching handler, the else part, or goes on; exceptions of a handler are not caught again |
| Binders.HandlerVariable | src/emit_stmts.cc:300-325 | for every try whose raised object is taken by a handler with a variable: after the handler that name has the value it had at the raise, or none, and every other variable, the result and the way of ending are as the handler's body left them |
| Binders.HandlerWithoutVariable | src/emit_stmts.cc:300-325 | a handler without a variable ends as its body does, started in the store at the raise |
| Binders.LocalVariable | src/emit_stmts.cc:304-313 | the same for the local variable the generated block declares: gone at the closing brace, all else as the block left it |
| Binders.HiddenVariableReturns | src/emit_stmts.cc:304-313 | a handler's variable hides one of the same name and gives it back: the smallest input |
| StatementLaws.FinallyRuns | src/emit_stmts.cc:226-249 | the finally part runs once after any end of the protected part, which goes on with the variables it left, or gives way to its own end |
| StatementLaws.FinallyDepartsIff | src/emit_stmts.cc:229-249 | a strict run departs at a finally part iff that jumps, raises, or writes the result slot after an exit |
| StatementLaws.HandlersDepart | src/emit_stmts.cc:253-341 | a strict run departs where a handler is due for an object that is no exception; where none is due the else part runs or the object goes on |
| StatementLaws.SelectorDecides | src/emit_stmts.cc:745-830 | case runs the first arm that lists the value, alone or between the ends of a range, else the else part |
| Preservation.PreserveCase | src/emit_stmts.cc:777-830 | the if-chain runs the arm Pascal selects, and break and continue inside it reach the enclosing loop |
| Branches.ArmConditionHolds | src/emit_stmts.cc:745-775 | an arm's emitted condition holds exactly for the numbers and ranges it lists |
| Branches.CaseChainRuns | src/emit_stmts.cc:802-825 | the chain runs the code of the first arm that lists the selector's value, else the else code |
| Branches.HandlerChainRuns | src/emit_stmts.cc:277-325 | the cast chain runs the code of the first handler whose class the exception belongs to |
| Branches.RethrowUnlessHandled | src/emit_stmts.cc:330-330 | the rethrow behind the chain happens exactly if no block of it was entered |
| Simulation.WhileSimulates | src/emit_stmts.cc:1349-1365 | a while loop and its lowering agree round by round, break and continue through its own labels |
| Simulation.RepeatSimulates | src/emit_stmts.cc:1367-1384 | the same for repeat: the condition is tested after a round or a continue |
| Simulation.ForSimulates | src/emit_stmts.cc:852-862 | the same for the endless loop of a `for`, whose step never wraps between bounds in the carrier |
| Simulation.SetSimulates | src/emit_stmts.cc:1264-1285 | the same for the loop over a set's element range |
| Iteration.ForVisits | src/emit_stmts.cc:832-868 | a `for` equals its expansion over the list of values between its bounds |
| Iteration.SetVisits | src/emit_stmts.cc:1223-1291 | a set for-in runs the body for exactly the members between the bounds, ascending |
| Iteration.EachEnds | src/emit_stmts.cc:832-868 | running a body for a list of values ends if the body ends from every store, each time with the fuel it needs there |
| Iteration.LoopEnds | src/emit_stmts.cc:832-868 | so a `for`, counting or over a set, ends |
| Iteration.WalkIsValuesIff | src/emit_stmts.cc:870-887 | stepping in the carrier from the converted first value lists the values between the bounds iff the first is in range |
| Strictness.StrictConfirms | src/emit_stmts.cc:226-341 | a strict run that reports no departure is the ordinary Pascal run |
| Labels.LabelsDefinedOnce | src/emit_stmts.cc:1349-1384 | a statement's code defines each label of the loops numbered inside it exactly once and no other label |
| Jumps.ScopedIffJumpsOk | src/emit_stmts.cc:546-563 | the emitted jumps are legal C++ if and only if break and continue stand in loops and none leaves a finally part |
| Jumps.ScopedIsSafe | src/emit_stmts.cc:546-563 | legal code never ends in a jump that nothing around it catches |
| Jumps.LegalRoutineIsSafe | src/emit_stmts.cc:1314-1406 | a routine with legal jumps never ends in a stray jump or in code C++ rejects |
| Lowering.FresherName | src/emit_stmts.cc:777-783 | the search for a selector name terminates: each try leaves fewer names in scope that could collide |
| SelectorNames.SelectorsAreFresh | src/emit_stmts.cc:777-800 | no selector the translation declares has the name of a local in scope, of the variable of a handler around it, or of the selector of a case around it |
| SelectorNames.DigitsDenote | src/emit_stmts.cc:777-783 | the numbers in generated names are decimal, without leading zeros |
| SelectorNames.CaseNamesDiffer | src/emit_stmts.cc:777-783 | so cases with different numbers have different names to start from |
| Diagnostics.LowerReports | src/emit_stmts.cc:214-224 | the translation reports every raise without an object that stands in no handler or else part, once each, and nothing else |
| Diagnostics.CleanIffNoStrayRaise | src/emit_stmts.cc:214-224 | so a routine is translated without a report iff it has none |
| Emitter.EmitStmts.PushLoop | src/emit_stmts.cc:32-45 | entering a loop body pushes its own pair of labels |
| Emitter.EmitStmts.PopLoop | src/emit_stmts.cc:46-54 | leaving it pops them again |
| Emitter.EmitStmts.FreshSelector | src/emit_stmts.cc:777-783 | the selector name found is not in local scope |
| Emitter.EmitStmts.EmitStmt | src/emit_stmts.cc:1314-1504 | the emitter appends exactly the lowered code, advances the counters as the lowering says, and restores stacks, depth and scopes |
| Emitter.EmitStmts.EmitSimple | src/emit_stmts.cc:546-584 | break and continue jump to the top of the stacks; exit fills the result slot and returns |
| Emitter.EmitStmts.EmitIf | src/emit_stmts.cc:1334-1348 | as EmitStmt, for if |
| Emitter.EmitStmts.EmitLoop | src/emit_stmts.cc:1349-1365 | as EmitStmt, for while and the two kinds of for |
| Emitter.EmitStmts.EmitRepeat | src/emit_stmts.cc:1367-1384 | as EmitStmt, for repeat |
| Emitter.EmitStmts.EmitCase | src/emit_stmts.cc:777-830 | as EmitStmt, for case: the selector's scope and type entries are erased on return |
| Emitter.EmitStmts.EmitTryFinally | src/emit_stmts.cc:229-249 | as EmitStmt, for try-finally |
| Emitter.EmitStmts.EmitTryExcept | src/emit_stmts.cc:251-341 | as EmitStmt, for try-except |
| Emitter.EmitStmts.EmitHandler | src/emit_stmts.cc:304-323 | a handler's binder is in scope for its body only, and the handler depth returns |
| ConstInts.DivisionLaw | src/emit_analysis.cc:2776-2789 | truncating quotient and remainder satisfy the division law and are the only pair that does |
| ConstInts.FoldBinaryComputes | src/emit_analysis.cc:2699-2789 | on any two constants a step computes the exact result of what it reads them as; nothing with the flag iff unrepresentable, nothing without it on a zero divisor |
| ConstInts.FoldBinaryExact | src/emit_analysis.cc:2686-2789 | on constants whose views agree, that is the mathematical operator, and the result's views agree |
| ConstInts.OperandIsMeaning | src/emit_analysis.cc:2699-2707 | arithmetic reads an operand correctly iff its views agree modulo 2^64 |
| ConstInts.FoldNegateExact | src/emit_analysis.cc:2672-2684 | unary minus is exact iff the magnitude is below 2^63; nothing at 2^63; wrong above |
| ConstInts.FromLiteralOk | src/emit_analysis.cc:2661-2671 | literals carry their value and agreeing views |
| CarrierWidths.ValueWidth | src/emit_analysis.cc:2657-2671 | a folded value gets the narrowest carrier that holds it, the signed one where both of a width do |
| ConstInts.WrapConverts | src/emit_analysis.cc:1354-1387 | exactly one value of a type is congruent to a given integer |
| ConstInts.ConvertExact | src/emit_analysis.cc:1354-1387 | conversion gives that value |
| ConstInts.ConvertReads | src/emit_analysis.cc:1365-1387 | conversion keeps the views in agreement iff the target is unsigned or 64-bit wide or the result is not negative |
| ConstInts.FitsExact | src/emit_analysis.cc:1665-1688 | the range test is exact on every constant the folder makes |
| ConstInts.FitsIsIdentity | src/emit_analysis.cc:1665-1688 | it holds iff conversion changes nothing |
| ConstInts.ConvertTwice | src/emit_analysis.cc:1354-1387 | narrowing in two stages is narrowing in one |
| ConstInts.ReconvertExact | src/emit_analysis.cc:1389-1410 | reconverting a negative narrow constant is right iff the new type is no wider |
| ConstInts.CastThenAddOverflows | src/emit_analysis.cc:1383-1410 | `shortint(255) + 1` is reported as an overflow |
| CutConstants.FoldRightIff | src/emit_analysis.cc:2699-2789 | for every two constants the folder makes and every operator: the exact integer comes back, or nothing where there is none, if and only if the stated condition on meanings and widths holds |
| CutConstants.AddRight | src/emit_analysis.cc:2733-2760 | a sum is right iff both views agree or the sum is unrepresentable |
| CutConstants.SubRight | src/emit_analysis.cc:2761-2764 | a difference is right iff both views agree, both are cut to one width, or it is unrepresentable |
| CutConstants.MulRight | src/emit_analysis.cc:2773-2782 | a product is right iff both views agree, a factor is zero, or it is unrepresentable |
| CutConstants.DivRight | src/emit_analysis.cc:2783-2786 | a quotient is right iff both views agree, the divisor is zero, or the magnitudes are as `DividesRight` says |
| CutConstants.ModRight | src/emit_analysis.cc:2787-2788 | a remainder is right iff both views agree, the divisor is zero, or the magnitudes are as `RemainsRight` says |
| CutConstants.CutExamples | src/emit_analysis.cc:1383-1410 | `shortint(255) - shortint(254)` and `shortint(255) mod 2` fold correctly, `shortint(255) + 1` does not |
| ConstInts.NegateRepairs | src/emit_analysis.cc:2677-2684 | negating such a constant is right and restores agreement |
| ConstInts.CompareExact | src/emit_analysis.cc:1747-1787 | constant comparison is mathematical comparison |
| ConstExprs.FoldExact | src/emit_analysis.cc:2653-2789 | an expression all of whose nodes stay in the domain folds to its exact value, unflagged |
| ConstExprs.FoldPlain | src/emit_analysis.cc:2686-2789 | on trees of the five operators and whole casts: a constant iff every node is representable, the flag iff some node is not |
| ConstExprs.FlaggedMeansNothing | src/emit_analysis.cc:2653-2789 | a raised flag never comes with a constant |
| ArithmeticCarriers.SafePairIsIdeal | src/emit_analysis.cc:1593-1633 | on safe operands checked arithmetic gives the exact value if the carrier holds it and raises otherwise |
| ArithmeticCarriers.UnsafePairGoesWrong | src/emit_analysis.cc:1593-1633 | on every other pair of carriers there are operand values with a silently wrong result |
| ArithmeticCarriers.ArithmeticIsExactIff | include/tp2cc_rt/prelude.h:1268-1297 | the two together: exact for all values iff the pair is safe, on both targets |
| ArithmeticCarriers.DivisionKeepsOperandsIff | src/emit_analysis.cc:1696-1746 | division converts its operands without changing any possible value iff they do not clash |
| ArithmeticCarriers.DivisionIsIdeal | include/tp2cc_rt/prelude.h:1413-1438 | then checked div and mod are exact or raise |
| ArithmeticCarriers.ComparisonKeepsOperandsIff | src/emit_analysis.cc:1784-1798 | comparison carriers keep every possible operand value iff signs agree, none is unsigned 64-bit, or a constant fits |
| ArithmeticCarriers.CheckedRunIsExact | src/emit.cc:1468-1487 | a checked expression whose nodes are safe by their carriers alone yields its exact value iff every node's carrier holds its own, and raises otherwise; a special case of IntervalRunIsExact |
| ArithmeticCarriers.FoldingAgreesWithRunning | src/emit_analysis.cc:2071-2100 | if both folding and checked evaluation give a value it is the same |
| ArithmeticCarriers.SignedIsSafe | src/emit_analysis.cc:1593-1633 | expressions over signed leaves are safe throughout |
| ArithmeticCarriers.NarrowLeavesCanGoWrong | src/emit_analysis.cc:1623-1633 | leaves without unsigned 64-bit operands are not enough on a 64-bit target |
| CheckedTrees.NodeHonestIff | src/emit.cc:1468-1487 | for all operand values a node returns nothing but the exact result iff the stated condition on its carrier and those values holds |
| CheckedTrees.TreeHonestIff | src/emit.cc:1468-1487 | for given values an expression is honest in every subexpression iff every node is right |
| CheckedTrees.IntervalRunIsExact | src/emit_analysis.cc:2071-2100 | where intervals show each unsigned node inside its carrier and each other operand held, the run is exact or raises for all values |
| CheckedTrees.SafeIsIntervalSafe | src/emit_analysis.cc:1593-1633 | the condition on carriers alone implies the one on intervals |
| CheckedTrees.ThreeBytesStatic | src/emit_analysis.cc:1593-1633 | the sum of three bytes on a 64-bit target passes by intervals and not by carriers alone |
| CheckedTrees.ThreeBytes | src/emit.cc:1468-1487 | and is the exact sum for all values |
| CarrierWidths.ArithmeticWidth | src/emit_analysis.cc:1593-1633 | below 64 bits the carrier of `+ - *` is signed iff an operand is or the operation subtracts, and it is the narrowest of its sign that is at least native and holds both operands; a 64-bit operand decides otherwise, the signed one first |
| CarrierWidths.CommonWidth | src/emit_analysis.cc:1555-1592 | a common carrier is the narrowest of its sign holding both operands, signed if any signed one holds both |
| CarrierWidths.AdaptedMeans | src/emit_analysis.cc:1696-1712 | a division operand takes the other's unsigned carrier iff that holds its value or its whole carrier |
| CarrierWidths.DivisionWidth | src/emit_analysis.cc:1713-1746 | the carrier of a division is the first of native signed, native unsigned, signed 64-bit that holds both converted operands, or has 64 bits and the sign of either if one has |
| CarrierWidths.ComparisonWidth | src/emit_analysis.cc:1784-1798 | the carrier of a comparison, from the values the two carriers and the constants have |
| CarrierWidths.UncheckedWraps | include/tp2cc_rt/prelude.h:1326-1438 | unchecked, every operation gives the exact result wrapped to its carrier, and raises on a zero divisor alone |
| OrdinalSteps.StorageIsSmallest | src/emit_analysis.cc:2187-2212 | the storage chosen for a subrange contains it and nothing narrower does |
| OrdinalSteps.FoldStepComputes | src/emit_analysis.cc:2556-2651 | every step on any source is nothing (flagged iff the checked signed carrier overflows) or its landing kept in the storage, the source taken for its pattern |
| OrdinalSteps.TakesMeaningIff | src/emit_analysis.cc:2586-2601 | that is what the source means iff its views agree or the carrier is no wider than its own |
| OrdinalSteps.StepCarrierHolds | src/emit_analysis.cc:2362-2392 | the carrier bound for a step contains the storage |
| OrdinalSteps.CheckedStepExact | src/emit_analysis.cc:2591-2651 | with both checks: exactly the neighbour inside the domain, or nothing, for sources read as what they mean |
| OrdinalSteps.CheckedStepRightIff | src/emit_analysis.cc:2591-2651 | on any source the step is right iff its views agree, the carrier is no wider than the storage, or nothing is the right answer and it does not wrap around |
| OrdinalSteps.DisagreeingStep | src/emit_analysis.cc:2591-2651 | what a source with a cut pattern steps to, for every setting of the checks |
| OrdinalSteps.UncheckedStepWraps | src/emit_analysis.cc:2619-2650 | with no checks: always a result, the neighbour modulo the storage width iff the views agree or the source is at least as wide as the storage |
| OrdinalSteps.WideStepLeavesDomainIff | src/emit_analysis.cc:2625-2635 | over unsigned 64-bit storage a step leaves its domain iff it is pred of a positive lower bound |
| OrdinalSteps.WidePredEscapes | src/emit_analysis.cc:2625-2635 | `pred(5)` over `5..6000000000` folds to 4 |
| OrdinalSteps.StepsDoNotCompose | src/emit_analysis.cc:2637-2650 | over shortint `succ(pred(0))` folds to nothing and `pred(pred(-127))` to 127, unflagged |
| NamedConstants.EvalIsFoldOfUnfolded | src/emit_analysis.cc:2883-2922 | the reference semantics is folding of the fully unfolded expression |
| NamedConstants.DenotesIsUnfolding | src/emit_analysis.cc:1434-1451 | a value is the fold of some full unfolding, and conversely |
| NamedConstants.DenotesOnce | src/emit_analysis.cc:2653-2922 | an expression has at most one value, and none if it overflows at some depth |
| NamedConstants.CycleDenotesNothing | src/emit_analysis.cc:2904-2904 | a constant on a cycle of definitions of any length has no value |
| NamedConstants.OrdinalsArePrefix | src/emit_analysis.cc:978-1010 | a member has an ordinal only if those before it have |
| NamedConstants.FirstOrdinalIsZero | src/emit_analysis.cc:997-1004 | a first member without a value has the ordinal 0 and no other |
| NamedConstants.NextOrdinalIsOneMore | src/emit_analysis.cc:997-1004 | a later member without a value has ordinal v iff its predecessor has v - 1, which is below 2^63 - 1 |
| NamedConstants.PlainEnumIsNumbered | src/emit_analysis.cc:978-1010 | in an enum without explicit values every member's ordinal is its position |
| NamedConstants.ExplicitOrdinalIsValue | src/emit_analysis.cc:985-996 | a member with a value has ordinal v iff its expression denotes v, given that the member before it has one |
| NamedConstants.NameOfMember | src/emit_analysis.cc:2886-2902 | a name that is an enum member folds to its ordinal |
| LexicalConstants.FoldingIsLexical | src/emit_analysis.cc:2904-2920 | folding an initializer in the scope of use gives what Pascal means wherever no initializer's name is declared again nearer than its constant |
| LexicalConstants.SameFindIff | src/emit_analysis.cc:2907-2919 | a name of an initializer is found where Pascal means it iff it is not declared again nearer |
| LexicalConstants.CapturedName | src/emit_analysis.cc:1434-1451 | with `A = 1; B = A + 1` in a unit and `A = 10` in a routine, `B` folds to 11 there instead of 2 |
| ConstEvaluator.Evaluator.EvaluateConst | src/emit_analysis.cc:2543-2554 | evaluation terminates on any table; it gives the unfolded value, nothing only if there is none, and the flag iff some depth overflows |
| ConstEvaluator.Evaluator.QueryOrdinal | src/emit_analysis.cc:957-970 | a query gives the declared ordinal, and nothing only if there is none |
| ConstEvaluator.Evaluator.Evaluate | src/emit_analysis.cc:2653-2922 | nested evaluation restores visiting and in-progress sets, never changes a filled slot, and misses only what needs a blocked name |
| ConstEvaluator.Evaluator.EvaluateName | src/emit_analysis.cc:2883-2922 | as Evaluate, for a name: enum member, name being expanded, or constant |
| ConstEvaluator.Evaluator.FindBody | src/emit_analysis.cc:2907-2919 | local constants with a value first, then the frames outward |
| ConstEvaluator.Evaluator.MemberOrdinal | src/emit_analysis.cc:957-970 | as Evaluate, for a member query during an evaluation |
| ConstEvaluator.Evaluator.EvaluateEnum | src/emit_analysis.cc:972-1014 | fills a prefix of slots with declared ordinals; afterwards every slot holds what a query should find |
| ConstEvaluator.NameTells | src/emit_analysis.cc:2904-2920 | refusing names on the way hides no value and no overflow |
| ConstEvaluator.ExplicitOrdinal | src/emit_analysis.cc:985-996 | an explicit value evaluated with its own enum in progress is the declared ordinal, or there is none |
| ConstEvaluator.ImplicitOrdinal | src/emit_analysis.cc:997-1004 | what the evaluator fills in for a member without a value is the declared ordinal, which `NamedConstants.FirstOrdinalIsZero` and `NamedConstants.NextOrdinalIsOneMore` give in numbers |
| ConstEvaluator.OrdinalUnique | src/emit_analysis.cc:957-970 | re-entrant and later queries cannot give different ordinals |
| Overloads.DominanceIsStrict | src/emit_resolution.cc:1364-1376 | dominance is irreflexive and asymmetric |
| Overloads.DominanceIsTransitive | src/emit_resolution.cc:1356-1376 | and transitive |
| Overloads.DominatesScan | src/emit_resolution.cc:1364-1376 | the one-pass test with early exit decides dominance |
| Overloads.Champion | src/emit_resolution.cc:1441-1454 | one champion pass and one verification pass find the dominator iff there is one |
| Overloads.DecideMeans | src/emit_resolution.cc:1397-1455 | unambiguous iff a candidate dominates all others, ambiguous iff two or more and none does |
| Overloads.ScoreCandidate | src/emit_resolution.cc:1405-1433 | viability: arity with default slack, every explicit argument convertible |
| Overloads.RescoreCandidate | src/emit_resolution.cc:612-650 | the integer stage keeps a candidate and rescores it exactly where an unsettled domain argument fits |
| Overloads.IntegerStage | src/emit_resolution.cc:593-668 | the stage decides iff an integer domain is seen and some candidate takes all of them |
| Overloads.PickOverload | src/emit_resolution.cc:1397-1455 | the whole picker is choice by dominance over its pool |
| Overloads.PickMeans | src/emit_resolution.cc:1397-1455 | the answer is the pool's dominator, an ambiguity iff two or more and none, or no candidate iff none is viable |
| Overloads.DominatesInNumbers | src/emit_resolution.cc:1356-1376 | one candidate dominates another iff at every argument it has a smaller rank, or the same rank and no larger distance, and at some argument it is strictly smaller |
| Overloads.PickIsBest | src/emit_resolution.cc:1397-1455 | a declaration is picked unambiguously iff it is one that in those numbers is best against every other candidate of the pool |
| Overloads.ViableMeans | src/emit_resolution.cc:1405-1433 | the viable candidates: no more arguments than formals, defaults for the rest, every argument convertible, scored by its formals |
| Overloads.RescoredMeans | src/emit_resolution.cc:573-650 | what the integer stage leaves: kept at ranks 1 and 2 or without a domain, else rank 5 with distance twice the width plus one for the other sign, where the formal holds the domain and is no reference |
| Overloads.PickIgnoresOrder | src/emit_resolution.cc:1397-1455 | permuting the candidates changes nothing |
| Overloads.DomainFitsMeans | src/emit_resolution.cc:530-544 | the fit test holds iff every integer of the domain is in the formal's range |
| Overloads.ConstantReachesItsFormal | src/emit_resolution.cc:488-528 | a formal that holds a constant's domain holds the constant |
| Overloads.TypedArgumentReachesItsFormal | src/emit_resolution.cc:440-457 | a formal fits a typed argument's domain iff it holds every value of that type |
| Overloads.ConstantDomainInNumbers | src/emit_resolution.cc:488-528 | a constant between -2^31 and 2^31 - 1 stands for that whole range, signed preferred; any other for all integers between it and zero |
| Overloads.CarrierDomainInNumbers | src/emit_resolution.cc:440-457 | a typed argument stands for exactly its type's values, signed preferred iff some are negative |
| Overloads.StageWinnerTakesDomains | src/emit_resolution.cc:612-668 | the stage's winner takes every unsettled integer argument by value in a formal holding its whole domain |
| Overloads.NarrowestFormalWins | src/emit_resolution.cc:573-591 | one argument, distinct integer formals: the narrowest fitting one wins, preferred sign at equal width, never ambiguous |
| Metaclasses.CollectCallables | src/emit_decls.cc:177-259 | the loops over chain, names, signatures and counts compute the visible callables, whatever order the method tables are walked in |
| Metaclasses.LookupMethods | src/typereg.cc:4736-4771 | lookup with hiding: the first declaring class stops the walk unless its set keeps overloads |
| Metaclasses.LookupMeans | src/typereg.cc:4736-4771 | a method is found iff some class has it and every nearer class declaring the name keeps inherited overloads |
| Metaclasses.VisibleIsComplete | src/emit_decls.cc:198-223 | every constructor and class method that lookup finds has its surface offered |
| Metaclasses.VisibleIsSound | src/emit_decls.cc:198-259 | each surface is offered once, slot names are distinct, and a reference class always offers create |
| MetaclassOffers.FoundMethods | src/typereg.cc:4736-4771 | LookupMeans in terms of the registry alone: a class declares the method and no nearer class declares the name with no overload among its methods |
| MetaclassOffers.EntryOfEach | src/emit_decls.cc:198-223 | every constructor and class method found, class constructors and destructors excepted, has an entry of its name, kind and parameters |
| MetaclassOffers.EachEntry | src/emit_decls.cc:188-247 | and every entry is one of those, or the inherited constructor of a reference class |
| MetaclassOffers.EntriesDiffer | src/emit_decls.cc:211-247 | no two entries agree in name, kind and parameters; the inherited constructor is added last, and only where no entry is called create |
| MetaclassOffers.SlotsNamed | src/emit_decls.cc:219-234 | a slot is named by its entry, with an index iff another entry shares the name: the number of entries of that name before it |
| MetaclassOffers.EntriesInOrder | src/emit_decls.cc:188-197 | the declared entries come in the order of their names |
| MetaclassTables.SearchImpl | src/emit_decls.cc:261-296 | the search up the parents terminates on any registry and computes the specified implementation |
| MetaclassTables.FindDeclaredMeans | src/emit_decls.cc:264-276 | that is the first match in the nearest class with one, and none is found only if there is none |
| MetaclassOffers.ImplIsNearest | src/emit_decls.cc:261-305 | the implementation is a declared method of the entry's kind and parameters, in the nearest class that has one; the inherited constructor takes a declared constructor without parameters, else the root's |
| MetaclassTables.OwnCallables | src/emit_decls.cc:367-387 | the slots a class adds: new surfaces, virtual ones, constructors |
| MetaclassTables.DeclareParams | src/emit_decls.cc:1021-1089 | the declared constructor parameters |
| MetaclassTables.BuildArgs | src/emit_decls.cc:497-579 | the built constructor arguments |
| MetaclassTables.BuiltArgsFit | src/emit_decls.cc:497-579 | arguments match parameters in number, order, class and slot, through all parents, each slot holding the found implementation |
| MetaclassOffers.TakesSlotIff | src/emit_decls.cc:340-387 | an entry has a parameter, and is given an argument, iff it is no virtual class method and it is a constructor or new to the parent's metaclass |
| MetaclassOffers.ParentComesFirst | src/emit_decls.cc:1021-1089 | the parent's metaclass is the first parameter exactly where both have entries, all others are slots of the class itself |
| MetaclassTables.CallReachesNearest | src/emit_decls.cc:497-579 | a call through a reference typed as any class reaches a slot holding the first match from the concrete class |
| MetaclassTables.ImplExists | src/emit_decls.cc:519-531 | a declared callable has an implementation for every class at or below the one offering it |
| MetaclassTables.ImplicitCreateExists | src/emit_decls.cc:278-294 | so has the inherited constructor, below the root |
| StorageAddresses.ElementSizeAfter | src/emit_storage.cc:338-347 | the element type after a dimension, built from the innermost dimension |
| StorageAddresses.IndexAddress | src/emit_storage.cc:348-368 | the composed address of a possibly partial index is base plus row-major position times the size selected |
| StorageAddresses.IndexIsWalk | src/emit_storage.cc:348-368 | a multi-index addresses what one dimension at a time does |
| StorageAddresses.IndexComposes | src/emit_storage.cc:348-368 | `a[i, j]` and `a[i][j]` are one address |
| StorageAddresses.RowMajorNumbers | src/emit_storage.cc:348-368 | in-range index tuples are numbered inside the array, distinct ones differently |
| StorageAddresses.EveryPositionIsReached | src/emit_storage.cc:348-368 | and every position inside the array is some in-range tuple's |
| StorageAddresses.IndexTuplesApart | src/emit_storage.cc:332-368 | distinct in-range tuples address disjoint extents inside the array |
| StorageAddresses.PathsApart | src/emit_storage.cc:1222-1290 | two selections through arrays and records without variant parts share no byte unless one continues the other |
| StorageAddresses.PrefixContains | src/emit_storage.cc:1222-1290 | and then the longer lies inside the shorter |
| StorageAddresses.PackedScalarLoad | src/emit_storage.cc:1222-1290 | the summed field offsets are the place's offset, and the load is used exactly behind a packed aggregate |
| StorageAddresses.CrossesPackedMeans | src/emit_storage.cc:1243-1270 | a chain counts as behind a packed aggregate iff some member of it is a record or an array inside a packed record |
| StorageAddresses.MemberReaches | src/emit_storage.cc:1243-1270 | a member step adds the offset of the first field of its name; only records have members |
| StorageAddresses.PackedIsWellFormed | src/emit_decls.cc:160-180 | members laid out without padding satisfy what the theorems on addresses ask of a record iff they do themselves and their names differ |
| ScopeStates.BalancedRestores | src/emit_context.h:165-306 | any well-nested sequence of lookups, frames and with scopes restores every field; declarations may stand wherever a frame or a lookup that swaps the locals out undoes them |
| ScopeStates.KeptLocalsLeak | src/emit_context.h:190-214 | a declaration straight inside a lookup that keeps the caller's locals is the case excluded: it stays behind |
| ScopeStates.LookupHidesCaller | src/emit_context.h:210-239 | at no moment inside an active lookup, whatever nests in it, does the routine, class or result visible come from outside it |
| ScopeStates.AllMomentsOwnOnly | src/emit_context.h:167-239 | the same for any nested work: routine and class are those of the frames pushed since the innermost active lookup |
| Visibility.LookupPutsAside | src/emit_context.h:186-210 | a lookup without a context, with one that does not keep locals, or in another unit starts with every table of locals and the with stack empty |
| Visibility.LookupKeepsInSight | src/emit_context.h:189-201 | with a context that keeps them, of the same unit, every table and the with stack are the caller's |
| Visibility.IdleLookup | src/emit_context.h:184-200 | a lookup with neither context nor unit, or in the context at hand with locals kept, changes nothing |
| Visibility.LookupMoves | src/emit_context.h:212-239 | an open lookup works in its declaration's context and unit, without class or routine |
| Visibility.LookupShowsOnlyItsOwn | src/emit_context.h:201-210 | at every moment inside a lookup that puts the caller's aside the names in scope are those declared, and the receivers those opened, since the innermost such lookup; no table knows another name |
| Visibility.AllViewsAccounted | src/emit_context.h:186-272 | the same at every moment of any nested work, from any start |
| ScopeStates.DeclarationIsLocal | src/emit_procs.cc:135-214 | a declaration changes what is known about its own name alone |
| ScopeStates.SeedDeclares | src/emit_procs.cc:147-214 | seeding brings exactly the locals into scope, `Result` excepted in functions |
| ScopeStates.DeclareRecords | src/emit_procs.cc:147-214 | what each kind of local records under its own name: its type, descriptor or declaration, the const mark, the next overload, and nothing in the tables of other kinds |
| ScopeStates.SeedTypes | src/emit_procs.cc:147-214 | of all locals of one name the last that gives a type decides it |
| ScopeStates.FrameStarts | src/emit_procs.cc:88-133 | a frame is one level deeper, in its body's scope, with the routine's own name, parameters, class and result slot |
| ScopeStates.EmissionUnitIsOutermost | src/emit_context.h:231-236 | across nested unit switches the recorded emission unit stays the outermost |
| ScopeStates.ResultIsInnermost | src/emit_procs.cc:88-133 | in nested routines `Result` is the innermost function's, and the outer result the next one out |
| ScopeStates.SeedNumbersOverloads | src/emit_procs.cc:198-212 | overloads of a nested routine are numbered by position, so their names differ |
| ScopeStates.ResultNotShadowed | src/emit_procs.cc:135-145 | no local of a function is called Result |
| ScopeMachine.Scope.SeedScope | src/emit_procs.cc:147-214 | the locals of a routine, in order |
| ScopeMachine.Scope.PopWiths | src/emit_stmts.cc:56-75 | a with scope cuts the stack back to its depth at entry |
| ScopeMachine.Scope.Execute | src/emit_procs.cc:225-336 | running nested work ends in the specified state, the starting one if balanced |
| ScopeMachine.DeclarationLookup.constructor | src/emit_context.h:167-239 | opening a lookup swaps, clears and overwrites as specified and remembers what it took |
| ScopeMachine.DeclarationLookup.Close | src/emit_context.h:244-272 | closing it puts everything back |
| ScopeMachine.SavedFrame.constructor | src/emit_procs.cc:37-61 | a frame saves everything but the units and the with stack |
| ScopeMachine.SavedFrame.PutBack | src/emit_procs.cc:63-86 | and puts back exactly that |
| TypeEquality.SameUseIsSameKey | src/emit_analysis.cc:595-777 | two types are the same iff their canonical keys are: the first-match order hides no case |
| TypeEquality.SameIsEquivalence | src/emit_analysis.cc:595-777 | reflexive on resolved types, symmetric, transitive |
| TypeEquality.SameHasSameDomain | src/emit_analysis.cc:645-656 | equal types have the same ordinal domain |
| TypeEquality.SubrangesSameIff | src/emit_analysis.cc:645-656 | two resolved subranges are one type iff they are of one family and enum and admit the same values, in whichever order the bounds are written |
| TypeEquality.SubrangeIsOrdinalIff | src/emit_analysis.cc:645-656 | a subrange and a named or enumerated ordinal type are one type iff the subrange is of its family and admits exactly its values |
| TypeEquality.SetsSameIff | src/emit_analysis.cc:715-733 | two sets are one type iff their elements are of one family and enum and have the same bounds, explicit ones first |
| TypeEquality.PointersSameIff | src/emit_analysis.cc:625-685 | pointers, distinct or not, are one type iff their targets are or both have none |
| TypeEquality.DistinctSame | src/emit_analysis.cc:685-692 | a distinct type over an ordinal is that type; over anything but an ordinal or a pointer it is itself alone |
| TypeEquality.ArraysSameIff | src/emit_analysis.cc:692-714 | fixed arrays are one type iff packed alike, with index types of the same domains and elements of one type |
| TypeEquality.FilesSameIff | src/emit_analysis.cc:734-745 | files by their content types, text and untyped files apart |
| TypeEquality.StringsSameIff | src/emit_analysis.cc:761-771 | shortstrings by their capacities |
| TypeEquality.NominalSameIff | src/emit_analysis.cc:772-777 | everything nominal is one type only with itself |
| TypeEquality.UnresolvedElementsDiffer | src/emit_analysis.cc:612-615 | without resolved elements only one node equals itself |

## Left out

- Theorems.LoweringPreserves: covers the runs in which a finally part completes without writing the result slot after `exit` and no handler is due for an object that is no exception, as `Theorems.ProperPreserved` tells from the text; the other runs are the departures listed above, with their exact conditions. Break and continue out of a finally part are illegal in the generated code (`Jumps.ScopedIffJumpsOk`).
- Theorems.FunctionPreserved: the same condition, discharged for proper bodies by `Theorems.RoutinePreserved`.
- Theorems.ForLoopVisits: the same condition, discharged for proper statements by `Theorems.ProperForVisits`.
- Theorems.SetLoopVisits: the same condition, discharged for proper statements by `Theorems.ProperSetVisits`.
- ArithmeticCarriers.CheckedRunIsExact: refuses some trees that are always right, such as the sum of three bytes on a 64-bit target, which `CheckedTrees.IntervalRunIsExact` admits.
- LexicalConstants.FoldingIsLexical: enum members are found alike from every level; a member declared nearer than a constant whose initializer names it is not told apart.
- Emitter.EmitStmts.EmitStmt: does not emit `with`, user labels and goto, asm, and for-in over strings, arrays and enumerators.
- Emitter.EmitStmts.EmitSimple: the result slot stands for whatever the routine returns, so the constructor's status slot has no name of its own; a procedure's return without a value and the value that `exit` drops outside functions are not modelled.
- Pascal expressions are functions from a store to a value or an exception and a new store; their translation to C++ text, members, properties and `with` receivers is not modelled.
- Generated temporaries live in a name space of their own in `Cxx`; that a selector's name is fresh is proved for the local scope (`Emitter.EmitStmts.FreshSelector`), not against every C++ identifier.
- The comparison of `for` bounds is a comparison of integers; C++ comparison of differently signed operands is not modelled. The error path for an unknown loop carrier is left out.
- A handler's bound variable holds the exception's identity; whether a thrown pointer converts to the root exception class is the flag `asException`.
- Statements left out: for-in over strings, arrays and enumerators, `with` (the stack it restores is in `ScopeMachine`), user labels and goto, asm, new and dispose, and fail.
- The finite C++ stack, and the undefined behaviour of a goto past a declaration, are not modelled; every generated declaration opens a block of its own.
- Constant shifts and bitwise operators are not folded in the model; the latter are right only modulo 2^64 in the source.
- The binding of an operator to a kind is given with the expression: the type deduction that binds it, and its own constant queries, are not part of the model. `ord`, `low`, `high` and `length` are not folded.
- Typed constants, real, string and pointer operators, and Currency are outside the integer model.
- The diagnostic that enum values must ascend is left out; it changes no slot.
- Conversion scores other than those of the integer stage are given with a formal (`Overloads.Formal`), and so is the argument's integer domain except for constants.
- C++ name mangling is taken to be injective: a slot name is a Pascal name with or without an index.
- Parameter lists of methods are compared by a key, so matching is an equivalence by construction; return types and the text of the forwarding lambdas are left out.
- Sizes and offsets are unbounded integers; field offsets are given with a record and required not to overlap, so variant records are outside the theorems on addresses.
- In `ScopeMachine` the fields that describe the routine and those that describe its locals are two records; flags that neither mechanism manages are left out.
- Type lookup contexts are resolved before comparison in `TypeEquality`; cyclic types are not representable there.
- The memo of overload types, property lowering, procedure-variable autocalls, Makefile output and diagnostics.
