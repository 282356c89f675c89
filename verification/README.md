# dwarfexpr, modelled and proved in Dafny

dwarfexpr evaluates DWARF expressions against a crashed process: `dwarf2line` finds the function and
line of an address, unwinds its frame and reads its variables out of a stack snapshot that a converter
extracted from a minidump. This project models that path and proves what it keeps and what it computes.

Every object that the program updates in place is a class here (the value stack over its array, the
search context, the converter, the context writer and reader, the minidump), every loop is a
loop, and each method is proved equal to a function of the old state. The laws are then proved about those functions.

| part | modules |
|---|---|
| the evaluator: operations, control, results | `Expression` (functions), `Machine` (the class and its stack) |
| laws of the evaluator | `OperationLaws`, `StepMeaning`, `RingArithmetic`, `StackDiscipline`, `BranchProgress`, `IndexPath` |
| location lists, call frame information, the recursion through them | `Unwinding`, `Termination`, `FrameRows`, `VariableValues` |
| text dump to context file to loaded context to value | `DumpParser`, `DumpText`, `ContextFile`, `ContextIO`, `ContextLayout`, `Providers` |
| DIE trees and line tables | `DieTree`, `DieSearch`, `DieSearchLaws`, `DieSearchExact`, `DieBounds`, `DieWalk`, `LineLookup` |
| the minidump reader | `Utf16`, `MinidumpStreams`, `MinidumpFile`, `MinidumpLaws`, `MinidumpRecords` |
| words, bits, little-endian bytes | `Words` |

## How behaviour is stated

* Words are integers modulo 2^64, and every conversion is written out. Signed overflow, which C++ leaves
  undefined, wraps.
* Where C++ gives a step no meaning the reply is `Undefined` with the reason: `top()` or `pop()` of an empty
  `std::stack`, division by zero or of the least word by -1, a shift count outside 0..63, a pointer past a buffer.
  So no operation has a precondition about its operands.
* The evaluator may loop and its callers may recurse for ever. A run takes a budget of operations, and an
  evaluation fuel for the nesting; `Stuck` is the reply when they run out. `IndexPath.AnswersIff`
  says for every program and every budget when a run answers; `LabelledReturnsIff` says which labelled programs
  whose operations go on are stuck with any budget, by a condition on the operations alone. For the recursion
  through frame bases and CFA rules, `Termination` gives an amount of fuel that is enough for all programs whose
  expressions have a path that leaves them, as with forward branches, and no fbreg in a frame base, and shows that a frame base which reaches an fbreg is stuck
  with any amount.
* A null `mystack` is a fresh empty stack, the intent of lines 85-88 of the evaluator.

## What the proofs found

The code is followed where it departs from the DWARF 4 standard or from its own comments. Each departure has a
lemma that says exactly when the two agree, or an example that shows that they do not:

* `DW_OP_regx` takes the operand of the expression's first operation (`RegxIsStandardIff`), and `DW_OP_bregx`
  adds its register number instead of its offset (`BregxIsStandardIff`). Both keep only sixteen bits of the number.
* `DW_OP_shr` is an arithmetic shift (`ShrIsLogicalIff`).
* A branch resumes one operation after the one it finds, and looks three bytes before the standard's target
  (`BranchLandsPerStandardIff`, `SkipMissesTarget`); `DW_OP_bra` ignores the entry that it pops (`BraFallsThroughIff`).
* `GetCfa` returns the value of the last row of the function, whatever the pc (`CfaIsLastRows`, `PushExampleIsWrong`).
* The end of a location-list entry counts from the unit's high pc, while the comment beside it and section 2.6.2
  of DWARF 4 have the low pc as base. The ranges are right for all entries only in an empty unit if the bounds are
  offsets, and only with unit bounds of zero if libdwarf has resolved them already (`EntryCoversIff`,
  `OffsetRangesRightIff`, `ResolvedRangesRightIff`, `RangeExample`).
* A list of siblings that starts with a function without a range is given up (`MissExampleMisses`), and raises the
  search's level for good (`UnitSearch`). `FoundIsRightIff` and `FirstFunctionIsRightIff` say for every tree when
  that does no harm.
* The walk for a function's variables also visits every later sibling, so it lists global variables that follow the
  function, and it enters the children of the next sibling that has some when the function has none
  (`CollectedAreOwnIff`, `GlobalListedExample`, `OtherLocalExample`).
* The line lookup takes the first row beyond the pc as the end, so it needs the table in ascending order
  (`DescribingRowFoundIff`, `OutOfOrderExample`).
* A stack at base address zero is lost between text and context file (`RenderRoundTrip`), and a name is cut at
  a zero byte (`FramesSurviveIff`).
* The UTF-16 conversion knows a quarter of the low surrogates. After a high surrogate the others make it give up;
  elsewhere it lets them through, and then its output is no UTF-8 (`ConversionIsRightIff`, `OutputIsUtf8Iff`,
  `RightIff`).
* A memory request whose end wraps is served beyond its range (`PastEndIff`, `AcceptedIsWithinIff`).

## Model

| member | source | states |
|---|---|---|
| Machine.DwarfExpression.Evaluate | src/dwarfexpr/dwarf_expression.cpp:78-88 | for every operation list, context, stack (or none) and budget, the reply and the stack left are those of `Expression.Evaluate` |
| Machine.DwarfExpression.Loop | src/dwarfexpr/dwarf_expression.cpp:90-718 | the loop over the operations, on a stack whose array it changes in place, computes the run |
| Machine.Exec | src/dwarfexpr/dwarf_expression.cpp:130-709 | one pass of the switch changes the stack and continues or returns as the transition function says, errors and undefined steps included |
| Machine.MoveEntries | src/dwarfexpr/dwarf_expression.cpp:298-308 | each of pick's two loops takes the top entries off one stack and leaves them turned over on the other |
| Machine.Pick | src/dwarfexpr/dwarf_expression.cpp:298-310 | unloading idx entries onto a temporary stack and loading them back leaves the stack unchanged under one more copy of the entry idx places down |
| Machine.ExecPick | src/dwarfexpr/dwarf_expression.cpp:291-312 | the depth check in 64 bits, its wrap-around at the largest operand, and the loops' 32-bit counter |
| Machine.ExecShuffle | src/dwarfexpr/dwarf_expression.cpp:275-362 | dup, drop, pick, over, swap and rot by pushes and pops rearrange the stack as specified or fail on a short one |
| Machine.ExecDeref | src/dwarfexpr/dwarf_expression.cpp:366-386 | pops an address, reads a word, and takes the largest signed word as a failure |
| Machine.AssembleBytes | src/dwarfexpr/dwarf_expression.cpp:421-426 | the byte loop yields the little-endian value of the bytes, zero-extended, at most eight of them |
| Machine.ExecDerefSize | src/dwarfexpr/dwarf_expression.cpp:398-428 | the order of the checks (provider, stack, operand) and the value pushed |
| Machine.ExecArithmetic | src/dwarfexpr/dwarf_expression.cpp:453-638 | unary, binary and comparison operators, the last without a depth check |
| Machine.DwarfExpression.FindOpIndexByOffset | src/dwarfexpr/dwarf_expression.cpp:720-727 | the index of the first operation at an offset, or -1 |
| Machine.DwarfExpression.Jump | src/dwarfexpr/dwarf_expression.cpp:641-645 | the index at which control resumes: one past the operation found, or past the branch |
| Expression.FindOpIndex | src/dwarfexpr/dwarf_expression.cpp:720-727 | an index found carries the offset and none before it does; none found means that none carries it |
| OperationLaws.PicksRunAlike | src/dwarfexpr/dwarf_expression.cpp:275-327 | writing every dup of a program as pick 0 and every over as pick 1 changes no run: same reply and stack, errors and branches included |
| OperationLaws.SwapTwiceIsIdentity | src/dwarfexpr/dwarf_expression.cpp:330-343 | swap exchanges the two top entries, and twice is the identity |
| OperationLaws.RotThriceIsIdentity | src/dwarfexpr/dwarf_expression.cpp:346-362 | rot brings the second entry to the top, and three times is the identity |
| OperationLaws.BitwiseLaws | src/dwarfexpr/dwarf_expression.cpp:475-565 | and, or, xor and not act on each of the 64 bits separately |
| OperationLaws.DivisionLaw | src/dwarfexpr/dwarf_expression.cpp:519-531 | div and mod are defined on the same operands and give quotient and remainder of the truncating division exactly |
| OperationLaws.ComparisonLaws | src/dwarfexpr/dwarf_expression.cpp:580-638 | exactly one of lt, eq, gt pushes 1; le, ge, ne are complements; the deeper entry is the left operand, and the order is signed |
| OperationLaws.ShrIsLogicalIff | src/dwarfexpr/dwarf_expression.cpp:553-556 | shr is the standard's zero-filling shift if and only if the value is not negative or the count is zero |
| OperationLaws.ShlBits | src/dwarfexpr/dwarf_expression.cpp:548-551 | shl moves each bit up by the count and fills with zeros |
| OperationLaws.ShiftRightRoundsDown | src/dwarfexpr/dwarf_expression.cpp:553-561 | shr and shra are the same division by a power of two, rounding down |
| OperationLaws.AbsLaw | src/dwarfexpr/dwarf_expression.cpp:464-467 | abs is the magnitude, except at the least word, which stays |
| OperationLaws.RegxIsStandardIff | src/dwarfexpr/dwarf_expression.cpp:113-126 | regx reads the standard's register for every register file if and only if the low sixteen bits of the first operation's operand are its own operand |
| OperationLaws.RegxExamples | src/dwarfexpr/dwarf_expression.cpp:118-125 | two failing inputs: another first operation, and a register number beyond sixteen bits |
| OperationLaws.BregxIsStandardIff | src/dwarfexpr/dwarf_expression.cpp:254-267 | bregx pushes register plus offset, as the standard has it, for every register file if and only if the number has sixteen bits and the offset is equal to it |
| OperationLaws.BregxExamples | src/dwarfexpr/dwarf_expression.cpp:258-265 | two failing inputs: an offset of its own, and a register number beyond sixteen bits |
| OperationLaws.FindInverts | src/dwarfexpr/dwarf_expression.cpp:720-727 | with increasing offsets the search inverts the offset table |
| OperationLaws.BranchLandsPerStandardIff | src/dwarfexpr/dwarf_expression.cpp:640-663 | a branch resumes at the standard's target if and only if the operation after the one found is three bytes further on (or, none found, the target is the next operation) |
| OperationLaws.BraFallsThroughIff | src/dwarfexpr/dwarf_expression.cpp:649-663 | on a zero entry bra falls through, as the standard asks, if and only if its operand is zero or no operation stands where it looks |
| OperationLaws.SkipMissesTarget | src/dwarfexpr/dwarf_expression.cpp:640-647 | a concrete expression whose skip ends before its target |
| StepMeaning.DivStep | src/dwarfexpr/dwarf_expression.cpp:503-521 | on every stack, div replaces the second entry and the top by the truncating quotient of the second by the top, and is undefined exactly for a zero top or the one quotient that does not fit |
| StepMeaning.ModStep | src/dwarfexpr/dwarf_expression.cpp:503-531 | mod replaces them by the remainder of the same division |
| StepMeaning.ShlStep | src/dwarfexpr/dwarf_expression.cpp:503-551 | shl moves the bits of the second entry up by the top |
| StepMeaning.ShiftRightStep | src/dwarfexpr/dwarf_expression.cpp:503-561 | shr and shra divide the second entry by two to the power of the top, rounding down |
| StepMeaning.AbsStep | src/dwarfexpr/dwarf_expression.cpp:456-467 | abs replaces the top by its magnitude, the least word by itself |
| StepMeaning.BitStep | src/dwarfexpr/dwarf_expression.cpp:503-566 | and, or and xor combine the two top entries bit by bit |
| StepMeaning.NotStep | src/dwarfexpr/dwarf_expression.cpp:456-477 | not flips every bit of the top |
| StepMeaning.DivisionExample | src/dwarfexpr/dwarf_expression.cpp:518-531 | 20 3 div is 6, and 20 3 mod is 2 |
| StepMeaning.BranchStep | src/dwarfexpr/dwarf_expression.cpp:640-663 | skip and bra go on one past the first operation at their offset plus the signed low sixteen bits of the operand, or past themselves; bra pops one entry |
| StepMeaning.ErrorIff | src/dwarfexpr/dwarf_expression.cpp:95-717 | an operation returns an error exactly when that error's cause holds, and always at its own offset |
| StepMeaning.UndefinedIff | src/dwarfexpr/dwarf_expression.cpp:291-638 | an operation is undefined in C++ exactly for one of the listed reasons |
| StepMeaning.EndsWithStack | src/dwarfexpr/dwarf_expression.cpp:95-717 | an error leaves the stack as it was, except that a dereference without memory has popped its address |
| StepMeaning.EmptyIsRefused | src/dwarfexpr/dwarf_expression.cpp:81-83 | an expression without operations is refused on any stack |
| StepMeaning.RegStep | src/dwarfexpr/dwarf_expression.cpp:100-126 | reg and regx push the register's value and end the expression with it |
| RingArithmetic.StepAgrees | src/dwarfexpr/dwarf_expression.cpp:137-573 | on stacks equal modulo 2^64 a wrapping and a never-wrapping operation of the ring and bit fragment fail alike or leave stacks equal modulo 2^64 |
| RingArithmetic.IntBitsMod | src/dwarfexpr/dwarf_expression.cpp:514-565 | the low bits of a bit operation on unbounded two's-complement integers are those of the operation on their low bits |
| RingArithmetic.WrapOnceIsEnough | src/dwarfexpr/dwarf_expression.cpp:78-718 | for every program of ring and bit operations and branches, every stack and budget, wrapping at every step equals wrapping once: the same failing operation and error, or both still running, or stacks equal modulo 2^64 and the result reduced once (section 2.5.1.4 of DWARF 4) |
| RingArithmetic.StopsTogether | src/dwarfexpr/dwarf_expression.cpp:91-710 | the operation at which the unbounded run fails is the one at which the 64-bit run stops, within the same budget |
| StackDiscipline.ApplyIsLocal | src/dwarfexpr/dwarf_expression.cpp:100-709 | an operation that finds its operands neither reads nor changes the entries below them |
| StackDiscipline.RunIsLocal | src/dwarfexpr/dwarf_expression.cpp:91-717 | for every program, loops included, entries beneath the deepest one looked at neither change nor affect the outcome |
| StackDiscipline.EvaluateConcat | src/dwarfexpr/dwarf_expression.cpp:91-717 | running xs + ys is running ys on the stack that xs leaves, and stopping where xs stops |
| StackDiscipline.StackValueTags | src/dwarfexpr/dwarf_expression.cpp:691-717 | appending stack_value turns the address that a list returns into the same value, on the same stack |
| StackDiscipline.LabelledStates | src/dwarfexpr/dwarf_expression.cpp:91-727 | in a program labelled with depths along its edges every reachable state of every run has exactly that depth above the initial stack, its operands there, and the initial stack intact |
| StackDiscipline.ArityIsExact | src/dwarfexpr/dwarf_expression.cpp:275-697 | with its operands no operation runs out of stack, and without them every one does |
| StackDiscipline.LabelledNeverUnderflows | src/dwarfexpr/dwarf_expression.cpp:91-727 | no run of a labelled program, however long, pops an empty stack or returns kStackIndexInvalid |
| BranchProgress.ForwardStops | src/dwarfexpr/dwarf_expression.cpp:91-710 | with forward branches evaluate stops within count() iterations, and a larger budget changes nothing |
| BranchProgress.IndicesIncrease | src/dwarfexpr/dwarf_expression.cpp:640-663 | with forward branches every operation index executes at most once |
| BranchProgress.BudgetMonotone | src/dwarfexpr/dwarf_expression.cpp:91-710 | a run that returned returns the same reply and stack with any larger budget |
| BranchProgress.ForwardIff | src/dwarfexpr/dwarf_expression.cpp:640-663 | with increasing offsets a branch goes forward if and only if its target, reduced to 64 bits, is not before it or no operation starts there; without wrap-around that is the operand's sign |
| BranchProgress.BackwardSkipNeverReturns | src/dwarfexpr/dwarf_expression.cpp:640-647 | a skip back over no-ops never returns, from any index of the loop and with any budget |
| BranchProgress.SpinExample | src/dwarfexpr/dwarf_expression.cpp:640-647 | the smallest such expression: nop, skip -1 |
| IndexPath.AfterFollowsPath | src/dwarfexpr/dwarf_expression.cpp:640-663 | the indices that a run goes through depend on the operations alone, because both branches always jump |
| IndexPath.LeavesSoonOrNever | src/dwarfexpr/dwarf_expression.cpp:640-727 | for every list, the path of indices leaves it within as many steps as it has operations, or never |
| IndexPath.AnswersIff | src/dwarfexpr/dwarf_expression.cpp:91-717 | for every program, stack and budget, a run answers if and only if it left the list, within count() steps, or an operation answered within the budget |
| IndexPath.NoExitEndsByHalting | src/dwarfexpr/dwarf_expression.cpp:91-717 | a program whose path never leaves answers only through one of its operations |
| IndexPath.ExitingStops | src/dwarfexpr/dwarf_expression.cpp:91-717 | a program whose path leaves, backward branches or not, answers within count() iterations, and a larger budget changes nothing |
| IndexPath.ForwardExits | src/dwarfexpr/dwarf_expression.cpp:640-663 | forward branches are one way to leave |
| IndexPath.SuppliedReturnsIff | src/dwarfexpr/dwarf_expression.cpp:91-717 | a run that never lacks operands, of operations that go on, answers, with an address and within count() steps, if and only if its path leaves the list; otherwise no budget is enough |
| IndexPath.LabelledReturnsIff | src/dwarfexpr/dwarf_expression.cpp:91-717 | the same for every labelled program, on every stack |
| IndexPath.LoopExample | src/dwarfexpr/dwarf_expression.cpp:640-647 | a labelled expression that pushes and drops for ever |
| Unwinding.EvalValue | src/dwarfexpr/dwarf_location.cpp:133-157 | the search loop evaluates the entry that `Select` picks, or reports that none covers the pc |
| Unwinding.SelectIsFirst | src/dwarfexpr/dwarf_location.cpp:135-151 | the entry picked covers the pc and no earlier one does; none picked means that none covers it |
| Unwinding.ComputeCfa | src/dwarfexpr/dwarf_frames.cpp:11-81 | the loop that reassigns p and cfa computes the walk over rows from the entry's low pc, and asks for the CFA rule at exactly the addresses of that walk, in order |
| Unwinding.ShowColumns | src/dwarfexpr/dwarf_frames.cpp:54-68 | the loop over the other columns evaluates those whose row starts at p, and ends with their first failure to return |
| Termination.OpsReturn | src/dwarf2line/dwarf2line.cpp:255-265 | an expression returns with fuel for its length plus its rank, the lexicographic measure of CFA provider present and frame base entered |
| Termination.CfaReturns | src/dwarfexpr/dwarf_frames.cpp:11-81 | the row walk returns for every pc and every entry, on the same measure |
| Termination.VariableReturns | src/dwarf2line/dwarf2line.cpp:255-265 | with paths that leave every expression, as with forward branches, and no fbreg in a frame base, evaluating any variable's location terminates, with an answer that more fuel does not change |
| Termination.LocationMoreFuel | src/dwarfexpr/dwarf_location.cpp:133-157 | a location that returned returns the same with any more fuel, through the whole recursion |
| Termination.CfaMoreFuel | src/dwarfexpr/dwarf_frames.cpp:11-81 | so does a call frame address |
| Termination.FrameBaseCannotUseItself | src/dwarfexpr/dwarf_expression.cpp:195-206 | evaluating any frame base is evaluating it with an fbreg that never answers: it returns if and only if it can without reaching one |
| Termination.FbregFrameBaseNeverReturns | src/dwarfexpr/dwarf_expression.cpp:195-206 | a frame base that starts with fbreg recurses for ever |
| Termination.CfaRuleCannotUseCfa | src/dwarf2line/dwarf2line.cpp:262-265 | wherever the run of a CFA rule reaches call_frame_cfa, the rule fails there instead of recursing, because the provider is bound to a context without one |
| FrameRows.JumpingRefinesEveryAddress | src/dwarfexpr/dwarf_frames.cpp:35-74 | on contiguous rows the walk that jumps to subsequent_pc and stops at the last row returns what testing every address of the range returns |
| FrameRows.BothVisitEveryRow | src/dwarfexpr/dwarf_frames.cpp:35-74 | the addresses at which GetCfa asks for the rule, and those of the walk that tests every address, fall in the same rows in the same order, repeats ignored: all rows, first to last |
| FrameRows.JumpsFromStartToStart | src/dwarfexpr/dwarf_frames.cpp:35-74 | where every row has a value, GetCfa asks once for each row, at its start |
| FrameRows.CfaIsLastRows | src/dwarfexpr/dwarf_frames.cpp:35-80 | GetCfa returns the last row's value, so it is right for the pc if and only if its row has the same |
| FrameRows.PushExampleIsWrong | src/dwarfexpr/dwarf_frames.cpp:35-80 | a function with a prologue for which GetCfa is sixteen bytes off |
| FrameRows.OffsetsAreSigned | src/dwarfexpr/dwarf_frames.cpp:83-149 | the unsigned arithmetic on reinterpreted offsets is adding the signed offset |
| FrameRows.EntryCoversIff | src/dwarfexpr/dwarf_location.cpp:137-145 | with bounds as offsets, wrap-around included, an entry covers the pc when the standard says so if and only if the pc is before its start or outside the window between the true end and the end computed |
| FrameRows.OffsetRangesRightIff | src/dwarfexpr/dwarf_location.cpp:137-145 | with bounds as offsets, all entries cover the right addresses if and only if the unit's high pc is its low pc |
| FrameRows.ResolvedRangesRightIff | src/dwarfexpr/dwarf_expression.cpp:49-52 | with bounds as addresses that libdwarf has resolved, all entries cover the right addresses if and only if both unit bounds are zero |
| FrameRows.RangeExample | src/dwarfexpr/dwarf_location.cpp:142-145 | a unit, an entry and a pc for which the code is wrong with either reading |
| VariableValues.VariableFromCfa | src/dwarf2line/dwarf2line.cpp:255-265 | a variable at fbreg k in a function whose frame base is call_frame_cfa has the address: register of the last row of the entry at the pc, plus that row's offset, plus k, modulo 2^64 |
| VariableValues.VariableExample | src/dwarfexpr/dwarf_expression.cpp:437-444 | an entry at 0x2000 with register 7 plus 16, a variable at fbreg -20, and its address |
| VariableValues.VariableFromFramePointer | src/dwarfexpr/dwarf_expression.cpp:195-206 | with the frame base in a register, the address is that register plus k |
| VariableValues.FrameBasePlus | src/dwarfexpr/dwarf_expression.cpp:195-206 | fbreg adds its operand to the frame base at the same pc, and fails with it |
| VariableValues.RegisterPlus | src/dwarfexpr/dwarf_expression.cpp:240-253 | a variable at breg n k is at register n plus k |
| VariableValues.VariableThroughPointer | src/dwarfexpr/dwarf_expression.cpp:366-386 | a variable behind a constant address is the word there, or the error for a missing one |
| VariableValues.NoEntryNoValue | src/dwarfexpr/dwarf_location.cpp:152-156 | outside every entry of its list a variable has no value |
| VariableValues.CfaFromRegisters | src/dwarfexpr/dwarf_frames.cpp:11-81 | the call frame address is the last row's register plus its offset, for every pc and amount of fuel |
| VariableValues.CfaRules | src/dwarfexpr/dwarf_frames.cpp:103-149 | the values that a rule gives the CFA column, and when it gives none |
| VariableValues.ExpressionRules | src/dwarfexpr/dwarf_frames.cpp:150-198 | val_expression(E) is what E evaluates to and expression(E) the word there, or none if E or the read fails |
| VariableValues.ColumnsReturnIff | src/dwarfexpr/dwarf_frames.cpp:54-68 | the other columns do not change the address, and all 33 that start at the pc must return |
| VariableValues.CfaIsLastAsked | src/dwarfexpr/dwarf_frames.cpp:35-80 | whatever the rows, gaps included, the CFA is the value of the last address asked that has a rule |
| DumpParser.Converter.Feed | tools/minidump_convertor.py:22-73 | one line changes block and threads as the automaton's step, or raises |
| DumpParser.Converter.AppendCells | tools/minidump_convertor.py:65-69 | the cell loop appends the numbers that are bytes, skips what is no number, and raises on the rest |
| DumpParser.Converter.Convert | tools/minidump_convertor.py:17-74 | the loop over lines is the run of the automaton |
| DumpParser.StepGrows | tools/minidump_convertor.py:22-73 | a line appends registers, bytes, a base address, frames or threads, and changes nothing but the newest frame |
| DumpParser.RunGrows | tools/minidump_convertor.py:17-74 | over a whole run earlier threads and frames stay exactly as they were |
| DumpParser.LineAdds | tools/minidump_convertor.py:24-42 | a thread is added exactly by a thread line, and a frame exactly by a frame header inside a thread, each with its own fields and otherwise empty |
| DumpParser.LineFills | tools/minidump_convertor.py:46-73 | registers, bytes and base address come exactly from a line of the right block, and nothing else changes the newest frame |
| DumpParser.NumbersAre | tools/minidump_convertor.py:65-69 | a row raises exactly for a number that is no byte, and adds its bytes in order without the tokens that are no number |
| DumpParser.BlockChanges | tools/minidump_convertor.py:22-73 | which block follows which, line by line |
| DumpParser.RaisesIff | tools/minidump_convertor.py:22-73 | the lines on which the parser raises, and the one kind of line after which a block has no frame to refer to |
| DumpParser.TextRaisesIff | tools/minidump_convertor.py:17-74 | for every text, parsing raises if and only if some line is faulty for the block, and the presence of a frame, that can be read off the lines before it |
| DumpParser.LineAfterEarlyHeader | tools/minidump_convertor.py:43-73 | a stack header before the first frame of its thread makes the next line raise, unless that starts a thread |
| DumpText.RenderRoundTrip | tools/minidump_convertor.py:17-74 | parsing the canonical text of any thread list never raises, and gives it back if and only if no frame has stack bytes at base address zero |
| DumpText.PreambleIgnored | tools/minidump_convertor.py:21-30 | lines before the first thread line have no effect |
| DumpText.NoiseInside | tools/minidump_convertor.py:33-45 | nor has a line inside a thread that is neither a frame nor a stack header |
| ContextIO.ContextWriter.PutFrame | tools/minidump_convertor.py:114-130 | writes one frame's records, and fails if and only if a field is out of its width |
| ContextIO.ContextWriter.PutThread | tools/minidump_convertor.py:107-130 | writes one thread's header and its frames |
| ContextIO.ContextWriter.WriteContext | tools/minidump_convertor.py:97-130 | the file holds exactly the encoding of the limited threads, and writing succeeds if and only if every field fits and the limit is at least -1 |
| ContextIO.ContextReader.GetFrame | src/dwarf2line/dwarf_context.cpp:39-64 | reads one frame as the grammar parses it and moves the position past it |
| ContextIO.ContextReader.GetThread | src/dwarf2line/dwarf_context.cpp:35-65 | reads one thread and its frames |
| ContextIO.ContextReader.Load | src/dwarf2line/dwarf_context.cpp:11-70 | the nested loops of reads compute the parse of the file: too small, bad magic, cut short or loaded |
| ContextFile.RoundTrip | src/dwarf2line/dwarf_context.cpp:25-66 | for every thread list and limit that can be written, reading gives the limited prefix (names cut at their first zero byte), consumes every byte and leaves any suffix |
| ContextFile.FramesSurviveIff | src/dwarf2line/dwarf_context.cpp:42-47 | frames come back unchanged if and only if no name contains a zero byte |
| ContextLayout.LimitedMeans | tools/minidump_convertor.py:101-106 | the limit leaves the first threads, all of them for -1 |
| ContextLayout.WritableIff | tools/minidump_convertor.py:101-130 | a context can be written exactly when the limit is at least -1 and the fields of the threads it leaves are in their ranges |
| ContextLayout.FrameExample | tools/minidump_convertor.py:112-130 | a frame, byte by byte |
| ContextLayout.ThreadExample | tools/minidump_convertor.py:104-109 | a thread, byte by byte |
| ContextLayout.LayoutExample | tools/minidump_convertor.py:97-102 | a file, byte by byte |
| ContextLayout.HeaderMeans | src/dwarf2line/dwarf_context.cpp:25-33 | version, word size and number of threads are taken from their places in the header |
| ContextLayout.RefusedIff | src/dwarf2line/dwarf_context.cpp:14-31 | a file is refused exactly for being shorter than the header or not beginning with DWFC |
| Providers.ReadMemoryIsExact | src/dwarf2line/dwarf2line.cpp:66-97 | without wrap-around the provider serves exactly the requests that begin and end in the stack, byte for byte |
| Providers.PastEndIff | src/dwarf2line/dwarf2line.cpp:82-91 | it hands out a pointer whose request leaves the buffer if and only if the request starts inside and its end wraps to an address not past the stack's |
| Providers.DerefSizeReads | src/dwarfexpr/dwarf_expression.cpp:398-428 | deref_size on an address in the stack gives the bytes there as a number |
| Providers.DerefReads | src/dwarfexpr/dwarf_expression.cpp:366-386 | deref gives the eight bytes, and an error exactly on its sentinel |
| Providers.DerefOutside | src/dwarfexpr/dwarf_expression.cpp:366-428 | outside the stack deref and deref_size fail at their own offset |
| Providers.NothingWithoutFrame | src/dwarf2line/dwarf2line.cpp:39-97 | without a first frame there are no registers and no memory |
| Providers.SavedRegisterIsRead | src/dwarfexpr/dwarf_frames.cpp:112-161 | a register saved at a signed offset from the CFA, or where an expression says, is recovered as the word that the stack snapshot holds there, or as none outside it |
| Providers.FirstFrameSurvives | src/dwarf2line/dwarf2line.cpp:39-47 | the first frame that the providers see is the first frame of the text, whatever lines come before its threads |
| Providers.TextToRegister | src/dwarf2line/dwarf2line.cpp:49-64 | from dump text, preamble included, through converter, file, loader and provider, reg n is the n-th value shown, and an error beyond the last |
| Providers.TextToValue | src/dwarf2line/dwarf2line.cpp:66-97 | over the same way, deref_size n at base + k is the little-endian value of the n bytes shown there, and equals deref modulo 256^n off the sentinel |
| DieSearch.CuContext.MatchFuncDie | src/dwarfexpr/dwarf_searcher.cpp:107-133 | found exactly when the DIE's range contains the pc, and func_die set exactly then |
| DieSearch.CuContext.SearchInDieTree | src/dwarfexpr/dwarf_searcher.cpp:182-277 | the loop with its recursion on the shared context gives code, level and func_die of the search function |
| DieSearch.SearchFunction | src/dwarfexpr/dwarf_searcher.cpp:279-334 | units are tried in order, an error ends the search |
| DieSearchLaws.FirstMatchMeaning | src/dwarfexpr/dwarf_searcher.cpp:107-133 | the first match is a function that contains the pc with none before it, and no match means that there is none |
| DieSearchLaws.SearchSeesView | src/dwarfexpr/dwarf_searcher.cpp:182-277 | on every nested list of every tree, the search returns the first match among the DIEs it examines, and on a miss the level is back at the caller's plus one for every list given up |
| DieSearchLaws.UnitSearch | src/dwarfexpr/dwarf_searcher.cpp:182-277 | the same for an admitted unit, for all trees |
| DieSearchLaws.CleanSeesAll | src/dwarfexpr/dwarf_searcher.cpp:182-277 | without nested units and without lists that start with a rangeless function, the DIEs examined are the pre-order |
| DieSearchLaws.CleanUnitSearch | src/dwarfexpr/dwarf_searcher.cpp:182-277 | then FOUND is returned if and only if some function contains the pc, func_die is the first such in pre-order, and a miss restores the level |
| DieSearchLaws.MissExampleMisses | src/dwarfexpr/dwarf_searcher.cpp:188-194 | a class whose first member is only declared hides the defined one after it |
| DieSearchExact.AbortsIff | src/dwarfexpr/dwarf_searcher.cpp:165-177 | a nested list ends the whole search if and only if it starts with a unit, or is not given up and a list below it ends the search |
| DieSearchExact.SeenIff | src/dwarfexpr/dwarf_searcher.cpp:182-277 | a DIE is examined if and only if it stands at a place before which no list ends the search and no list on the way, its own included, was given up or starts with a unit |
| DieSearchExact.SeenWithin | src/dwarfexpr/dwarf_searcher.cpp:182-277 | on every tree, the DIEs examined are the pre-order with some left out |
| DieSearchExact.FoundIsRightIff | src/dwarfexpr/dwarf_searcher.cpp:182-277 | for every admitted unit, FOUND is returned for exactly the pcs that some function contains, if and only if each of those is in a function at an examined place |
| DieSearchExact.FirstFunctionIsRightIff | src/dwarfexpr/dwarf_searcher.cpp:182-277 | for every admitted unit, func_die is for every pc the first function in pre-order, if and only if every function, at each pc it contains, has one at an examined place, itself or earlier, that contains the pc |
| DieSearchExact.FindFunctionSees | src/dwarfexpr/dwarf_searcher.cpp:279-334 | over units without errors, whatever their trees, the answer is the first unit with an examined match and the first such match |
| DieSearchExact.FindFunctionIsFirst | src/dwarfexpr/dwarf_searcher.cpp:279-334 | when nothing that matters is hidden, it is the first admitted unit with a match, and its first match in pre-order |
| DieBounds.ContainsIsBounded | src/dwarfexpr/dwarf_utils.cpp:207-231 | a function contains a pc exactly when its own low and high pc bound it, a high pc of the constant class counting from the low pc without wrapping |
| DieBounds.RangelessLacks | src/dwarfexpr/dwarf_utils.cpp:216-230 | a function has no range exactly when it lacks one of the two attributes |
| DieBounds.AlwaysBounded | src/dwarfexpr/dwarf_searcher.cpp:279-334 | whatever the units, a function found has attributes that bound the pc |
| DieBounds.FoundFunctionIsBounded | src/dwarfexpr/dwarf_searcher.cpp:279-334 | over units that hide nothing that matters, the function found is the first with attributes that bound the pc, and none is found exactly when there is none |
| DieBounds.ErrorEndsSearch | src/dwarfexpr/dwarf_searcher.cpp:323-324 | a unit whose verdict is an error ends the search with nothing found |
| DieBounds.OffsetExample | src/dwarfexpr/dwarf_utils.cpp:218-224 | a function at 0x1000 with a high pc of offset 0x20 is found at 0x1010 and not at 0x1020 |
| DieWalk.Walker.WalkDie | src/dwarfexpr/dwarf_utils.cpp:474-520 | the loop with its recursion makes exactly the specified calls, for any level and limit |
| DieWalk.FullWalkIsPreorder | src/dwarfexpr/dwarf_utils.cpp:474-520 | with max_lv -1 the walker is called once on each DIE, in pre-order, with its parent |
| DieWalk.BoundedWalk | src/dwarfexpr/dwarf_utils.cpp:483-519 | with a limit, the children of a DIE are entered exactly when its list's level plus the number of earlier siblings with children is below the limit, at that sum plus one |
| DieWalk.OneLevelWalk | src/dwarf2line/dwarf2line.cpp:272-272 | the walk from level 0 to 1 visits the sibling list and the children of the first DIE of it that has any |
| DieWalk.CollectedAre | src/dwarf2line/dwarf2line.cpp:272-301 | the variables collected are those among the siblings up to the first DIE with children, that DIE's children, and the siblings after it |
| DieWalk.CollectedAreOwnIff | src/dwarf2line/dwarf2line.cpp:272-301 | they are the function's own if and only if no later sibling is a variable and the children visited are its own, or there are none, or they hold no variable |
| DieWalk.GlobalListedExample | src/dwarf2line/dwarf2line.cpp:272-301 | a global variable after a function is listed with its locals |
| DieWalk.OtherLocalExample | src/dwarf2line/dwarf2line.cpp:272-301 | the local of a later function is listed for one without children |
| LineLookup.GetFileNameAndLineNumber | src/dwarfexpr/dwarf_utils.cpp:412-471 | the loop with its previous-row variables gives file and number of the row that `Lookup` picks |
| LineLookup.DescribingRowFoundIff | src/dwarfexpr/dwarf_utils.cpp:416-456 | for every table, a row that describes the pc is found if and only if no earlier row but the first starts beyond the pc |
| LineLookup.AnswerDescribesIff | src/dwarfexpr/dwarf_utils.cpp:416-464 | for every table, the answer describes the pc if and only if some row does and no earlier row but the first starts beyond the pc |
| LineLookup.WrongAnswers | src/dwarfexpr/dwarf_utils.cpp:416-464 | an answer that does not describe the pc is the last row, ends a sequence, or is a first row that starts beyond the pc |
| LineLookup.AscendingIsRight | src/dwarfexpr/dwarf_utils.cpp:416-456 | in an ascending table the answer is the row that describes the pc, whenever there is one |
| LineLookup.UnreadableEnds | src/dwarfexpr/dwarf_utils.cpp:419-444 | a row that cannot be read ends the table |
| LineLookup.OutOfOrderExample | src/dwarfexpr/dwarf_utils.cpp:445-450 | a table of two sequences, the later at lower addresses, in which a pc of the later is given the first row |
| Utf16.Utf16ToUtf8Loop | src/minidump/minidump.cpp:12-69 | the loop that advances twice for a pair computes the conversion, or the empty string |
| Utf16.AppendUtf8 | src/minidump/minidump.cpp:49-65 | appends the one to four bytes of a code point |
| Utf16.ConvertDecodes | src/minidump/minidump.cpp:12-69 | for every input without a unit in DD00-DFFF the output decodes by section 3 of RFC 3629 to the code points of section 2.2 of RFC 2781, and is given up if and only if there are none |
| Utf16.ConversionIsRightIff | src/minidump/minidump.cpp:27-40 | on well-formed UTF-16 the conversion is right if and only if no low surrogate is above DCFF |
| Utf16.AcceptsIff | src/minidump/minidump.cpp:20-45 | the conversion accepts a string if and only if a unit is a high surrogate exactly when a known low one follows, and none stands first |
| Utf16.AcceptedDecodesIff | src/minidump/minidump.cpp:41-65 | of every accepted string, well-formed or not, the output is UTF-8 if and only if no unit is in DD00-DFFF |
| Utf16.OutputIsUtf8Iff | src/minidump/minidump.cpp:12-69 | for every input the output is UTF-8 if and only if the input is given up or has no such unit |
| Utf16.RightIff | src/minidump/minidump.cpp:12-69 | for every input the output stands for its code points, or is empty because it has none, if and only if there is no such unit, or the input is no UTF-16 and is given up |
| Utf16.UnknownLowLetThrough | src/minidump/minidump.cpp:41-57 | the shortest failing inputs: a lone low surrogate above DCFF becomes three bytes that are no UTF-8 |
| Utf16.OutputLength | src/minidump/minidump.cpp:12-69 | the output is at most three bytes for a unit, for all inputs |
| MinidumpFile.Minidump.ReadBytes | src/minidump/minidump.cpp:467-475 | the bytes at the cursor, or nothing and a stream that stays failed; reading no bytes succeeds anywhere |
| MinidumpFile.Minidump.ReadList | src/minidump/minidump.cpp:244-298 | every check and read of ReadStream in its order, the cursor and the items left by each exit |
| MinidumpFile.Minidump.ReadRecord | src/minidump/minidump.cpp:227-242 | ReadStreamSingle, a short read overwriting only the front of the record |
| MinidumpFile.Minidump.ReadThreadListStream | src/minidump/minidump.cpp:300-316 | the thread list, then a context for each thread in order until one cannot be read, none replacing an earlier one |
| MinidumpFile.Minidump.ReadExceptionStream | src/minidump/minidump.cpp:367-379 | the exception record and its context, which replaces any other |
| MinidumpFile.Minidump.ReadStreams | src/minidump/minidump.cpp:115-157 | the dispatch loop leaves the state of the run over the directory |
| MinidumpFile.Minidump.GetThread | src/minidump/minidump.cpp:493-500 | the first thread with the id, or none has it |
| MinidumpFile.Minidump.GetMemory | src/minidump/minidump.cpp:513-531 | the loop over descriptors returns the bytes and leaves the cursor of `FindMemory` |
| MinidumpLaws.StreamAccount | src/minidump/minidump.cpp:244-298 | a successful read moves the cursor by exactly data_size, gives the counted number of items, and item i is its own slice, padding or not |
| MinidumpLaws.ListRoundTrip | src/minidump/minidump.cpp:244-298 | reading inverts the encoding of every list, with and without the padding, anywhere in a file |
| MinidumpLaws.ThreadsAndContextsAgree | src/minidump/minidump.cpp:300-316 | for every id, duplicated ones too, GetContext gives the context of exactly the thread that the scan finds |
| MinidumpLaws.MemoryIsFirstAccepting | src/minidump/minidump.cpp:513-531 | only the first descriptor whose guard accepts is ever read; if bytes are asked for that are not in the file the stream is spoiled and nothing is found |
| MinidumpLaws.AcceptedIsWithinIff | src/minidump/minidump.cpp:516-519 | the guard means containment where nothing wraps, and an accepted request stays in its range if and only if its end does not wrap |
| MinidumpLaws.MemoryIsPartOfRange | src/minidump/minidump.cpp:513-531 | what is served is the part of the range's bytes at the request's distance from its start |
| MinidumpLaws.ReadAllResult | src/minidump/minidump.cpp:115-157 | with the streams read and the contexts they name inside the file, reading a directory gives a dump that is a function of its five streams alone |
| MinidumpLaws.FailureIsFinal | src/minidump/minidump.cpp:477-487 | once a read has failed no later stream changes anything |
| MinidumpLaws.OrderDoesNotMatter | src/minidump/minidump.cpp:115-157 | any permutation of a directory with each type at most once, its streams and the contexts they name inside the file, gives the same dump |
| MinidumpLaws.CrashContextIsExceptions | src/minidump/minidump.cpp:367-379 | in any order the crash thread's context is the exception record's, if it can be read |
| MinidumpRecords.DescribedMemory | src/minidump/minidump.cpp:513-531 | for descriptors as bytes, a request inside a described range and in none before it is served the bytes of the file at the range's place plus the request's distance from its start |
| MinidumpRecords.UndescribedMemory | src/minidump/minidump.cpp:513-531 | a request in no described range finds nothing and leaves the stream where it is |
| MinidumpRecords.DescriptorReads | src/minidump/minidump.cpp:515-521 | a descriptor's first address, size and place are its bytes 0 to 8, 8 to 12 and 12 to 16 |
| MinidumpRecords.ThreadReads | src/minidump/minidump.cpp:306-312 | a thread's id is its first field, the size and place of its context its last two |
| MinidumpRecords.ExceptionReads | src/minidump/minidump.cpp:372-377 | so it is for the exception record, with the location at 160 |
| MinidumpRecords.ContextOfThread | src/minidump/minidump.cpp:300-316 | a thread's context is what the reader makes of the place that its record's bytes name |
| MinidumpRecords.ContextsUntil | src/minidump/minidump.cpp:306-313 | the contexts end at the first that cannot be read, which spoils the stream exactly if the reader ran past the file |
| MinidumpRecords.ExceptionWithoutContext | src/minidump/minidump.cpp:367-378 | an exception whose context cannot be read leaves the contexts alone |
| MinidumpRecords.CrashContext | src/minidump/minidump.cpp:367-379 | in any directory, the crash thread's context is what the reader makes of the place that the exception record's bytes name |
| MinidumpRecords.ListReadIff | src/minidump/minidump.cpp:244-298 | exactly when a list stream is read |
| MinidumpRecords.ListChangesIf | src/minidump/minidump.cpp:248-316 | a list that is not read is changed only where its items were cut short, and its contexts not at all |
| MinidumpRecords.NoRecordNoContext | src/minidump/minidump.cpp:367-370 | an exception record that is not read leaves the contexts alone |
| MinidumpRecords.PartialItems | src/minidump/minidump.cpp:287-295 | what a list that runs past the end of the file leaves |
| MinidumpRecords.RecordReadIff | src/minidump/minidump.cpp:227-242 | exactly when a single record is read, and what it leaves otherwise |
| MinidumpRecords.ListTypes | src/minidump/minidump.cpp:115-125 | streams 3, 4 and 5 are lists of 48-byte threads, 108-byte modules and 16-byte descriptors, each filling its own list alone |
| MinidumpRecords.RecordTypes | src/minidump/minidump.cpp:126-156 | streams 6 and 7 are records of 168 and 56 bytes, and every other type is passed over |

## Left out

- libdwarf's calls: attributes, location lists, frame entries, line tables and DIEs are given as values, and the errors of its child and sibling calls do not occur.
- The opcode bytes and libdwarf's table of names: operations are grouped as the switch groups them, and an operation is `Illegal` where the name is missing.
- The operands op2 and op3 of an operation: the evaluator reads neither.
- matchCUDie and getRnglistsBase: the verdict on a unit is an input of the search. That the verdict from the low and high pc is overwritten at line 47 is therefore not visible in the model.
- Unwinding.ComputeCfa: the frame entry at a pc and the rows of its columns are functions given by libdwarf, and the values of the other columns, which are only printed, are evaluated and dropped.
- DieSearchExact.FirstFunctionIsRightIff: assumes that every DIE has its own offset, as libdwarf's do.
- Termination.VariableReturns: termination is stated as fuel and budget that suffice for any expression, not as a Dafny termination measure on the program's own recursion, which has none in general.
- DieWalk.Walker.WalkDie: the walker is the list of its calls; the level it is told, which no caller reads, is not recorded.
- LineLookup.GetFileNameAndLineNumber: a table without a readable first row gives nothing here, where the source copies from a null pointer; the table version check is not modelled.
- DumpParser.Converter.Feed: the regular expressions and the hexadecimal and decimal tokenising are not modelled; a line is what each test would find in it. The modules list is never filled by the source.
- ContextIO.ContextWriter.WriteContext: the file is the bytes written; opening it and the progress that is printed are not modelled.
- ContextIO.ContextReader.GetFrame: a file that ends inside a frame gives nothing, where the source goes on with lengths and registers that no read has set.
- ContextIO.ContextReader.GetThread: so does a file that ends inside a thread.
- ContextIO.ContextReader.Load: a file that ends early is `CutShort`, where the source does not notice and keeps what the failed reads left; a name is read up to its length, where the source relies on a terminator.
- The layouts behind MinidumpContext and the conversion of old contexts: a context is what an abstract reader makes of a location.
- MinidumpLaws.OrderDoesNotMatter: compares everything but the stream's position, which the next seek sets.
- The minidump's header and directory parsing, ReadString, the dump printers, and the module's names.
- addOp, setOps and clear: an expression is made from its list of operations.
- The two lists of locals and parameters, and variables that cannot be loaded: `Collected` is one list of them all.
- DwarfVar, DwarfType, DwarfTag, the attribute getters, demangling, disassembly, argument parsing and printing: presentation and thin wrappers.
- Ownership and deallocation of libdwarf's objects.
