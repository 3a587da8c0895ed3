# TX-2 simulator: a verified model

A Dafny model of the parts of the TX-2 simulator and its assembler whose correctness is
least visible in the code, with proofs of what those parts promise. `dafny verify
dfyconfig.toml` checks all of it.

Where the source changes things step by step, the model does too: a class with the source's
fields and methods, or a method with the source's loop. Each such method is tied by its
`ensures` to a function on snapshots of the state, and the theorems are lemmas about those
functions, over single steps, over every run and over every interleaving.  What an operation
computes is also stated without those functions: in bits, remainders, times and tables.

| part | files |
|---|---|
| machine words and 17-bit addresses | `Words` |
| control unit: priorities, program counters, hold, trap, deferred addressing | `Sequencing`, `DeferredAddressing`, `DeferredWalks`, `Control` |
| assembler: syntax tree, meaning of symbols, scopes, the evaluator, macros, RC-words, layout | `AssemblyTree`, `WordBits`, `Unfolding`, `Scoping`, `SymbolEvaluation`, `MacroSubstitution`, `MacroScripts`, `MacroCapture`, `RcAllocation`, `BlockLayout` |
| tick loop, alarms and device polling | `Alarms`, `Devices`, `Simulation`, `TickLoop` |
| lock-free pen record | `RecordChannel`, `PenTransport` |
| Sketchpad ring reconstruction | `Rings` |
| Lincoln Writer codes | `LincolnCharset`, `LincolnCodec` |
| exchange element | `Exchange` |
| memory unit | `MemoryMap`, `MemoryAnswers`, `Memory` |
| assembly mode of the paper tape | `Splay` |

## Conventions

- An opcode body is an arbitrary effect on flags, index registers (never register 0), trap
  mode, E and alarms; it moves P only by asking `set_program_counter` to.
- What the outside world does (answers of units, effects of instructions, the order in which
  two threads get to act) is an argument of the step functions, so each theorem holds for all
  of it.
- Sequence flags, alarm kinds and active quarters are sets; the poll queue is a map from a
  unit to the time it is due.
- Rust panics and failed assertions are outcomes whose exact conditions are proved, or
  preconditions that are proved to be met; those inside opcode bodies and device drivers are
  not part of this model.
- Word types differ by use: numbers for the assembler, bit vectors for the exchange element
  and the tape, sequences of bits for memory.

## Where the code does not do what one might expect

Each of these is a lemma in the table below, with the exact condition unless it says otherwise.

- STARTOVER does not save P, so the sequence it interrupts loses its place
  (`StartOverKeepsPcsIff`).
- The test for a marked placeholder compares a one's complement number with zero and so
  misses the mark on minus zero (`MarkedPlaceholderIsMarkBitExceptMinusZero`).
- A unit that is due while it is disconnected is dropped from the poll queue, and connecting
  it does not put it back (`ForgottenUnitIsNeverPolled`).
- A poll in which some unit has a masked alarm does not wake the machine, although the flags
  found raised are raised (`PollWakesIff`, `MaskedAlarmHidesTheFlag`); if such a poll is late
  and the machine is in limbo, a subtraction of times underflows (`TickCrashesIff`).
- `update_poll_time` takes it for unreachable that a poll is asked for of a unit up to 40
  (octal), but every completed IOS asks for one of the unit it names, and every completed TSD
  for one of its own sequence. So an IOS for unit 0, or a TSD in sequence 0, panics
  (`CanBringForwardIff`, `FirstInstructionCrashesIff`, `TickCrashesIff`); a run of the driver
  panics exactly if it comes to such an instruction (`TimeNeverGoesBack`, `RunUntilStop`).
- Fetching an instruction or an operand from V-memory while the trap circuit sets metabits
  panics, because the memory unit refuses (`PanelRefusesMarks`, `TickCrashesIff`).
- With an unmasked alarm active and an instruction due, `next_tick` never moves on
  (`UnmaskedAlarmStallsTime`).
- SKM's cycle is a rotation: the lowest bit of a positive odd number becomes its sign, so the
  result is not half of it (`CycleHalvesIff`).
- The evaluator notices loops by name alone.  A symbol of a macro expansion that hides
  another of the same name is reported as a loop although it has a value
  (`HiddenNameHasValue`; `EvaluateWord` has the exact condition).
- A macro argument is not moved to the script of its use as a whole: its parts are put into
  that script. It keeps its meaning if its parts are in normal script and, outside normal
  script, joined by logical operators only (`FittingArgument`). The condition is exact for an
  argument of one symbol, number or `#` (`SimpleArgumentKeptIff`), for distinct symbols joined
  by any number of operators (`ChainKeptIff`) and, zero apart, for a symbol and a number
  (`SymbolAndNumberKeptIff`); for longer arithmetic with numbers or with a symbol that comes
  twice, it is sufficient only, since such terms may cancel
  (`CancellingArgumentIsKept`).
- A macro argument means in the body what its names mean there: a symbol of the expansion
  captures a name, on its lines and in RC-words, and the address of the line or of the RC-word
  takes the place of `#` (`LineCapturesSymbolIff`, `LineCapturesHereIff`,
  `SymbolIsCapturedIff`, `HereIsCapturedIff`).
  Without capture an argument has the value it has at the invocation (`ExpansionBindsValues`;
  its condition is sufficient, since two definitions of a name may agree by chance).
- Beyond the 17-bit address space the address of a new RC-word wraps
  (`NewAddressNamesNewWordIff`), and a tag no longer names its word (`TagNamesItsWordIff`).
- A full stop is always encoded as a subscript (`FullStopIsEncodedAsSubscript`).
- The comment on `UnitType` in `cpu/src/io.rs:134-147` counts unit 40 (octal) as hardware; the code,
  which the model follows, takes it for an index register.

## Model

| member | source | states |
|---|---|---|
| `Words.IndexByComplementCancels` | base/src/types.rs:196-222 | moving an address by a value and then by its one's complement gives it back, around the 17-bit ring, mark bit included |
| `Words.IndexByMoves` | base/src/types.rs:196-237 | indexing adds the one's complement number in the register to the lower 17 bits, modulo 2^17, keeps the mark bit, and gives nothing else |
| `Words.SuccessorCounts` | base/src/types.rs:196-237 | counting on adds one modulo 2^17 and keeps the mark bit |
| `Words.MarkedPlaceholderIsMarkBitExceptMinusZero` | cpu/src/control.rs:794-796 | the placeholder test sees the mark bit of every saved counter except minus zero |
| `Words.LowestFrom` | cpu/src/control.rs:201-208 | the highest-priority raised flag: in the set, and no lower-numbered one is |
| `Sequencing.SelectHonoursPriority` | cpu/src/control.rs:963-1015 | with no hold and a flag raised, the chosen sequence outranks or equals every raised flag, and is the top one if the old one could not run; also when diverted to trap 42 |
| `Sequencing.LimboIffNothingMayRun` | cpu/src/control.rs:963-1015 | limbo exactly when there is no hold, no flag and no runnable sequence |
| `Sequencing.InterruptedIff` | cpu/src/control.rs:963-1015 | without a hold, a sequence that can go on is interrupted exactly by a flag of higher priority |
| `Sequencing.TrapDivertsIff` | cpu/src/control.rs:788-825 | a change is diverted to 42 (octal) exactly if the trap is set, the new sequence comes after 42 and its counter is marked and not minus zero, and 42 is not the current one |
| `Sequencing.ChangeLoadsP` | cpu/src/control.rs:788-854 | P comes from the index register of the sequence chosen, for sequence 0 from the start point |
| `Sequencing.ChangeConservesPcs` | cpu/src/control.rs:788-854 | a change of sequence, diverted or not, leaves the logical program counter of every sequence but 0 as it was, and X0 zero |
| `Sequencing.ChangeLeavesRecordInE` | cpu/src/control.rs:827-838 | E names the interrupted sequence, the requested one and the old P |
| `Sequencing.StepKeepsOtherPcs` | cpu/src/control.rs:1236-1486 | one instruction or poll moves no other sequence's counter whose register it does not write |
| `Sequencing.RequestIsObeyed` | cpu/src/control.rs:856-961 | in numbers: a jump or a wait leaves the 17 bits of its target in P, a skip one more than before, and the mark bit stays |
| `Sequencing.WaitingSequenceKeepsItsPlace` | cpu/src/control.rs:788-1015 | over any run, a sequence that is neither executed nor written keeps its program counter |
| `Sequencing.InstructionMovesOnlyItsOwnPc` | cpu/src/control.rs:856-961 | an instruction leaves its own sequence one further, two further after a skip, or at the 17 bits it jumps to or waits at, modulo 2^17 and with the mark bit it had |
| `Sequencing.ResumesWhereItStopped` | cpu/src/control.rs:788-1015 | after any run that leaves it alone, a suspended sequence fetches from the place, in numbers, where its last instruction left it |
| `Sequencing.JumpIsTaken` | cpu/src/control.rs:952-957 | over any run, the instruction of a sequence after a jump is fetched from the physical address jumped to |
| `Sequencing.StoppedInstructionKeepsItsPlace` | cpu/src/control.rs:1398-1430 | an instruction that stops the machine leaves its sequence at that instruction |
| `Sequencing.OutputDefersTheChoice` | cpu/src/control.rs:1456-1486 | an instruction with output leaves the choice of sequence to the next fetch |
| `Sequencing.StartOverKeepsPcsIff` | cpu/src/control.rs:741-751 | STARTOVER conserves all counters exactly when no other sequence was current or its register already held P |
| `Sequencing.PollsOnlyRaiseFlags` | cpu/src/control.rs:1103-1146 | any number of polls changes flags only, and lowers none |
| `Sequencing.UnheldBoundaryIsOpen` | cpu/src/control.rs:1456-1486 | after an instruction without hold, priorities decide at the next fetch |
| `Sequencing.HoldProtectsOneBoundary` | cpu/src/control.rs:963-975 | a held instruction keeps its sequence for exactly one boundary, whatever flags polls raise |
| `Sequencing.WaitingGivesUpTheHold` | cpu/src/control.rs:1456-1460 | dismiss-and-wait gives up the hold at once |
| `DeferredAddressing.ReturnMeansEndless` | cpu/src/control.rs:1658-1839 | a deferred chain that comes back to an address already loaded never reaches a direct one |
| `DeferredAddressing.ChaseIsExact` | cpu/src/control.rs:1658-1839 | the loop with its set of seen addresses reports a direct end, an unreadable word or a loop exactly when the unbounded chain has it |
| `DeferredWalks.NextLoads` | cpu/src/control.rs:1735-1765 | one deferred cycle loads the right half of the word it points at, moved by the index register that the low six bits of the left half name |
| `DeferredWalks.DirectEndIff` | cpu/src/control.rs:1658-1839 | the chain ends at an address exactly if successive deferred cycles lead there and its defer bit is clear |
| `DeferredWalks.UnreadableEndIff` | cpu/src/control.rs:1658-1839 | it ends at an unreadable word exactly if deferred cycles lead to a deferred address of no word |
| `DeferredWalks.EndlessIff` | cpu/src/control.rs:1658-1839 | it is endless exactly if deferred cycles lead on through deferred addresses for any number of times |
| `Control.ControlUnit.ResolveOperandAddress` | cpu/src/control.rs:1658-1839 | leaves in N the undeferred address that the deferred cycles lead to, each indexed by the register its word names, and in Q that address moved by the index register; DEFERLOOPAL exactly for endless chains; the left half of N stays |
| `Control.ControlUnit.SetProgramCounter` | cpu/src/control.rs:856-961 | in numbers: a jump or a wait sets the lower 17 bits of P, counting on adds one to them, both keep the mark bit; a change of sequence loads all of P; nothing else is touched |
| `Control.ControlUnit.ChangeSequenceTo` | cpu/src/control.rs:788-854 | does in place what the change of sequence on snapshots does |
| `Control.ControlUnit.SelectNext` | cpu/src/control.rs:963-1015 | chooses in place the sequence that the specification chooses, and spends the hold if asked to |
| `Control.ControlUnit.PollHardware` | cpu/src/control.rs:1103-1146 | raises exactly the flags found, bit by bit |
| `Control.ControlUnit.StartOverAt` | cpu/src/control.rs:741-751 | raises flag 0 and goes to it without saving P |
| `Control.ControlUnit.ExecuteInstruction` | cpu/src/control.rs:1236-1486 | select, fetch, count on, perform, select again: the whole step, for every outcome |
| `WordBits.LogicalOperators` | assembler/src/asmlib/ast.rs:490-493 | bit by bit, with bits taken by division and remainder: AND, OR and XOR of two values |
| `WordBits.ArithmeticOperators` | assembler/src/asmlib/ast.rs:435-466 | sum, difference and product of the one's complement numbers, if there is room for it; never minus zero |
| `WordBits.DivisionOperator` | assembler/src/asmlib/ast.rs:467-489 | the quotient rounded towards zero; zero by zero gives zero, anything else by plus zero its complement, by minus zero itself |
| `WordBits.LastOperatorGoesLast` | assembler/src/asmlib/ast/asteval.rs:36-59 | operators apply from left to right, whatever they are |
| `WordBits.StepSubtracts` | assembler/src/asmlib/ast/asteval.rs:36-59 | the left operand is what came before and the right one has its sign |
| `WordBits.OneAtomHasItsSign` | assembler/src/asmlib/ast/asteval.rs:22-34 | a sign negates the one's complement number |
| `WordBits.ElevateMovesBits` | assembler/src/asmlib/ast/asteval.rs:194-227 | a superscript moves every bit 30 places around the word, a subscript 18 |
| `WordBits.ConfigGoesToItsPlace` | assembler/src/asmlib/ast/asteval.rs:61-81 | a configuration syllable is in bits 30 to 34 and nowhere else |
| `WordBits.PipeIsUnion` | assembler/src/asmlib/ast/asteval.rs:229-264 | a bit of the pipe construct is set exactly if it is in the index, in the address of the RC-word, or is bit 17 |
| `WordBits.HoldDecidesOneBit` | assembler/src/asmlib/ast/asteval.rs:339-352 | the hold syllable decides bit 35 and no other |
| `WordBits.CommasFollowTheChart` | assembler/src/asmlib/ast/asteval.rs:296-329 | commas move, repeat and drop quarters as the comma chart says, all sixteen entries |
| `WordBits.FragmentValue` | assembler/src/asmlib/ast/asteval.rs:331-361 | the hold syllable takes effect before the commas do |
| `WordBits.WordIsUnionOfFragments` | assembler/src/asmlib/ast/asteval.rs:380-412 | a word has a value exactly if all its fragments have, and a bit of it is set exactly if it is in the value of some fragment |
| `AssemblyTree.ElevateCommutesWithCombine` | assembler/src/asmlib/ast/asteval.rs:194-265 | moving values to a script's place and combining them bit by bit commute, for any bitwise operator |
| `AssemblyTree.ElevateCommutesWithNot` | assembler/src/asmlib/ast/asteval.rs:194-265 | moving a value to its script's place and complementing it commute, which is why a negated argument may be elevated |
| `Unfolding.MeaningsMonotone` | assembler/src/asmlib/eval.rs:253-325 | a value found with fewer defaults or less depth stays the same with more |
| `Unfolding.SenseUnfolds` | assembler/src/asmlib/eval.rs:838-888 | with no bound on depth, a name means exactly what its definition means, or its default |
| `Unfolding.WordSense` | assembler/src/asmlib/eval.rs:838-888 | a word has a value exactly if it has one at some depth, and all depths that give one give the same |
| `Unfolding.DefinitionNeeds` | assembler/src/asmlib/eval.rs:838-888 | a definition with a value gives every name it depends on a value one level down, in the scope where that is looked up |
| `Unfolding.PathsAreShort` | assembler/src/asmlib/eval.rs:838-888 | what unfolds within a depth starts no longer chain of lookups |
| `Unfolding.CyclesNeverUnfold` | assembler/src/asmlib/eval.rs:634-665 | lookups that reach a cycle do not all have values, at any depth |
| `Scoping.ReplayPath` | assembler/src/asmlib/eval.rs:451-471 | a chain of lookups can be followed again, name by name, with more definitions in force |
| `Scoping.PathWidens` | assembler/src/asmlib/ast/asteval.rs:113-116 | with one definition to a name, scopes only grow along a chain of lookups |
| `Scoping.ValuesAlongPath` | assembler/src/asmlib/eval.rs:838-888 | along a chain that starts with a value every lookup has one, less deep each time |
| `Scoping.RepeatsNeverUnfold` | assembler/src/asmlib/eval.rs:634-665 | with one definition to a name, whatever leads back to a name never has a value |
| `Scoping.HiddenNameHasValue` | assembler/src/asmlib/ast/asteval.rs:113-116 | a program in which a hidden name has a value although the chain of lookups comes back to it |
| `SymbolEvaluation.PushFindsLoop` | assembler/src/asmlib/eval.rs:634-665 | finding a name on the stack gives a real chain of lookups that ends in a repeated name |
| `SymbolEvaluation.PopIsFresh` | assembler/src/asmlib/eval.rs:634-665 | if no chain from what a name needs meets a name twice, none from the name does |
| `SymbolEvaluation.CyclicWordHasNoValue` | assembler/src/asmlib/eval.rs:634-665 | a word that reaches a cycle has no value under any defaults |
| `SymbolEvaluation.RepeatingWordHasNoValue` | assembler/src/asmlib/eval.rs:634-665 | with one definition to a name, a word that leads back to a name has no value at any depth, whatever the defaults |
| `SymbolEvaluation.WordDone` | assembler/src/asmlib/eval.rs:634-665 | what the promises kept by every step amount to for a whole word, in terms of its value at whatever depth it has one |
| `SymbolEvaluation.Evaluation.EvaluateWord` | assembler/src/asmlib/eval.rs:634-665 | ends on every program, cyclic ones included; succeeds exactly when the definitions unfold, at some depth, and no chain of lookups comes back to a name, with that value, those RC-word updates and an empty stack; a word that has a value but comes back to a name is reported as a loop, and a reported loop is such a chain; with one definition to a name, succeeds exactly when there is a value |
| `SymbolEvaluation.Evaluation.EvaluateRcRef` | assembler/src/asmlib/ast/asteval.rs:83-121 | the symbols of an expansion are in force for its words and all they look up; the value is the first address |
| `SymbolEvaluation.Evaluation.EvaluateNormalSymbol` | assembler/src/asmlib/eval.rs:634-665 | push, look up, pop: the value of the name, the stack as before, or a loop report that extends it |
| `SymbolEvaluation.Evaluation.FetchOrAssignDefault` | assembler/src/asmlib/eval.rs:253-325 | the default of an undefined name, assigned on first use and kept; index registers are handed out in order until there are none |
| `MacroSubstitution.WordKept` | assembler/src/asmlib/ast.rs:2051-2082 | eliding omits a word exactly when it uses an unbound parameter anywhere; substituting zero never omits |
| `MacroSubstitution.WrappedValue` | assembler/src/asmlib/ast.rs:1097-1112 | an argument wrapped in parentheses where it is negated or compound has the value of the argument |
| `MacroSubstitution.FittingArgument` | assembler/src/asmlib/ast.rs:1231-1262 | putting the parts of an argument that fits into a script gives its value, moved to that script; parenthesised, negated and bitwise arguments fit |
| `MacroSubstitution.UseValue` | assembler/src/asmlib/ast.rs:1090-1146 | one use of a parameter has its argument's value, moved to the script of the use |
| `MacroSubstitution.ExprSubstituted` | assembler/src/asmlib/ast.rs:500-526 | a substituted expression has the value of the original with each parameter standing for what its argument means where it is put |
| `MacroSubstitution.WordSubstituted` | assembler/src/asmlib/ast.rs:2051-2082 | so does a whole word, nested RC-words and their updates included |
| `MacroScripts.SimpleArgumentKeptIff` | assembler/src/asmlib/ast.rs:1231-1262 | one symbol, number or `#`, with any signs and parentheses, keeps its meaning in a script exactly if it is in normal script or a number its own script leaves alone |
| `MacroScripts.ChainKeptIff` | assembler/src/asmlib/ast.rs:1231-1262 | distinct symbols joined by operators, however many and with any signs, keep their meaning exactly in normal script or if all operators are logical ones |
| `MacroScripts.SymbolAndNumberKeptIff` | assembler/src/asmlib/ast.rs:1231-1262 | a symbol joined with a number, as in `x + 1`, keeps its meaning exactly in normal script, if the operator is a logical one, or if the number is a zero |
| `MacroScripts.CancellingArgumentIsKept` | assembler/src/asmlib/ast.rs:1231-1262 | `x - x` keeps its meaning in every script although it does not fit a raised one |
| `MacroScripts.CompoundArgumentInSuperscriptDiffers` | assembler/src/asmlib/ast.rs:1231-1262 | the product of 2 and 3 used in superscript has no value, although the original has |
| `MacroScripts.SuperscriptArgumentIsFlattened` | assembler/src/asmlib/ast.rs:1231-1262 | the superscript argument 1 used in normal script loses its place |
| `MacroCapture.WordAgrees` | assembler/src/asmlib/ast/asteval.rs:83-121 | a word has one value in two places where all its names have, nested RC-words and their symbols included |
| `MacroCapture.UndisturbedMeans` | assembler/src/asmlib/eval.rs:838-888 | a name means the same in two scopes that define it, and all it leads to, alike |
| `MacroCapture.SubstitutionBindsValues` | assembler/src/asmlib/ast.rs:2051-2082 | a line of an expansion without capture, wherever it is evaluated, means the line of the body with each parameter standing for the value its argument has at the invocation |
| `MacroCapture.ExpansionBindsValues` | assembler/src/asmlib/ast.rs:2403-2465 | so does a whole expansion, with its own symbols in force and an address for each line that is kept |
| `MacroCapture.LineCapturesSymbolIff` | assembler/src/asmlib/ast.rs:2433-2437 | an argument that names a symbol of the expansion gets that one's value: the line is right exactly if both are equal |
| `MacroCapture.LineCapturesHereIff` | assembler/src/asmlib/ast.rs:2438-2446 | `#` as an argument becomes the address of the line: right exactly if the macro is invoked there |
| `MacroCapture.SymbolIsCapturedIff` | assembler/src/asmlib/ast/asteval.rs:113-116 | the same inside an RC-word with symbols of its own |
| `MacroCapture.HereIsCapturedIff` | assembler/src/asmlib/ast/asteval.rs:83-121 | `#` as an argument becomes the address of the RC-word it is put into: right exactly if that is where the macro is invoked |
| `RcAllocation.StepKeepsConsistent` | assembler/src/asmlib/eval.rs:530-618 | each operation that stays in the address space keeps groups contiguous, inside the block and disjoint |
| `RcAllocation.RunKeepsConsistent` | assembler/src/asmlib/eval.rs:530-618 | so does any run |
| `RcAllocation.BlockOnlyGrows` | assembler/src/asmlib/eval.rs:530-618 | no run shrinks the block or forgets or moves a group |
| `RcAllocation.SameKeySameAddresses` | assembler/src/asmlib/eval.rs:556-593 | asking again under a key, however much later, gives the same addresses and allocates nothing |
| `RcAllocation.DifferentKeysDifferentAddresses` | assembler/src/asmlib/eval.rs:556-593 | groups of different keys share no address |
| `RcAllocation.GivenAddressesStayUsable` | assembler/src/asmlib/eval.rs:595-618 | an address that was given out can be updated after any run; it never panics |
| `RcAllocation.UpdateChangesOneWord` | assembler/src/asmlib/eval.rs:595-618 | an update changes the one word at its address, and panics exactly outside the block |
| `RcAllocation.NewAddressNamesNewWordIff` | assembler/src/asmlib/eval.rs:530-544 | the address handed out is that of the new word exactly below the top of memory |
| `RcAllocation.RcBlock.AllocateReusableGroup` | assembler/src/asmlib/eval.rs:556-593 | the method does what the specification of a grouped allocation says |
| `RcAllocation.RcBlock.UpdateWord` | assembler/src/asmlib/eval.rs:595-618 | the method does what the specification of an update says |
| `BlockLayout.PlaceBlocks` | assembler/src/asmlib/driver.rs:400-429 | the loop over blocks places each at its origin, at the default, or after the block before it, or fails |
| `BlockLayout.TagOffsets` | assembler/src/asmlib/manuscript.rs:389-408 | the walk that defines tags numbers the lines of a block in order |
| `BlockLayout.EmitAddresses` | assembler/src/asmlib/memorymap.rs:196-238 | the walk that emits words gives line k of a block its address, across sequences |
| `BlockLayout.TagNamesItsWordIff` | assembler/src/asmlib/eval.rs:861-879 | the value of a tag is the address of its word exactly when both walks treat the top of memory alike |
| `BlockLayout.EvaluatorGivesTagValue` | assembler/src/asmlib/eval.rs:861-879 | the evaluator of symbols gives for a tag the value that the layout theorems are about, or fails where its block has no place |
| `BlockLayout.StartsAfterPreviousIff` | assembler/src/asmlib/eval.rs:773-836 | a block without an origin starts right after the last word of the one before it exactly under the same condition |
| `BlockLayout.EndsBefore` | assembler/src/asmlib/eval.rs:773-836 | in a run of blocks without origins an earlier block ends before a later one starts |
| `BlockLayout.WordsKeepSourceOrder` | assembler/src/asmlib/ast.rs:2374-2431 | words are emitted in source order, no two share an address, and every tag has its word's address |
| `Alarms.StopsExactlyWhenUnmasked` | cpu/src/alarmunit.rs:88-208 | exactly which requests leave an unmasked alarm active; an alarm fired always stops the machine |
| `Alarms.EmulatorFaultsAreNeverMasked` | cpu/src/alarmunit.rs:88-117 | no sequence of requests masks one of the three unmaskable alarms |
| `Alarms.AlarmUnit.AlwaysFire` | cpu/src/alarmunit.rs:183-208 | what is reported is active and unmasked; a masked alarm is joined by BUGAL |
| `Alarms.AlarmUnit.UnmaskedAlarmActive` | cpu/src/alarmunit.rs:149-157 | true exactly when an active alarm is not masked; its assertion cannot fail |
| `Devices.RunKeepsSound` | cpu/src/io.rs:628-662 | connected units are never in maintenance, in every reachable state |
| `Devices.CanBringForwardIff` | cpu/src/io.rs:548-566 | in every reachable state a request for a poll is answered, and does not panic, exactly for units above 40 (octal) |
| `Devices.QueuedAfterStepIff` | cpu/src/io.rs:726-834 | who is in the poll queue after an operation: exactly those put there or not dropped |
| `Devices.ConnectedAfterStepIff` | cpu/src/io.rs:836-965 | who is connected after an operation: units connected outside maintenance and not since disconnected |
| `Devices.QueueTimeAfterStep` | cpu/src/io.rs:548-834 | when a queued unit is due after an operation: as it asked when polled or reported on, at once if brought forward, else as before |
| `Devices.ForgottenUnitIsNeverPolled` | cpu/src/io.rs:775-779 | a unit dropped while disconnected is not polled again, connected or not, until it is reported on or attached |
| `Devices.ConnectedUnitStaysQueued` | cpu/src/io.rs:726-834 | a queued connected unit stays queued for as long as it is connected |
| `Devices.DeviceManager.PollUnits` | cpu/src/io.rs:726-834 | polling ends, leaves nothing due, and returns exactly the flags raised by the connected units that were due, the alarm of a unit that was due no later than any other with one, and the least time left in the queue |
| `Devices.DeviceManager.ConnectUnit` | cpu/src/io.rs:900-965 | refuses units in maintenance; a disconnected output unit raises its flag |
| `Devices.DeviceManager.UpdatePollTime` | cpu/src/io.rs:548-566 | brings a queued unit forward; panics exactly for units that are neither queued nor above 40 (octal) |
| `Devices.DeviceManager.DisconnectEverything` | cpu/src/io.rs:836-853 | disconnects every unit and changes nothing else |
| `Simulation.NextPollIsLater` | cpu/src/io.rs:726-834 | after a poll nothing is due and the next poll is later than now |
| `Simulation.PanelRefusesMarks` | cpu/src/control.rs:1513-1565 | a fetch that sets the metabit is refused, where the caller takes that for unreachable, exactly in V-memory |
| `Simulation.TickCrashesIff` | cpu/src/tx2.rs:468-578 | a tick panics exactly when a late poll meets a masked device alarm in limbo, or the instruction that is due marks V-memory or asks for a poll of a unit up to 40 (octal) |
| `Simulation.FirstInstructionCrashesIff` | cpu/src/control.rs:1386-1390 | just after STARTOVER, an IOS for unit 0 and any TSD panic; exactly which instructions do |
| `Simulation.InstructionStopsIffUnmasked` | cpu/src/control.rs:1410-1455 | an instruction that runs stops the machine exactly when it fires an unmasked alarm |
| `Simulation.InstructionKeepsOnTime` | cpu/src/tx2.rs:394-464 | an executed instruction moves its due time strictly past now, stops the machine only with an unmasked alarm active, and panics only if it is a faulty one |
| `Simulation.TickKeepsOnTime` | cpu/src/tx2.rs:468-578 | called when due, a tick panics exactly at a faulty instruction, fails no assertion or subtraction of its own, and asks for no call in the past; no unmasked alarm survives a tick that went well |
| `Simulation.TimeNeverGoesBack` | cli/src/main.rs:114-181 | over whole runs simulated time never goes backwards, and nothing panics exactly if no faulty instruction is executed |
| `Simulation.InstructionTakesItsTime` | cpu/src/tx2.rs:549-556 | the instruction after one that ran is due its duration after that one was due, or a nanosecond from now if that has passed |
| `Simulation.OtherTicksLeaveIt` | cpu/src/tx2.rs:549-556 | a tick that executes nothing leaves the due time alone; one that falls into limbo sets it to a nanosecond from now |
| `Simulation.InstructionsAreSpaced` | cpu/src/tx2.rs:468-578 | over any run that stays out of limbo, instructions follow one another at exactly the distances of their durations, however often the hardware is polled |
| `Simulation.NextPollIsDue` | cpu/src/tx2.rs:352-464 | the next poll is due when the first unit asks, or in 5000 ns; a request brings it to a nanosecond from now, the light pen to now, and an alarm leaves it |
| `Simulation.AlarmOfPoll` | cpu/src/io.rs:805-832 | inability of a unit is IOSAL and missed data MISAL, of a unit that was due no later than any other that complains |
| `Simulation.AlarmsOfInstruction` | cpu/src/control.rs:1398-1455 | exactly which alarms are active after an instruction |
| `Simulation.TickMakesProgress` | cpu/src/tx2.rs:468-578 | each tick either moves time on or leaves fewer ticks to come at this instant |
| `Simulation.FourthTickIsLater` | cpu/src/tx2.rs:468-578 | the fourth tick is always later than the first |
| `Simulation.UnmaskedAlarmStallsTime` | cpu/src/tx2.rs:341-350 | with an unmasked alarm active, an instruction that is due holds the clock in place |
| `Simulation.PollWakesIff` | cpu/src/tx2.rs:352-392 | a poll wakes the machine exactly when a flag was raised and no unit had an alarm |
| `Simulation.MaskedAlarmHidesTheFlag` | cpu/src/tx2.rs:352-392 | flags raised only together with masked alarms leave the machine in limbo, over any run |
| `TickLoop.Tx2.PollHw` | cpu/src/tx2.rs:352-392 | the poll phase in place, with the flags, the alarm and both due times |
| `TickLoop.Tx2.ExecuteOneInstruction` | cpu/src/tx2.rs:394-464 | the instruction phase in place, with the due times that `InstructionTakesItsTime` and `NextPollIsDue` give |
| `TickLoop.Tx2.DoTick` | cpu/src/tx2.rs:468-578 | one tick of the three units together, early or late, is the specified tick; it panics exactly when that one does |
| `TickLoop.RunUntilStop` | cli/src/main.rs:114-181 | given a limit the driver terminates: at the limit with nothing left before it, at an unmasked alarm, or in a panic, exactly if the run it drives comes to a faulty instruction |
| `RecordChannel.LatestIsWhole` | sketchpad-web/web/pen-transport.js:36-46 | a reader that saw the label of the last record begun has all of that record |
| `RecordChannel.StepKeeps` | sketchpad-web/web/pen-transport.js:24-46 | every single load or store keeps each field at least as new as the label |
| `RecordChannel.EveryInterleaving` | sketchpad-web/web/pen-transport.js:24-46 | in every interleaving each field read is from the record of the label or a newer one, and whole if none newer was begun |
| `PenTransport.EncodingRoundTrips` | sketchpad-web/web/pen-transport.js:16-22 | decoding then encoding is the identity; encoding then decoding is off by at most half a millionth |
| `PenTransport.SplitTimeIsExact` | sketchpad-web/web/pen-transport.js:25-26 | seconds and microseconds together are the time rounded to a microsecond, carry included |
| `PenTransport.LatencyIsElapsedTime` | sketchpad-web/web/pen-transport.js:48-57 | the latency is less than a microsecond off the time elapsed |
| `PenTransport.PublishedPenIsRecovered` | sketchpad-web/web/pen-transport.js:24-46 | what is read back is the pen published, up to rounding |
| `PenTransport.WriteSharedPen` | sketchpad-web/web/pen-transport.js:24-34 | after each single store of the writer the shared array is the channel after as many steps: the fields in order, the sequence number last |
| `PenTransport.StepKeepsSensible` | sketchpad-web/web/machine-worker.js:124-153 | every step of page or worker keeps both channels fresh and the worker acting on what it last read |
| `PenTransport.LatestNumberMeansWholeRecord` | sketchpad-web/web/machine-worker.js:124-153 | in every reachable state, a worker at the latest number has read and applies that one record |
| `PenTransport.HoldEndsIff` | sketchpad-web/web/machine-worker.js:102-153 | a pen held still during acquisition stays applied, whatever is written, exactly until it is located, the machine restarts, or a record is read in which it is not active |
| `PenTransport.TornReadIsNotFinal` | sketchpad-web/web/machine-worker.js:127-127 | the early return happens only after a whole read of the latest record, once no write is under way |
| `PenTransport.UndisturbedReadCatchesUp` | sketchpad-web/web/machine-worker.js:124-153 | one undisturbed read brings the worker up to date |
| `PenTransport.ReportedLatencyIsFresh` | sketchpad-web/web/pen-transport.js:59-64 | the latency shown belongs to the application shown or to a later one |
| `Rings.LinksOfAWord` | video/data/rings.py:63-64 | the previous link is the left half of a word and the next link the right half |
| `Rings.NextIsInjective` | video/data/rings.py:76-87 | two ring words never have the same next word |
| `Rings.FindRingWords` | video/data/rings.py:76-87 | finds exactly the words whose two links are answered |
| `Rings.FollowFrom` | video/data/rings.py:106-115 | one list: linked, without repetition, apart from earlier lists, stopped only where it must |
| `Rings.SplitIntoRings` | video/data/rings.py:101-116 | every ring word ends up in exactly one list, once; each list starts at the least word left |
| `Rings.ListsAreCyclesIffClosed` | video/data/rings.py:101-116 | all lists are true cycles exactly when the ring words are closed under next |
| `Rings.OwnerLocatesTheWord` | video/data/rings.py:90-98 | block base and offset always add up to the ring word |
| `Rings.HenTellsTheOwner` | video/data/rings.py:71-98 | minus n in the highest quarter of the hen puts the block n registers before the hen; a positive number, either zero or no hen puts it at the hen |
| `Rings.CollectBlocks` | video/data/rings.py:117-121 | filing ring words by block loses none and invents none |
| `LincolnCharset.CodesThatChangeMode` | base/src/charset.rs:356-385 | script, keyboard and colour after each code; carriage return resets the first two |
| `LincolnCharset.FullStopIsOneKey` | base/src/charset.rs:58-79 | a full stop comes from one key only, in normal script or as a subscript |
| `LincolnCodec.BuildMapping` | base/src/charset.rs:689-717 | the table has for each character the last combination that prints it, and nothing else |
| `LincolnCodec.TableHasExactlyTheDisplayable` | base/src/charset.rs:689-717 | a character is in the table exactly when some code prints it in some state |
| `LincolnCodec.CharacterDecodes` | base/src/charset.rs:607-657 | the codes for one character print it and leave the decoder where the encoder believes it is, after a carriage return too |
| `LincolnCodec.DecodeUndoesEncode` | base/src/charset.rs:726-766 | decoding what was encoded gives the text back, from any state of the decoder |
| `LincolnCodec.EncodingIsFaithful` | base/src/charset.rs:726-766 | a text is accepted exactly when every character can be printed; at most three codes per character |
| `LincolnCodec.DecodedTextRoundTrips` | base/src/charset.rs:607-657 | what any codes print is accepted by the encoder and prints the same again |
| `LincolnCodec.FullStopIsEncodedAsSubscript` | base/src/charset.rs:689-717 | a full stop is encoded as a subscript, because the later entry wins |
| `LincolnCodec.ToLincoln` | base/src/charset.rs:726-766 | the loop emits the specified codes, or names the first character it cannot encode |
| `LincolnCodec.LincolnToUnicodeStrict` | base/src/charset.rs:607-657 | the loop decodes as specified, starting in the state after a carriage return |
| `Exchange.AtWith` | cpu/src/exchanger.rs:846-852 | clearing and setting a quarter through its mask changes that quarter and no other |
| `Exchange.SameQuarters` | cpu/src/exchanger.rs:301-304 | a word is its four quarters |
| `Exchange.QuarterIsShiftedDown` | cpu/src/exchanger.rs:301-304 | quarter q is nine bits, from bit 9q up |
| `Exchange.SignIsHighestBit` | cpu/src/exchanger.rs:306-314 | the sign of a quarter is its bit 8 and fills all nine bits of another |
| `Exchange.FieldsAre` | cpu/src/exchanger.rs:166-224 | form, activity and permutation as fields of the configuration; a quarter is active if its bit is 0 |
| `Exchange.PermutationsAre` | cpu/src/exchanger.rs:254-295 | the eight permutations as a table, the other direction being its inverse |
| `Exchange.SubwordsAre` | cpu/src/exchanger.rs:344-414 | where each quarter takes a sign from, in each of the four forms, as a table |
| `Exchange.DirectionsAreInverse` | cpu/src/exchanger.rs:254-295 | for every permutation the two directions undo each other |
| `Exchange.Permute` | cpu/src/exchanger.rs:819-855 | the loop moves exactly the active quarters, counted in E for both directions |
| `Exchange.SignExtendQuarters` | cpu/src/exchanger.rs:316-334 | the loop fills each inactive quarter with the sign of the last active one before it |
| `Exchange.SignExtend` | cpu/src/exchanger.rs:344-414 | every quarter ends up with the sign of the nearest active quarter to its right, cyclically within its subword |
| `Exchange.ExchangedValueForLoad` | cpu/src/exchanger.rs:901-908 | a load, quarter by quarter |
| `Exchange.ExchangedValueForStore` | cpu/src/exchanger.rs:919-933 | a store, quarter by quarter |
| `Exchange.ComplementPermute` | cpu/src/exchanger.rs:939-961 | COM gives the complement of a load wherever a load takes something from memory, and the permuted word elsewhere |
| `Exchange.WholeComplement` | cpu/src/exchanger.rs:939-961 | with all quarters active and unpermuted, COM complements every bit |
| `Exchange.ExtensionIsIdempotent` | cpu/src/exchanger.rs:344-414 | extending twice is extending once, and active quarters are never touched |
| `Exchange.StoreBackChangesNothing` | cpu/src/exchanger.rs:901-933 | storing back a loaded value leaves memory as it was, sign extension or not |
| `Exchange.LoadAfterStore` | cpu/src/exchanger.rs:901-933 | loading after a store recovers the active quarters stored, and their signs |
| `Exchange.LoadKeepsTheNumber` | cpu/src/exchanger.rs:901-908 | loading the lowest one, two, three or four quarters of a word keeps the one's complement number in them: zeros above a positive one, ones above a negative one |
| `Exchange.SecondStoreWins` | cpu/src/exchanger.rs:919-933 | a second store overrides the first |
| `MemoryMap.ChangeReachesOneBit` | cpu/src/memory.rs:611-655 | a bit change is seen by a test of that bit and of no other |
| `MemoryMap.CycleHalvesIff` | cpu/src/memory.rs:606-609 | cycling right halves the signed number in a word, rounding towards zero, exactly when it is negative or even |
| `MemoryMap.PutChangesOneWord` | cpu/src/memory.rs:550-568 | a write changes one word; only the metabit shared by registers A to E reaches further |
| `MemoryMap.StepRefinesFlat` | cpu/src/memory.rs:672-827 | each operation does to a writable address what it does to a flat memory |
| `MemoryMap.RunRefinesFlat` | cpu/src/memory.rs:672-827 | so does any run |
| `MemoryMap.RefusedIff` | cpu/src/memory.rs:672-827 | exactly which operations are refused, and how; a refusal changes nothing, the clock apart |
| `MemoryMap.LastStoreCounts` | cpu/src/memory.rs:709-757 | a word stored, with or without its metabit, stays in its bank until an operation at its own address changes it |
| `MemoryMap.PanelIsReadOnly` | cpu/src/memory.rs:1037-1162 | no run changes V-memory outside registers A to E, the clock apart |
| `MemoryAnswers.FetchAnswers` | cpu/src/memory.rs:672-705 | over any run, a fetch answers the word and metabit that the flat memory has before it |
| `MemoryAnswers.StoredIsFetched` | cpu/src/memory.rs:672-757 | a fetch after a store, and any run elsewhere, answers the word stored, and a metabit set exactly if it was, or the store or a later fetch set it |
| `MemoryAnswers.SkmAnswers` | cpu/src/memory.rs:788-827 | SKM answers the bit as it was before the change: of the word, the metabit, or the parity of the number of ones |
| `MemoryAnswers.TsdAnswers` | cpu/src/memory.rs:763-786 | the cycle of TSD answers the metabit as it was |
| `MemoryAnswers.PanelAnswers` | cpu/src/memory.rs:1037-1162 | over any run, V-memory outside registers A to E answers as it did at first, and the clock with the time |
| `MemoryAnswers.SkmMakes` | cpu/src/memory.rs:606-655 | bit by bit: the one bit or metabit changed, then every bit one place to the right, the lowest going to the sign if that is not set |
| `MemoryAnswers.TsdMakes` | cpu/src/memory.rs:763-786 | bit by bit: the whole word one place to the left, the sign going to the lowest bit |
| `MemoryAnswers.FetchMakes` | cpu/src/memory.rs:672-705 | a fetch keeps the word and sets the metabit exactly if asked to, below V-memory |
| `Memory.MemoryUnit.ReadAccess` | cpu/src/memory.rs:527-548 | finds the word of the right bank, or that the address is not mapped |
| `Memory.MemoryUnit.FetchWord` | cpu/src/memory.rs:673-707 | a fetch as specified, metabit and refusals included |
| `Memory.MemoryUnit.StoreWord` | cpu/src/memory.rs:709-757 | a store as specified; what cannot be written is ignored |
| `Memory.MemoryUnit.ChangeOneBit` | cpu/src/memory.rs:788-827 | the bit is tested before the change, and read-only words are only tested |
| `Memory.MemoryUnit.CycleFullWordForTsd` | cpu/src/memory.rs:763-786 | cycles a writable word one place to the left |
| `Splay.LinesBegin` | base/src/splay.rs:73-145 | line n is made of the bits n, n + 6, ... n + 30 of the word, in order |
| `Splay.OneMoreLine` | base/src/splay.rs:30-47 | reading a line puts it first and moves the others on by one |
| `Splay.SameLinesSameWord` | base/src/splay.rs:73-145 | a word is determined by its six lines |
| `Splay.LinesFollowTheTape` | base/src/splay.rs:30-145 | the lines of the word are the last six of what it had and the tape |
| `Splay.LastSixLinesDecide` | base/src/splay.rs:30-145 | after six lines or more, the word depends on the last six only, and unsplaying returns them |
| `Splay.SplayUndoesUnsplay` | base/src/splay.rs:30-145 | splaying the lines of any word into any word gives it back |

## Left out

- Opcode bodies, the timing table and the trap circuit: an instruction is an arbitrary effect. Which fetches set metabits is part of what an instruction does; of the metabits only the panic in V-memory is modelled, and traps raised by them are not.
- Fields of an instruction and their packing (`base/src/instruction.rs`): N is its two halves.
- The rest of the assembler driver: reading the source, macro expansion, punching the tape.
- How macro expansions and tags fill the symbol tables: the tables are arguments, those of expansions included.
- `Devices.DeviceManager.ConnectUnit`: says which refusal it was; the IOSAL alarm that goes with it is one of the alarms of the instruction (`Simulation.Work`) and is not derived from the refusal.
- `MacroSubstitution.WordSubstituted`: its condition on scripts is exact for single atoms, chains of distinct symbols and a symbol with a number, and sufficient only for other arithmetic in a raised script, where terms may cancel.
- `MacroSubstitution.ExprSubstituted`: takes each argument where it is used; `MacroCapture.ExpansionBindsValues` says when that is its value at the invocation.
- Macros invoked in the bodies of macros, whose lines and symbols are merged into those of the outer expansion.
- Structured macro arguments (`Fragments`, `Expansion`): only value arguments are substituted.
- Lexer, parser, listings, source spans and diagnostics of the assembler; the values of the final symbol table.
- `Control.ControlUnit.PollHardware`: the 64-bit mask of flags is a set.
- `TickLoop.RunUntilStop`: only with a limit of simulated time, because without one the loop may rightly go on for ever; sleeping, output and statistics are omitted.
- `panic_on_unmasked_alarm`, alarm messages and change logs: they do not affect which alarms are active.
- Input events other than the light pen's own: keyboard and tape input reach the machine between ticks.
- Report words of units: their layout follows from a reading.
- The light pen's geometry: whether a point is seen is part of what happens at a tick.
- `PenTransport.Step`: sequence numbers and seconds are unbounded integers; the wrap of a 32-bit cell is not modelled, nor the message channel used when memory cannot be shared.
- Positions and times are real numbers, without floating-point rounding.
- `Rings`: block names, types, heads and ties, which are lookups in the blocks collected.
- `LincolnCodec`: whether a character advances the carriage or matches its key label.
- `MemoryMap.Step`: the count of the real time clock is an argument of each read; direct writes to registers A to E by the arithmetic element, and the switch that forbids reads of unknown places, which is never used, are left out.
- Device drivers, browser pages, recording and presentation: input and output only.
