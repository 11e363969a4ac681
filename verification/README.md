# VDebugger, modelled and proved in Dafny

This project models the parts of VDebugger whose correctness is not obvious from one body:

- the breakpoint engine and execution control of `debugger/debugger.c`: what `break`,
  `continue`, `step`, `finish` and `next` do to the debugee's memory, to the breakpoint map and
  to the running program (`memory.dfy`, `debugee.dfy`, `engine*.dfy`, `debugger.dfy`), with the
  binary search over line rows that `next` rests on (`line_table.dfy`);
- the DWARF location-expression machine of `debugger/loc_expr.c` and `evaluate_expr`
  (`words.dfy`, `expr_*.dfy`, `loc_expr.dfy`), against sections 2.5.1 to 2.5.1.5 of DWARF 5;
- the command reader: `debugger/cmdline.c` and the read loop of `run_debugger` (`tokens.dfy`,
  `cmdline*.dfy`).

Each component has a specification in functions, the source's own imperative form (a class
over an array or over memory, map and registers) proved equal to it, and theorems about it.
`dafny verify dfyconfig.toml` checks everything.

## Two builds

The code slips in several places. Every function that meets a slip takes a `Build`: `Shipped`
does what the C code does, `Documented` what the headers, the repository's README or DWARF 5
promise, and the two differ in nothing else. Where a property is false of the shipped code the
theorem says exactly when it holds.

| slip | lines | what the shipped code does | settled by |
|---|---|---|---|
| lookup | debugger/debugger.h:21, debugger/debugger.c:331-348 | `KEY_NOT_EXISTS` is 0, so found and absent look alike; the temporary flag is never copied (the missing `return` of `copy_breakpoint` is read as any value, since its caller returns 0 either way) | `ShippedNextConservesIff` |
| enable | debugger/debugger.c:361-379, debugger/debugger.h:119-123 | enabling twice saves the trap byte as the program's | `EnableKeepsIff`, `ShippedEnableTwice` |
| disable | debugger/debugger.c:381-389, debugger/debugger.h:125-128 | disabling what is not there writes eight zero bytes | `ShippedDisableKeepsIff` |
| `next` cleanup | debugger/debugger.c:732-746 | every row takes the first `continue`, so every planted row stays | `ShippedNextConservesIff` |
| forward branches | debugger/debugger.c:1226-1237 | the first unsigned comparison fails, so the index never moves | `ShippedBranchLandsIff`, `ShippedCorrectIff` |
| backward branches | debugger/debugger.c:1238-1249 | the base is one byte short, so the scan ends one operation early | `ShippedBranchLandsIff` |
| shifts | debugger/loc_expr.c:478-512 | left and right are exchanged | `ShippedBinaryValueIff`, `ShippedMistakes` |
| `deref_size`, `breg`, `bregx`, register results | debugger/loc_expr.c:46-59, 277-298, debugger/debugger.c:1252-1278 | falls through to a constant; offset dropped; an unset value added; the register result is forgotten; DWARF numbers index the REGISTER enumeration | `ShippedExecIff`, `ShippedMistakes`, `ShippedRunIff` |

Findings that hold of both builds and that no document mentions:

- stepping over a breakpoint writes back a whole word. So a `next` from a breakpoint or a line row
  runs past every row and return address in the seven bytes after it (`NextAlwaysEarliestIff`;
  `NextRunsPastItsLine` for two rows four bytes apart);
- a word saved while a close breakpoint was planted brings its trap back after that one was
  disabled, and there `continue` and `step` stick for ever (`ContinueMovesIff`, `StuckForGood`;
  `ContinueSticks` for breakpoints four bytes apart);
- a `next` that fails after it began to plant leaves its rows planted (`FailedNextLeavesRows`);
- a `finish` whose return address is the current pc, as in a recursive frame just returned to,
  makes no progress (`FinishExact`);
- a command too long for the buffer is not dropped, its tail is dispatched as a command
  (`OverlongTailIsACommand`).

In the shipped build a user's breakpoint at the return address survives `finish` only because two
slips cancel: it is saved with its trap byte and written back with it (`FinishAtUserBreakpoint`).
The documented build keeps the code's arithmetic right shift: section 2.5.1.4 of DWARF 5 words it as
dividing the magnitude and keeping the sign, which rounds toward zero; `ShiftArithmeticExact`
says when that is the floor.

## What is assumed of the debugee

A deterministic program: at an instruction start it executes that instruction's original bytes
or, if the first byte is int3, traps one byte further on. Its text contains no int3, does not
change and its instructions do not overlap (`WellFormed`). An instruction any byte of which has
been altered is `Wild`: the model says nothing about it, and the theorems say it never happens.
Return addresses, line rows and function ranges are inputs. A word is eight bytes, low byte
first. `continue` is granted a number of instructions; not stopping within it is the reply
`Running`, and theorems hold for every number.

## Model

| member | source | states |
|---|---|---|
| `Memory.PlantIncreasing` | debugger/debugger.c:361-379 | planting at increasing addresses, however close, saves only original words and leaves traps at exactly those addresses |
| `Memory.RestoreInAnyOrder` | debugger/debugger.c:669-746 | planted in increasing order, restored in any order, memory is as before byte for byte |
| `Memory.RestoreLastInFirstOut` | debugger/debugger.c:361-389 | for any planting order, even twice at one address, last-in-first-out restoration gives memory back |
| `Memory.RestoreInPlantingOrderIff` | debugger/debugger.c:361-389 | undone in planting order, any number of breakpoints mend if and only if no word was saved over an earlier trap, unless the byte was int3 anyway |
| `Debugee.RunFollows` | debugger/debugger.c:199-204 | a run in sound memory is the original run up to the first trap, and says how many instructions that took |
| `EngineTransparency.CommandFollows` | debugger/debugger.c:206-252 | one command, any spacing, either build, moves the program along its own run and never makes it execute altered bytes |
| `EngineTransparency.SessionIsTransparent` | debugger/debugger.c:105-124 | execution transparency: over any command sequence every prompt shows a state of the uninstrumented run, in order |
| `EngineTransparency.ShippedDisableAbsentIff` | debugger/debugger.c:308-313 | in any sound memory, disabling an absent breakpoint leaves memory sound exactly where the program is all zero |
| `EngineInvariant.StepOverExact` | debugger/debugger.c:543-576 | with breakpoints eight bytes apart, stepping over one is one original instruction and leaves memory and map as they were |
| `EngineRuns.StepOverKeepsIff` | debugger/debugger.c:543-576 | in any session, stepping over a breakpoint keeps the memory if and only if the trap is there and the saved word agrees with the seven bytes after it |
| `EngineRuns.StepCounts` | debugger/debugger.c:578-609 | `step n` is exactly n original instructions, or exit exactly when the original exits, however close together the breakpoints, so long as every trap in memory or in a saved word has an entry |
| `EngineInvariant.StepExact` | debugger/debugger.c:578-609 | with breakpoints eight bytes apart `step n` changes nothing else either |
| `EngineInvariant.ContinueStops` | debugger/debugger.c:209-216 | with breakpoints eight bytes apart `continue` stops at the first enabled address after at least one instruction, keeps running if there is none, changes nothing else and never sticks |
| `EngineRuns.ContinueHits` | debugger/debugger.c:209-216 | in any session that keeps memory sound, whatever is planted: where `continue` stops, after how many instructions, and what it does to the memory |
| `EngineRuns.ContinueMovesIff` | debugger/debugger.c:209-216 | `continue` moves the program on if and only if the byte due at the pc is not int3; if it is, it replies as if it had stopped there |
| `EngineRuns.StepMovesIff` | debugger/debugger.c:586-608 | the same of `step` |
| `EngineRuns.StuckForGood` | debugger/debugger.c:105-124 | once int3 is due, no sequence of `continue` and `step` moves the program any more |
| `EngineExamples.ContinueSticks` | debugger/debugger.c:563-572 | `break 4`, `break 0`, `disable 4`, `continue`: from then on every `continue` and `step` of both builds sticks at 4, which has no breakpoint |
| `EngineFinish.FinishExact` | debugger/debugger.c:759-814 | with user breakpoints eight bytes apart and any return address, `finish` stops at the first enabled or return address, save a return address in the seven bytes after a breakpoint at the pc, and restores memory and map; started on an unplanted return address it does nothing; its one error is an unmapped return address |
| `EngineFinish.FinishHits` | debugger/debugger.c:759-814 | where `finish` stops in any session that keeps memory sound, whatever is planted |
| `EngineFinish.FinishAtUserBreakpoint` | debugger/debugger.c:777-810 | a user breakpoint at the return address survives in both builds |
| `EngineNext.NextConserves` | debugger/debugger.c:666-749 | a documented `next` that succeeds leaves memory, map and user breakpoints as they were, for any rows at instruction starts however close to each other, to the return address and to the user's breakpoints, which are eight bytes apart; only a failed search, unwinder or patch keeps it from running |
| `EngineNext.NextConservesIff` | debugger/debugger.c:666-749 | for either build and every reply that comes back to a prompt, errors included: if the cleanup is reached, `next` conserves the user's state if and only if no row carries an old temporary; if not, if and only if every row it reached was enabled before |
| `EngineNext.FailedNextLeavesRows` | debugger/debugger.c:697-719 | a `next` stopped by a row it cannot patch, by the unwinder or by an unmapped return address leaves exactly the rows it reached in the map, in both builds |
| `EngineNext.NextStopsAtEarliest` | debugger/debugger.c:669-718 | with no row and no return address in the seven bytes after a breakpoint at the pc, `next` stops at the earliest of rows, return address and user breakpoints, after at least one instruction, and runs on or exits if none is met |
| `EngineNext.ShippedNextConservesIff` | debugger/debugger.c:721-746 | as shipped a `next` that succeeds ends with the rows, whatever they are, added to the map, so it conserves the user's state if and only if every row was enabled before |
| `EngineNext.NextExactIff` | debugger/debugger.c:666-749 | memory and map agree after a `next`, failed or not, if and only if it cleaned up or what it left in the map is eight bytes apart |
| `EngineNext.NextStops` | debugger/debugger.c:543-576 | where `next` stops in both builds with rows as close to each other and to user breakpoints as they like: at the first row, return address or user breakpoint after at least one instruction, save rows and return address in the seven bytes after a breakpoint at the pc |
| `EngineNext.NextAlwaysEarliestIff` | debugger/debugger.c:543-576 | `next` stops at the earliest target whatever the instructions do if and only if it cannot plant or neither a row nor the return address lies in the seven bytes after a breakpoint at the pc |
| `EngineNext.NextStopsAtEarliestIff` | debugger/debugger.c:669-718 | on one run it stops at the earliest target if and only if the run up to the stop meets none of those wiped |
| `EngineExamples.NextRunsPastItsLine` | debugger/debugger.c:563-572 | two rows four bytes apart, the pc on the first: both builds run past the second |
| `EngineSession.EnableKeepsIff` | debugger/debugger.c:304-307 | enabling keeps the invariant if and only if the address is an instruction start clear of the others and not yet enabled (in the documented build it may be), or cannot be patched |
| `EngineSession.ShippedEnableTwice` | debugger/debugger.c:361-379 | enabled twice then disabled, the trap stays in memory and the map forgets it |
| `EngineSession.ShippedDisableKeepsIff` | debugger/debugger.c:309-313 | as shipped disabling keeps the invariant if and only if the address is in the map, unmapped, or zero |
| `EngineSession.CommandKeepsIff` | debugger/debugger.c:206-252 | exactly which commands, successful or not, keep memory equal to the program overlaid with int3 at exactly the mapped addresses; `continue`, `step` and `finish` always do |
| `EngineSession.CommandKeeps` | debugger/debugger.c:206-252 | and a documented `next` that cleans up leaves no temporary behind |
| `EngineSession.SessionStaysSettled` | debugger/debugger.c:259-318 | reachable-state memory invariant over every command sequence, failed commands included, each saved word being the program's |
| `EngineSession.SessionFromStart` | debugger/debugger.c:105-124 | both session theorems for the program as loaded, with no breakpoints |
| `EngineCommands.CommandDoes` | debugger/debugger.c:206-252 | what each command of either build does, in terms of the original run, of the traps in memory and of the addresses in the map: `continue` to the first breakpoint, `step n` by n instructions, `finish` to the return address or a breakpoint and nowhere without a caller, `next` to the first row of the function, return address or breakpoint, errors included |
| `EngineCommands.CommandMoves` | debugger/debugger.c:206-252 | where `continue`, `step` and `finish` stop in any session that keeps memory sound, whatever is planted |
| `EngineCommands.NoCallerStays` | debugger/debugger.c:766-768 | without a caller `finish` does nothing and `next` moves nothing, in any session |
| `EngineCommands.NoCallerConserves` | debugger/debugger.c:666-749 | without a caller a documented `next` that cleans up does nothing at all |
| `EngineCommands.TranscriptIs` | debugger/debugger.c:164-190 | a transcript leaves nothing out: each prompt follows from the one before by the next command |
| `Debugger.Debugger.HandleStep` | debugger/debugger.c:586-608 | the loop is `Step` |
| `Debugger.Debugger.PlantLines` | debugger/debugger.c:669-716 | the planting loop is `PlantRows` over the visited rows |
| `Debugger.Debugger.CleanupLines` | debugger/debugger.c:721-746 | the cleanup loop is `Cleanup` over the visited rows |
| `Debugger.Debugger.StepIn` | debugger/debugger.c:659-749 | search, plant, finish, clean up: equal to `NextLine` |
| `Debugger.Debugger.HandleCommand` | debugger/debugger.c:206-252 | the dispatcher on the object: it does what CommandDoes and CommandMoves say, keeps memory and map agreeing and moves the program along its own run |
| `LineTable.SearchAddr` | debugger/dwarf_info.c:295-325 | the binary search returns the last row at or below the address, or none exists |
| `LineTable.PlantedSetExactIff` | debugger/debugger.c:659-680 | the visited rows are exactly those of [low_pc, high_pc) if and only if low_pc is a row |
| `LineTable.VisitedIs` | debugger/debugger.c:659-680 | what the loops visit, said without search and loop: the rows from the last at or below low up to high, relocated |
| `EngineNext.RowsOfAre` | debugger/debugger.c:659-680 | the rows `next` plants are those relocated rows, reached in order up to the first that cannot be patched |
| `EngineNext.RowSetIsFunctionRows` | debugger/debugger.c:659-680 | with low_pc a row they are exactly x + load for the rows x of [low_pc, high_pc) |
| `LocExpr.LocExpr.PushToken` | debugger/loc_expr.h:79-84 | appends, or overflows at 256 |
| `LocExpr.LocExpr.PopTop` | debugger/loc_expr.h:86-95 | removes the top, or underflows |
| `LocExpr.LocExpr.ParseRot` | debugger/loc_expr.c:421-438 | three pops and three pushes are the standard's rotation |
| `LocExpr.LocExpr.ParsePick` | debugger/loc_expr.c:395-402 | copies the entry at an index, or reports it out of bounds |
| `LocExpr.LocExpr.ParseOpcode` | debugger/loc_expr.c:7-347 | stack, displacement and result code of every operation are those of `Exec` |
| `LocExpr.LocExpr.Scan` | debugger/debugger.c:1223-1249 | the two scanning loops are `NextPc` |
| `LocExpr.LocExpr.Evaluate` | debugger/debugger.c:1184-1278 | the evaluation loop is `Run` |
| `ExprBranches.BranchLands` | debugger/debugger.c:1223-1249 | documented scans end at the one operation that starts displacement bytes after the branch |
| `ExprBranches.ShippedBranchLandsIff` | debugger/debugger.c:1226-1249 | as shipped a branch lands if and only if it falls through or goes back to the first operation |
| `ExprBranches.ShippedSkipMisses` | debugger/debugger.c:1226-1237 | `skip +1` over a one-byte operation never leaves the skip |
| `ExprBuilds.ShippedExecIff` | debugger/loc_expr.c:40-347 | an operation does as documented on every stack if and only if it is no shl or shr, no `deref_size` and no register read whose slips show; one stack tells |
| `ExprBuilds.ShippedRunIff` | debugger/debugger.c:1184-1278 | code without such operations and without branches that go astray runs as documented from everywhere if and only if its last operation does not name a register that holds something other than its own number |
| `ExprBuilds.ShippedRunSame` | debugger/debugger.c:1252-1278 | and if it does, a run agrees if and only if it yields no value |
| `ExprSafety.VerifiedRunsAreSafe` | debugger/loc_expr.c:380-438 | with depths consistent along all edges no run of any length underflows, overflows or picks out of bounds |
| `ExprSafety.FrameRule` | debugger/loc_expr.h:79-95 | on top of any base that leaves it room an expression makes the same moves and leaves the base alone |
| `ExprSafety.ForwardRunsTerminate` | debugger/debugger.c:1189-1237 | if branches lead forward to operations, op_count dispatches decide the run |
| `ExprLaws.BinaryValueIff` | debugger/loc_expr.c:85-136 | the arithmetic, shift, logical and comparison operations are exactly what integers, bits and signed differences say of them: the law holds of the result and of no other |
| `ExprLaws.ShippedBinaryValueIff` | debugger/loc_expr.c:478-512 | as shipped exactly what they say, with shl and shr exchanged |
| `ExprLaws.UnaryValueIff` | debugger/loc_expr.c:441-464 | the same of abs, neg, not and plus_uconst |
| `ExprLaws.StackMoves` | debugger/loc_expr.c:380-438 | dup, drop, pick, swap and rot, position by position, and when they fail |
| `ExprLaws.DerefSizeLoads` | debugger/loc_expr.c:355-378 | documented `deref_size` leaves the low bytes of the word it finds |
| `ExprLaws.RegisterResult` | debugger/debugger.c:1259-1278 | a register location yields the register's content, as shipped its number |
| `ExprCompiler.CompileRuns` | debugger/debugger.c:1189-1250 | compiled code does to the stack what the tree's evaluation does, value for value and error for error |
| `ExprTheorems.EvalFits` | debugger/loc_expr.h:79-84 | a tree with a value yields it exactly when its need fits the 256 slots, and overflows otherwise |
| `ExprTheorems.CompilerCorrect` | debugger/debugger.c:1184-1278 | compiler correctness with conditionals, and overflow exactly when the need exceeds 256 |
| `ExprMeaning.MeansIff` | debugger/loc_expr.c:40-347 | a tree evaluates to v if and only if it means v by the environment and the laws alone, addresses, CFA, object address and registers included |
| `ExprMeaning.CompiledMeansIff` | debugger/debugger.c:1184-1278 | the documented evaluator yields v for a tree that fits the stack if and only if the tree means v |
| `ExprTheorems.RunFromMiddle` | debugger/debugger.c:1184-1190 | evaluating from an operation on a stack is what a run that comes there does from then on |
| `ExprTheorems.ValueModulo` | debugger/loc_expr.c:94-127 | 64-bit evaluation of sums, differences, products and negations of constants, addresses and registers is integer evaluation modulo 2^64 |
| `ExprTheorems.ShippedCorrectIff` | debugger/debugger.c:1223-1249 | the shipped evaluator yields v if and only if the tree has no conditional, its depth fits 256, and v is the documented value of the mistaken tree; otherwise it loops or fails |
| `ExprTheorems.ShippedMistakes` | debugger/loc_expr.c:277-298 | what the shipped evaluator takes a tree to mean is the documented meaning of the tree with shl and shr exchanged and register reads mistaken |
| `ExprTheorems.ShiftArithmeticExact` | debugger/loc_expr.c:514-535 | shra divides the magnitude and keeps the sign: the floor exactly when the value is non-negative or divides evenly, and the floor plus one otherwise |
| `Tokens.WordsRoundTrip` | debugger/cmdline.c:151-161 | words joined by any white space come back unchanged |
| `Tokens.SplitRejoins` | debugger/cmdline.c:75-91 | cutting at ';' loses nothing and leaves nothing to cut |
| `Cmdline.Buffer.Read` | debugger/cmdline.c:32-45 | reading from a line and from a sized buffer |
| `Cmdline.Buffer.Write` | debugger/cmdline.c:47-51 | appends one character, or reports a full buffer |
| `Cmdline.Buffer.NextToken` | debugger/cmdline.c:163-173 | the next word of what was written, then NULL for ever, whatever stale bytes follow |
| `Cmdline.ParseInput` | debugger/cmdline.c:69-97 | result code, buffer and rest of the line are those of `Feed` |
| `Cmdline.ProcessLine` | debugger/debugger.c:165-186 | the inner read loop dispatches what `RunLine` says |
| `Cmdline.RunDebugger` | debugger/debugger.c:162-197 | both read loops dispatch what `RunLines` says |
| `CmdlineTheorems.FeedCommand` | debugger/cmdline.c:75-91 | a command comes out whole if and only if it fits, and else the buffer reports full |
| `CmdlineTheorems.TokenRoundTrip` | debugger/cmdline.c:69-97 | words, white space and ';' in, exactly the words out, if and only if they fit |
| `CmdlineTheorems.FirstCommand` | debugger/debugger.c:164-190 | a command that fits is dispatched first, as its words, unless it is `exit`, after which nothing is, as nothing is once the debugee is gone |
| `CmdlineTheorems.OverlongTailIsACommand` | debugger/debugger.c:165-170 | after an overflow the rest of the line is read as a command of its own |
| `CmdlineStream.LoopsDispatch` | debugger/debugger.c:164-190 | for any lines and any buffer the loops dispatch the ';'-separated commands in order, each with what the buffer kept of it, carrying unfinished ones over |
| `CmdlineStream.DispatchedIff` | debugger/cmdline.c:69-97 | a command is dispatched as the words of its text if and only if no character of it overflows the buffer |
| `CmdlineStream.SurvivesIffFits` | debugger/cmdline.c:69-97 | which a command that fits never does, and a command of one line only if it does not fit |
| `CmdlineStream.DispatchesTheStreamIff` | debugger/debugger.c:164-190 | the loops dispatch exactly the ';'-separated commands of the joined lines, each as its words, if and only if no command up to the end of the session overflows |

## Left out

- ptrace, waitpid, fork and exec, /proc and linenoise: replaced by the memory, the program and lists of lines; ptrace fails only on unmapped words.
- Signals other than SIGTRAP and exit, and `ptrace` failures of register access: not modelled.
- Arguments of `break`: the address is given; parsing it and adding the load address are not modelled.
- Addresses of the debugee are unbounded numbers; wrap-around at 2^64 is modelled in expressions only.
- The initial stack entry of a location expression (debugger/debugger.c:1119 pushes the flag): Evaluate starts from any stack.
- libunwind and libdwarf: return addresses, line rows, function ranges, operations and their offsets are inputs; frame depth is not modelled.
- Sessions in which the map holds addresses less than eight bytes apart: SessionIsTransparent, ContinueHits, FinishHits and StepCounts cover them, SessionStaysSettled cannot, as CommandKeepsIff shows.
- `next` outside any known function, and decode errors of libdwarf: the early returns before planting are not modelled.
- `step` with a negative count, which the C code turns into some 2^64 steps.
- A debugee that writes the eight bytes at a breakpoint while it runs: `WellFormed` programs do not change their text.
- The undefined behaviour of negating the least 64-bit value is taken as wrap-around; division by zero and its signed overflow are an error of the evaluator (`HostFault`).
- Operation codes: `lit0` to `lit31`, `over`, `reg0` to `reg31` and `breg0` to `breg31` arrive as a constant, `pick 1`, and register operations with their numbers; the choice by code is not modelled.
- Piece, typed, call, xderef and entry-value operations are an error result, as in the code.
- The unset local that `bregx` adds to is one unknown value for a whole run; in C it may differ from one operation to the next.
- Register tables: registers are read by number through a map, once by enumeration position and once by DWARF number.
- Evaluate: a budget of dispatches stands for the loop, which as shipped may run for ever; the theorems quantify over every budget.
- Keyword tables, registers printing, variable printing, backtraces and the hash map: easy lookups or foreign code.
