# A verified model of shecc

shecc is a small C compiler that compiles itself. This project models the algorithms at its centre in
Dafny and proves what they are for: SSA construction and liveness (`src/ssa.c`), the register allocator
(`src/reg-alloc.c`), two-pass RISC-V code generation with its software arithmetic
(`src/riscv-codegen.c`, `src/riscv.c`), the division sequence of the ARM back end (`src/arm-codegen.c`),
the `&&`/`||` graph builder and the operator-precedence evaluator of the parser (`src/parser.c`), the
hash map (`src/globals.c`), and the heap, number printing and `snprintf` of the bundled C library
(`lib/c.c`).

Code that updates state in place is a class with the same fields and loops, proved against
specification functions or independent definitions; encoders and small pure helpers are functions. Basic
blocks are numbered, and pointers to blocks are indices. `dafny verify dfyconfig.toml` verifies all of it.

| files | what they hold |
|---|---|
| `Options` | the optional value |
| `Cfg`, `Rpo`, `Passes`, `Dominators`, `Func`, `DomLinks`, `Frontier` | graphs and paths, reverse postorder, dominators, dominance frontiers, the dominator tree |
| `Phi`, `Renamer`, `SsaForm`, `SsaMeaning`, `SsaBuild` | phi placement, renaming, and what SSA form means along paths |
| `PhiUnwind`, `UnwindMeaning` | phis turned into copies at the end of blocks, and why the unwound function means what the source does |
| `Liveness`, `AllocLive` | liveness analysis, and that it is what allocation needs |
| `RegAlloc`, `RegAllocator`, `AllocMeaning`, `AllocPaths` | the allocator as functions and as a class, and the simulation between the two programs |
| `Words`, `RiscvIsa`, `RiscvMachine`, `RiscvArith`, `RiscvLayout`, `RiscvCodegen`, `RiscvMeaning`, `RiscvStartup` | 32-bit arithmetic, encodings, a step semantics with memory, software multiplication and division, the two passes, what emitted code computes, the start-up code |
| `ArmDivision` | the ARM division sequence |
| `LogicalExpr` | the graphs of `&&` and `\|\|` |
| `InitEval`, `InitMeaning`, `InitStacks` | constant initializers: the evaluator, the C grammar and operators, the two stacks |
| `HashMap`, `Heap`, `CString`, `Numerals`, `Format`, `FormatMeaning` | run-time structures and formatted output |

The control-flow theorems ask for the entry block to have no predecessors where the source relies on it,
and fixed array sizes of the source are preconditions or `false` results, as the contracts say.

## Findings

Properties that the code does not have on every input, with an input that fails and the exact condition
under which it holds.

| property | source | input that fails | holds exactly when | members |
|---|---|---|---|---|
| constant folding of `%` in global initializers is C's remainder (C99 section 6.5.5) | src/parser.c:3499-3560 | `-5 % 4` gives 3 | the divisor has more than one bit set, or the dividend is not negative, or nothing remains | `InitEval.ModExactly`, `InitEval.ModGoesWrong` |
| the ARM sequence divides correctly when one register holds both operands | src/arm-codegen.c:474-538 | `-3 / -3` gives -1 | the remainder is asked for, or the operand is not negative or is -2^31 | `ArmDivision.DivideBySelf`, `ArmDivision.SelfGoesWrong` |
| promotion of a char to short keeps its value (RISC-V) | src/riscv-codegen.c:450-475 | `short f(char c) { short s = c; return s; }` for -1 gives 255 | the char is not negative; promotion to int always keeps the value | `RiscvMeaning.PromotesExactly`, `RiscvMeaning.PromotionGoesWrong` |
| the chunk `malloc` hands out has room for the request behind its header | lib/c.c:632-711 | `free(malloc(100)); malloc(4096)` gets a chunk of 4096 bytes, header included | not both: less than a header of 12 bytes is left in the last page of the request, and some freed chunk has exactly the request's pages | `Heap.Allocator.Malloc`, `Heap.CrampedRequest` |
| `DF` of a block is its dominance frontier, the entry block included | src/ssa.c:290-309 | the graph of one block that jumps to itself | no edge from a reachable block leads to the entry | `Frontier.EntryFrontier`, `Frontier.EntryLoopMissed` |

The last row is a fact about graphs and not an input of the compiler: the parser never gives the entry
block a predecessor, since the blocks that loops, `switch` and labels jump back to are new ones connected
behind it (src/parser.c:3785, 4032, 4586), and the entry is made at src/parser.c:4618.

The phi operand for an edge along which a variable has no definition yet is the phi's own destination if
that block was renamed before, so the renaming theorems speak of variables from their first definition
on the path.

## Model

| member | source | states |
|---|---|---|
| Ssa.Func.ForwardTraversal | src/ssa.c:61-93 | A traversal calls its callback once for every block newly reached, in postorder, and marks exactly those visited |
| Dfs.PassCoversReachable | src/ssa.c:61-93 | A pass from the entry finishes exactly the blocks that a path from the entry reaches |
| Passes.NumberedOrder | src/ssa.c:120-149 | Numbering the reverse postorder 1, 2, 3, ... links the reachable blocks in that order, and every block but the entry has a predecessor with a smaller number |
| Ssa.Func.BbBuildRpo | src/ssa.c:130-149 | Inserting a block by number splices it into the `rpo_next` list at the place of sorted insertion behind the head |
| Ssa.Func.BuildRpo | src/ssa.c:151-174 | The three passes end with a list of exactly the reachable blocks, numbered along its way from the entry, each with an earlier predecessor |
| Ssa.Func.Intersect | src/ssa.c:176-196 | The result is the nearest common ancestor: its chain is the intersection of the two chains; the loops terminate because `idom` lowers `rpo` |
| Dominators.UpdateKeepsInvariant | src/ssa.c:205-239 | One store of the sweep keeps the invariant: chains end at the entry, contain every dominator, and consist of blocks joined by high paths |
| Dominators.UpdateDrops | src/ssa.c:205-239 | A store that changes an immediate dominator lowers the sum of their numbers, so the sweeps end |
| Dominators.FixpointIsDominators | src/ssa.c:198-240 | At a fixpoint that has lost no dominator, the chain of every reachable block is exactly the set of blocks on every path to it |
| Ssa.Func.BuildIdom | src/ssa.c:198-240 | Terminates with exactly the reachable blocks processed and the `idom` chain of each equal to its set of dominators |
| DomLinks.DomPointers.BuildDom | src/ssa.c:242-288 | The child lists hold exactly the blocks immediately dominated, once each; it stops only when some block has more children than its array holds |
| Ssa.Func.BbBuildDf | src/ssa.c:290-309 | For one block the climbs from its predecessors append it to the lists of exactly the blocks climbed through |
| Frontier.ClimbedIsFrontier | src/ssa.c:290-309 | For every block but the entry, being climbed through is the dominance frontier: dominating a predecessor but not strictly dominating the block |
| Frontier.EntryFrontier | src/ssa.c:290-309 | For the entry the two agree if and only if no reachable block jumps to it |
| Frontier.EntryLoopMissed | src/ssa.c:290-309 | The one-block loop is a graph where they differ |
| Ssa.Func.BuildDf | src/ssa.c:311-326 | `DF[x]` holds `y` if and only if the climbs to `y` pass through `x`, for all blocks |
| PhiPlacement.SolvePhiInsertion | src/ssa.c:641-743 | A block gets a phi if and only if steps along frontiers lead to it from a defining block, each to a block where the variable is visible and that neither declares it nor is the exit; one step for temporaries of `?:`, `&&` and `\|\|`, none for globals. It stops only on a function large enough to overflow the worklist |
| PhiPlacement.LeastIsChained | src/ssa.c:670-743 | The blocks at the end of such chains are the least set closed under the filtered frontier |
| SsaBuild.OtherPhi | src/ssa.c:641-668 | A phi put in front of a block changes nothing for any other variable |
| Renaming.Renamer.NewName | src/ssa.c:747-763 | A new version takes the next counter value and goes on top of the stack; globals keep their name |
| Renaming.Renamer.AppendPhiOperand | src/ssa.c:765-778 | The operand added for an edge carries the version at the end of the predecessor, if there is one |
| Renaming.Renamer.AppendOperands | src/ssa.c:826-848 | After one of the three loops every phi of that successor has an operand for the edge |
| Renaming.Renamer.PopBlock | src/ssa.c:856-863 | The pops leave every rename stack as it was before the block |
| Renaming.Renamer.SolvePhiParams | src/ssa.c:813-864 | Renames exactly one dominator subtree, each block starting from its immediate dominator, and restores every stack |
| Renaming.Renamer.SolveFunction | src/ssa.c:866-890 | The whole dominator tree is renamed, the parameters having version 0 |
| Renaming.OneDefinition | src/ssa.c:747-763 | Every version of a local variable has one defining instruction |
| SsaForm.EdgeWithoutPhi | src/ssa.c:813-864 | Across an edge into a block without a phi, the version at the end of the predecessor is the one renaming starts the block with |
| SsaForm.UseIsReaching | src/ssa.c:813-864 | Along every path, a use names the version written by the last definition on the path, as long as no phi for it was filtered out |
| SsaForm.PhiIsReaching | src/ssa.c:798-811 | A phi has an operand for the edge a path takes, and it is the version that reaches along the path |
| SsaBuild.AlwaysTracked | src/ssa.c:670-743 | A variable whose frontier blocks all pass the filters, and which starts out defined, never loses track on any path |
| SsaBuild.RenamingIsRight | src/ssa.c:641-890 | For such a variable every use and every phi operand on every path names the last definition on that path |
| SsaBuild.BuildSsa | src/ssa.c:670-890 | From frontiers to versions: phis stand exactly where chains of frontier steps lead, versions are unique, the result is ready for `SsaKeepsMeaning`, and a local variable visible, undeclared and not at the exit in its frontier blocks is named right on every path |
| SsaMeaning.SsaKeepsMeaning | src/ssa.c:641-890 | Run along the same path, every instruction sees the same operand values before and after SSA construction, phis read as copies on edges |
| PhiUnwind.InTurnIsAtOnce | src/ssa.c:892-940 | Copies to different destinations done in turn have the effect of parallel copies, for all values, if and only if none reads what an earlier one has overwritten with something else |
| PhiUnwind.SwapGoesWrong | src/ssa.c:892-940 | Two copies that exchange two names would leave the same value in both |
| PhiUnwind.Unwinder.AppendUnwoundPhi | src/ssa.c:892-919 | The copy comes behind those of its block and before the branch that ends it, whether the block's own phis are still there or not |
| PhiUnwind.Unwinder.BbUnwindPhi | src/ssa.c:921-940 | Every operand of the block's leading phis becomes a copy in the block it comes from, in order, and exactly these phis go |
| PhiUnwind.Unwinder.UnwindPhi | src/ssa.c:942-955 | Blocks visited in any order end up as their instructions, those visited without their phis, then the copies, then the branch |
| UnwindMeaning.CopyReads | src/ssa.c:765-778 | A copy at the end of a block reads the version its variable has at that end, so all copies of one variable there read the same |
| UnwindMeaning.CopiesNeverClash | src/ssa.c:892-940 | Of a variable that has a version at the end of the block, no copy reads what another has overwritten |
| UnwindMeaning.UnwoundMatches | src/ssa.c:641-955 | On reaching any block of a path, live variables have in the unwound function the values they have in the source, copies for edges not taken included |
| UnwindMeaning.SourceToUnwound | src/ssa.c:641-955 | Run along the same path, every instruction, branches included, sees the same operand values in the source and after construction, renaming and unwinding, under the conditions of `SsaKeepsMeaning` |
| Liveness.Analysis.SolveLocals | src/ssa.c:2513-2538 | The gen set is what is read before it is killed, the kill set what is assigned, and the last use is recorded |
| Liveness.Analysis.ComputeLiveIn | src/ssa.c:2583-2595 | The live-in list is gen and what is live-out but not killed, without duplicates |
| Liveness.Analysis.MergeLiveIn | src/ssa.c:2597-2646 | The unrolled merge is set union without duplicates |
| Liveness.Analysis.RecomputeLiveOut | src/ssa.c:2648-2705 | The new live-out set is what the successors need, and the result says whether it changed |
| Liveness.ChangeGrows | src/ssa.c:2648-2705 | A changed live-out set is strictly larger within a finite universe, so the iteration ends |
| Liveness.FixpointIsLiveness | src/ssa.c:2707-2741 | At the fixpoint `v` is live-out exactly if some path from the block reads it before killing it |
| Liveness.Analysis.LivenessAnalysis | src/ssa.c:2707-2741 | Terminates with gen, kill, last uses and the exact path-based live-out sets |
| AllocMeaning.RefreshKeeps | src/reg-alloc.c:69-82 | Dropping registers that nothing needs any more keeps the simulation |
| AllocMeaning.SpillKeeps | src/reg-alloc.c:192-214 | Spilling a register keeps the simulation and every register value |
| AllocMeaning.LoadKeeps | src/reg-alloc.c:225-244 | Loading puts the variable's value into the register and leaves the others alone |
| AllocMeaning.OperandKeeps | src/reg-alloc.c:246-288 | The register prepared for an operand holds the variable's value, and the other operand's register is untouched |
| AllocMeaning.DestKeeps | src/reg-alloc.c:290-336 | Preparing a destination loses nothing but the old value of the variable and does not take an operand's register |
| AllocMeaning.BinaryKeeps | src/reg-alloc.c:654-1001 | A two-operand instruction computes the same value from the same operands in both programs |
| AllocMeaning.UnwoundPhiKeeps | src/reg-alloc.c:654-1001 | A phi copy reaches the stack word of the phi's variable |
| AllocMeaning.SpillLiveOutKeeps | src/reg-alloc.c:364-384 | At the end of a block every live-out the block sets reaches its stack word, and all registers end up free |
| AllocPaths.InsnKeeps | src/reg-alloc.c:654-1001 | Any instruction of a block keeps the simulation and the observations |
| AllocPaths.BlockKeeps | src/reg-alloc.c:654-1001 | A whole block computes, branches on and returns the same values; at its end every live-out is in its stack word or a constant and every register is free |
| AllocPaths.AllocationKeepsMeaning | src/reg-alloc.c:557-1001 | Along every path through the function the emitted code makes the same observations as the instructions it was made from |
| AllocPaths.CallStarts | src/reg-alloc.c:557-653 | A call, with its parameters in registers and stack words, starts in a state from which that holds |
| AllocLive.LivenessServesAllocation | src/reg-alloc.c:421-1001 | What liveness analysis computes meets every condition that `AllocationKeepsMeaning` asks for |
| AllocPaths.StartSound | src/reg-alloc.c:557-653 | Giving stacked parameters their words changes nothing that the conditions on blocks ask |
| AllocLive.CompiledKeepsMeaning | src/reg-alloc.c:421-1001 | Liveness analysis and allocation together: of a strict, analysed function called as the convention says, the emitted code makes the same observations along every path |
| RegAllocator.Allocator.AllocFunction | src/reg-alloc.c:557-1001 | The stateful allocator emits for every block the code that the simulation is about |
| RegAlloc.BestSpillIsCheapest | src/reg-alloc.c:162-187 | The register given up costs least among the candidates below 99999 and is the lowest of those; there is none exactly if no candidate is below that |
| RiscvIsa.RoundTrip | src/riscv.c:101-188 | Decoding any R, I, S, B, J or U word returns its fields for every operand the format can hold (sections 2.2 and 2.3 of the RISC-V Unprivileged ISA) |
| RiscvIsa.RefusedOffsets | src/riscv.c:130-169 | The I, S and B encoders stop exactly for immediates out of range |
| RiscvIsa.HiLo | src/riscv.c:115-123 | `lui` of `rv_hi` and `addi` of `rv_lo` rebuild every 32-bit value, and `rv_lo` is always in range |
| RiscvArith.SoftMultiply | src/riscv-codegen.c:317-335 | Running the thirteen words ends behind them with the product mod 2^32, all else but temporaries unchanged, for all pairs of words |
| RiscvArith.SoftDivide | src/riscv-codegen.c:336-385 | Running the twenty-seven words gives the truncated quotient or the remainder with the dividend's sign, INT_MIN / -1 wrapping, 0 and the dividend for divisor 0 |
| Words.DoublingFits | src/riscv-codegen.c:370-374 | Neither register overflows in the doubling loop |
| RiscvLayout.SizeAgrees | src/riscv-codegen.c:13-116 | For every instruction and both multiply modes the sizing pass reserves what the emitting pass writes |
| RiscvLayout.LayoutAgrees | src/riscv-codegen.c:118-171 | Every instruction of every block stands where the first pass put it, so each block starts at its `elf_offset` |
| RiscvLayout.GlobalStandsAt | src/riscv-codegen.c:128-133 | The same for the global initialisation |
| RiscvLayout.TransfersLand | src/riscv-codegen.c:264-279 | Every jump, call and branch arm of a function, decoded and run, arrives at the address of its target block, that of `__syscall` included |
| RiscvLayout.GlobalTransfersLand | src/riscv-codegen.c:506-509 | The same from the code of the global initialisation |
| RiscvLayout.SoftArithmeticRuns | src/riscv-codegen.c:317-385 | Wherever software arithmetic was emitted, running it computes the C operator and goes on with the next instruction |
| RiscvMeaning.ValueRuns | src/riscv-codegen.c:201-479 | Wherever an instruction that computes a value was emitted, its words leave that value in the destination, for every two-operand and unary operator, hard multiplication and division, constants, addresses, loads, truncation, extension and casts; memory and all other registers but t0 stay, and control goes on behind them |
| RiscvMeaning.StoreRuns | src/riscv-codegen.c:233-293 | Stores of variables, of 1, 2 or 4 bytes through a pointer, and of function addresses write exactly these bytes and keep every register but t0 |
| RiscvMeaning.DefineRuns | src/riscv-codegen.c:195-200 | Setting up a frame saves the return address below the old stack pointer and moves it down by the frame |
| RiscvMeaning.ReturnUndoesDefine | src/riscv-codegen.c:195-310 | From anywhere inside the function a return restores the caller's stack pointer and return address, goes back there, and leaves the result in a0 |
| RiscvMeaning.FunctionPointerLands | src/riscv-codegen.c:287-299 | A call through a pointer that holds a function's address arrives at the function |
| RiscvMeaning.SegmentOf | src/riscv-codegen.c:136-171 | Every block of every function is flattened once, in the order of functions and blocks |
| RiscvMeaning.ProgramComputes | src/riscv-codegen.c:485-528 | In the generated program every such instruction of every block of every function, run from the place the first pass gave it, does this and goes on at the place of the next |
| RiscvMeaning.ProgramTransfers | src/riscv-codegen.c:485-528 | From there too, jumps, calls and branches arrive at the offset of the block they name |
| RiscvMeaning.ProgramReturns | src/riscv-codegen.c:136-171 | In the generated program a function sets up its frame at its entry, and a return in any of its blocks takes down the same frame and goes back |
| RiscvMeaning.PromotesExactly | src/riscv-codegen.c:450-475 | Sign extension to int keeps the value; from char to short it does if and only if the char is not negative |
| RiscvMeaning.PromotionGoesWrong | src/riscv-codegen.c:450-475 | The char -1 becomes the short 255 |
| RiscvMachine.LoadStored | src/riscv-codegen.c:217-263 | Bytes stored at an address are loaded again, lowest first |
| Words.BitwiseMeans | src/riscv-codegen.c:421-429 | The three bitwise operations work on every bit by itself |
| RiscvStartup.FixedPieces | src/riscv-codegen.c:485-523 | The start-up code stands at 0, the trampoline at the offset of `__syscall` and the call of `main` right before the first function |
| RiscvStartup.StartsAtGlobals | src/riscv-codegen.c:487-493 | The start-up code sets up the global frame and arrives at the block of the global initialisation |
| RiscvStartup.TrampolineRuns | src/riscv-codegen.c:495-504 | `__syscall` passes its arguments on one register earlier, with the number in a7, and the system call is followed by the return |
| RiscvStartup.CallsMain | src/riscv-codegen.c:511-523 | Before the first function a0 gets the word at the original stack pointer and a1 the address behind it, control arrives at `main`, and the return address is that of the two instructions that exit |
| RiscvCodegen.Generator.UpdateElfOffset | src/riscv-codegen.c:13-116 | The offset grows by the size of the instruction |
| RiscvCodegen.Generator.CfgFlatten | src/riscv-codegen.c:118-171 | Every block gets the offset of its place in the program, the fixed blocks 24 and 60, and the flattened list holds all blocks in order |
| RiscvCodegen.Generator.CodeGenerate | src/riscv-codegen.c:485-528 | The code buffer ends up as the words the layout theorems speak of, or an encoder stopped |
| ArmDivision.DivideCorrect | src/arm-codegen.c:474-538 | With two operand registers the sequence ends behind its last instruction with the truncated quotient or remainder; both operand registers (unless one is the destination) and sp are as before |
| ArmDivision.DivideBySelf | src/arm-codegen.c:474-538 | With one register for both, the remainder is right, and the quotient is right if and only if the operand is not negative or is -2^31 |
| ArmDivision.SelfGoesWrong | src/arm-codegen.c:474-538 | -3 / -3 comes out as -1 |
| LogicalExpr.ScanIsTree | src/parser.c:2397-2545 | The three states of the `prev_log_op`/`pprev_log_op` machine compute the value and the evaluated operands of the parse tree in which `&&` binds tighter |
| LogicalExpr.ExprRuns | src/parser.c:2383-2545 | Running the graph built for any chain yields the 0/1 value and evaluates exactly the operands, left to right, that C99 sections 6.5.13 and 6.5.14 require |
| LogicalExpr.FinalizeRuns | src/parser.c:3061-3196 | Closing a group routes every short-circuited path and the fall-through to one variable with the right 0/1 value |
| LogicalExpr.Parser.Finalize | src/parser.c:3061-3196 | The builder connects the arms and adds the instructions that the graph theorems are about |
| LogicalExpr.Parser.ReadExprChain | src/parser.c:2383-2545 | The builder's loops produce the graph of `ExprRuns` for every chain |
| InitEval.ApplyRipe | src/parser.c:3603-3732 | Applying any operator whose neighbours bind no tighter keeps the value of the precedence tree |
| InitEval.StackIsShort | src/parser.c:3603-3732 | Strictly rising priorities fit seven operators at most |
| InitEval.UndefinedSpreads | src/parser.c:3499-3560 | One undefined operand makes the whole value undefined |
| InitEval.ModExactly | src/parser.c:3499-3560 | `OP_mod` is C's remainder if and only if the divisor has more than one bit, the dividend is not negative, or nothing remains |
| InitEval.ModGoesWrong | src/parser.c:3499-3560 | -5 % 4 gives 3 |
| InitMeaning.GrammarValue | src/parser.c:179-216 | The precedence tree is the one that the grammar of C99, sections 6.5.5 to 6.5.14, derives, whatever the operators mean |
| InitMeaning.Parses | src/parser.c:179-216 | The grammar derives every row of constants and operators |
| InitMeaning.EvalMeans | src/parser.c:3499-3560 | For all ints each operator gives its result in C (wrapping sums, truncated quotient, remainder with the sign of the dividend, shifts by powers of two, truth values) and is refused exactly where that is undefined; the remainder of a negative dividend by a power of two is the non-negative one |
| InitMeaning.OneBitExactly | src/parser.c:3517-3525 | The mask branch is taken exactly for divisors whose word is a power of two |
| InitMeaning.InitializerIsWorth | src/parser.c:3603-3732 | An initializer's value is what grammar and operators make of it, and there is none exactly if they leave it undefined |
| InitStacks.Stacks.ReadGlobalAssignment | src/parser.c:3603-3732 | The two-stack evaluator returns what the initializer is worth in C, within seven operators and eight values |
| HashMap.RoundUpIsLeast | src/globals.c:372-384 | The result is a power of two, not below the argument, and the least such |
| HashMap.SearchMisses | src/globals.c:505-530 | A probe run that ends at a free slot shows the key absent: runs have no gaps |
| HashMap.InsertKeeps | src/globals.c:467-503 | Filling the free slot at the end of a search adds one entry and keeps the table in order |
| HashMap.SearchEnds | src/globals.c:467-503 | While a slot is free no probe comes back to its start |
| HashMap.Hashmap.GetNode | src/globals.c:505-530 | Finds the slot of a key exactly if the map holds it |
| HashMap.Hashmap.Get | src/globals.c:532-543 | The value of the key in the map, or none |
| HashMap.Hashmap.Rehash | src/globals.c:414-465 | Twice the capacity and the same map; without memory nothing changes |
| HashMap.Hashmap.Put | src/globals.c:467-503 | Updates one key and keeps the rest; with memory it succeeds and the size stays at most half the capacity; it is full only without memory and with every slot taken |
| Heap.Allocator.FindBestFit | lib/c.c:664-680 | The chunk chosen is the first smallest on the free list whose recorded size fits; none only if none fits |
| Heap.Allocator.Malloc | lib/c.c:632-711 | For every request that does not wrap around, `want` is the least multiple of 8 not below it; the chunk is the first smallest freed one whose recorded size is not below that, or newly mapped with the least multiple of 4096 that holds header and `want`; it has room for header and request unless the request is cramped; the lists stay well-formed and no other size changes |
| Heap.CrampedRequest | lib/c.c:632-711 | With one freed chunk of one page, a request for 4096 bytes gets that chunk |
| Heap.AlignUpIsLeast | lib/c.h:56 | Rounding up gives the least multiple that is not below |
| Heap.Allocator.Free | lib/c.c:771-806 | Refuses exactly chunks that are free already; otherwise moves the chunk from the list in use to the front of the free list and sets its freed bit |
| Heap.Allocator.FreedBitTells | lib/c.c:603-624 | A mapped chunk is on the free list if and only if its freed bit is set |
| CString.StrLen | lib/c.c:42-57 | The unrolled loop returns the number of bytes before the NUL |
| CString.StrNCpy | lib/c.c:97-113 | Copies the string or its beginning, fills up with NULs, and touches nothing else |
| Numerals.TenthByShifts | lib/c.c:195-206 | For every value below 2^31 the shift-add estimate, corrected once, is exactly the quotient and remainder by ten, without overflow |
| Numerals.StrBase10 | lib/c.c:179-212 | For every int, INT_MIN included, the buffer ends in the sign and the decimal digits of the value |
| Numerals.StrBase8 | lib/c.c:214-232 | The buffer ends in the octal digits of the value as an unsigned word |
| Numerals.StrBase16 | lib/c.c:234-250 | The same in hexadecimal |
| Numerals.CanonDenotes | lib/c.c:179-250 | The digits denote the value and have no superfluous zero |
| Numerals.CanonUnique | lib/c.c:179-250 | There is no other numeral of that kind |
| Format.FmtBuf.WriteChar | lib/c.c:278-292 | The character counts toward the length whether or not the buffer keeps it; one place stays free for the NUL |
| Format.FmtBuf.WriteStr | lib/c.c:294-312 | The same for a string, kept as far as it fits |
| Format.FmtBuf.Number | lib/c.c:314-390 | Writes prefix, padding and digits for base 8, 10 or 16, any width, zero padding and alternate form |
| Format.PlainIsCanonical | lib/c.c:314-390 | Without padding a number is its canonical numeral: signed in decimal, of the word in the other bases |
| FormatMeaning.FormatPrints | lib/c.c:392-457 | Every well-formed format is a list of literal bytes and directives, and the output is the concatenation of their texts, each directive but `%%` taking the next argument: the string, the byte, or the number in base 10, 8 or 16 with its prefix, padded to the width with spaces in front or zeros between prefix and digits |
| FormatMeaning.ItemsPrint | lib/c.c:392-457 | The same for any list of items written out as a format |
| FormatMeaning.PrintsOne | lib/c.c:392-457 | What an item prints is determined by its flags, width, letter and argument |
| Format.ConvertedFits | lib/c.c:314-390 | A converted number is exactly as wide as asked for or as its characters need |
| Format.FormatToBuf | lib/c.c:392-457 | The buffer and the length are those of the directive-by-directive output, followed by a NUL unless the size is 0 |
| Format.Snprintf | lib/c.c:482-491 | The result is the full output length whatever `n` is; the buffer holds the first characters that fit and a NUL, and nothing changes for `n` = 0 (C99 section 7.19.6.5) |
| Format.WrittenBounds | lib/c.c:250-274 | For `n` >= 1 at most `n` bytes change: min(n - 1, length) characters of the output and the NUL |

## Left out

- Sizes of arrays inside variables: rename stacks (64) and subscript lists (128) are unbounded here.
- Pointers between blocks and instructions are numbers; aliasing of two pointers to one block is equality of numbers.
- SsaBuild.BuildSsa: the filters of phi placement (scope, declaration, exit block) are inputs; a variable they drop a phi for is promised nothing after that block until it is assigned again.
- PhiPlacement.SolvePhiInsertion: a worklist overflow is only shown to need a function of at least 127 blocks.
- UnwindMeaning.CopiesNeverClash: for variables with a version at the end of the block; where there is none, an operand is whatever `append_phi_operand` found, and `UnwoundMatches` shows that no live variable depends on it.
- Ssa.Func.BuildDf: asks that no frontier outgrow its 64 entries and that every predecessor of a reachable block be reachable.
- Liveness.Analysis.LivenessAnalysis: gen and kill sets are computed in block-number order instead of traversal order, at most 800 variables may be exposed, and every block must reach the exit.
- AllocPaths.AllocationKeepsMeaning: without globals, address-taken variables, arrays, calls and pointer writes; variables have one definition and no phi variable is read after its copy in a block. The jumps that close a block belong to the layout theorems.
- RegAllocator.Allocator.AllocFunction: spill costs are unbounded integers; variadic functions are out.
- RiscvLayout.TransfersLand: for code shorter than 1 MiB at an even address; `ofs_based_on_stack_top` is not recalculated, as in the source. The machine gives no meaning to the system call itself, keeps code and data apart, and lets loads and stores be misaligned.
- RiscvMeaning.ValueRuns: operand registers are a0 to a7, sizes 1, 2 or 4, and a sign extension is by at most three bytes.
- ArmDivision.DivideCorrect: at the level of instructions, not of encoded ARM words.
- LogicalExpr.ExprRuns: an operand is straight-line code or a parenthesised chain; other operators and `?:` inside an operand are out, and so is the limit of 128 predecessors of a block.
- InitStacks.Stacks.ReadGlobalAssignment: without `?:`, strings and the operators `|`, `^`, `&`, for which the source stops.
- HashMap.Hashmap.Put: capacities below 2^30 and keys that are not null; whether memory is found is a parameter.
- Heap.Allocator.Malloc: mapping memory always succeeds; requests within 4114 bytes of the largest int wrap around and are promised no size. `calloc` and `__free_all` are out.
- Format.FormatToBuf: strings do not overlap the buffer, a format ends no directive before its conversion character, and widths fit an int; a width before `s` or `c` is read and ignored, as in the source. `printf` and `sprintf` are out.
- Format.Snprintf: a negative `n`, which C99 does not have, leaves room for the NUL alone.
- Sparse conditional constant propagation, dead code elimination, the peephole pass and the strength reductions: they edit programs under assumptions later passes have to meet.
- ARM layout and branch lowering, post-dominators, the lexer, preprocessor, type and declaration parsing, ELF output and system calls.
