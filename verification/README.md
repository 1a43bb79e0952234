# MyJIT back end and kernel heap, modelled in Dafny

The kernel embeds MyJIT, a small optimising compiler.  A list of three-operand ops over virtual
registers goes through liveness analysis, rewrites, register allocation and instruction selection
and ends as AMD64 code.  This project models those stages and proves that each of them, and the
whole, keeps what the program means.  The kernel's heap is a second, separate part.

The main theorem is the contract of `MachineCode.Compile`.  It says of every call-free integer
program that meets the stated conditions, with the optimisations on or off: the allocated code, run
on hardware registers and stack slots, returns a value with a final carry and memory exactly when
the op list does; so it does with its arithmetic and branches run as x86 instructions and its slots in
the frame of the function; and in the bytes written every op's code stands at its offset, and every
jump decodes to where its target's code was written and to the condition it is taken on.

| files | what they hold |
|---|---|
| `Llrb`, `LlrbHeap`, `JitSet` | left-leaning red-black trees on values, the in-place code on linked nodes against them, sets on top |
| `Machine`, `JitOps`, `Hardware`, `Layout` | ops, the machine on virtual registers, the machine on hardware registers and slots, lists made of blocks |
| `FlowAnalysis` | the liveness fixpoint, computed on those sets |
| `Rewriting`, `DeadAssign`, `Carry`, `Fusion`, `Arithmetic`, `JoinOps`, `JoinPasses`, `StoreOps`, `LongImm` | the rewrites on the op list |
| `Hints` | next-use hints and their reference counts |
| `Rmap`, `RegAlloc`, `Allocation`, `Simulation`, `Allocator` | register maps, the allocation of one op and of the list, the simulation proof, the passes in place |
| `TestBranches` | the branches that the allocator does not adjust |
| `ImmRegister`, `MovedRegisters` | where the register of long immediates is live, which registers the code moves |
| `Pipeline`, `Emission`, `MachineCode`, `Summing` | the driver, the byte emitter, both together, a program that meets all conditions |
| `Conditions` | the flags of the processor and the conditional jumps |
| `LeaBytes` | the bytes of LEA and what the processor reads |
| `TwoAddress`, `SparcMul` | x86 arithmetic sequences, multiplication on SPARC |
| `Selection`, `SelectedCode` | the machine that runs those sequences, the allocated code on it |
| `ArgLayout`, `StackFrame`, `FrameSlots`, `FrameCode` | where incoming arguments are, the slots of spilled registers, code on the frame, the allocated code there |
| `Heap` | malloc, free and the leak report over byte-addressed memory |

Code that updates objects in place is a class or a method on linked nodes, specified by a function
on values; the properties are lemmas about those functions.

What an op computes is a parameter of the machine (`Sem`), so the liveness, dead-assignment and
allocation theorems hold whatever the ops compute.  Joins, stores and long immediates need the
arithmetic itself; `Arithmetic.Standard` says which meanings are fixed, modulo 2^64.  `Sem` also says what the
instructions of an op leave in hardware registers that hold no live value, so every theorem about
allocated code holds whatever that is.

## Where the code does not do what it says

The model takes the code as written.  Each case below is an if-and-only-if with the exact condition.

- `get_related_op` tests the operand for non-zero instead of comparing it with the result register,
  and `join_addr_addi` always negates the immediate: `JoinOps.RightExactly`.
- `jit_optimize_st_ops` ignores that the stored register may be an address register, and that an
  8-byte store takes a sign-extended 32-bit immediate: `StoreOps.RightStoreExactly`.
- `emit_sub_op` and `emit_rsb_op` negate their immediate, which the least 32-bit number does not
  survive: `TwoAddress.SubImmExactly`, `TwoAddress.RsbImmExactly`.
- Division by 2, 4 and 8 rounds down, and unsigned division sign-extends its dividend:
  `TwoAddress.DivShortcutExactly`, `TwoAddress.DivRight`.
- The joined ops become a LEA, whose constant is cut to 32 bits (part of `JoinOps.RightExactly`).
  The bytes of that LEA name RBP as the base when the constant has more than 8 bits, and RDI when no
  base is meant: `LeaBytes.MemIndexExactly`, `LeaBytes.AddImmExactly`, `LeaBytes.AddMulImmExactly`.
- `branch_adjustment` leaves mask and overflow branches alone: `TestBranches.TestExactly`, with a
  program that fails in `TestBranches.WaitingFails`.  `MachineCode.Compile` promises equal results
  where there is no such branch or each of them meets that condition.  The first is told from the
  list (`NoTests`), the second only from the plan once the registers are allocated.
- Argument 0 and R_IMM have the stack slot of the last register: `StackFrame.SlotsMeetExactly`.  The
  allocated code runs the same on the frame as on one slot for each register if no two registers
  that it moves meet there: `FrameSlots.FrameHalts`, `FrameSlots.SlotsApartExactly`,
  `FrameSlots.SharingFails`.  In a list that mentions R and FR registers only they cannot meet,
  because R_IMM is never moved: `MovedRegisters.MovedIn`, `FrameCode.FittingSlotsApart`.
- SPARC's `smul` has room for 13 bits: `SparcMul.MulImm` and, for a constant that is multiplied
  wrong, `SparcMul.WideConstantFails`.  Behind `jit_correct_long_imms` it does not happen:
  `SparcMul.Mul`.
- An argument's slot is computed with another function's stack memory: `StackFrame.ReadBackExactly`.
- The PROLOG's argument registers are told by an argument's position among all arguments in one place
  and within its class in another: `ArgLayout.AssociatedExactly`, `ArgLayout.PrologExactly`, with
  `ArgLayout.MixedClasses` for a double and an integer.
- The leak report stops at the first block of size zero: `Heap.ReportComplete`.

The main theorem asks for the first two conditions only where the rewrite is switched on and its
guard holds (`Pipeline.Safe`).  The guard is told by paths of the source list: a pair of ops is
joined only if the result is overwritten or read on no path behind the pair.  `Pipeline.StoresSafeExactly`
and `Pipeline.JoinsSafeExactly` say that this is the same as asking it of every rewrite that the
passes make.  `Summing.Compiles` shows a summing loop that meets all conditions.

## Model

| member | source | states |
|---|---|---|
| `MachineCode.Compile` | jsdos/myjit/jitlib-core.c:276-314 | From the list as built to bytes: entered at the start or any function, from every start state and for every standard meaning of the ops, the allocated code returns a value with a given carry and memory exactly when the source list does, if the list has no mask or overflow branch (`NoTests`, told from the list) or each such branch of the plan finds its map at its target (`TestsMeet`, told only after allocation); where that holds it also holds with the arithmetic ops and the branches run as their x86 instructions, and in the frame of the function if the list mentions R and FR registers only, which then never share a slot; in the finished buffer every op's bytes stand at its offset and every jump, read at its own address, goes to where its target's code starts; no bytes exactly when the buffer would reach 2 GiB |
| `SelectedCode.OntoSequences` | jsdos/myjit/common86-specific.h:280-532 | What returns the same as the list on the machine that runs ops does so on the machine that runs each arithmetic op and each branch by its instructions, jit_reg_in_use deciding what is saved: value, carry and memory, as long as no op is reached whose sequence is wrong there (a division that faults or is rounded down, the least 32-bit number negated) |
| `SelectedCode.FrameOntoSequences` | jsdos/myjit/common86-specific.h:184-208 | ... and with the slots in the frame |
| `SelectedCode.ArithIsSelected` | jsdos/myjit/common86-specific.h:699-806 | With the registers of AMD64, every MOV, NEG, addition, subtraction, multiplication, division and bitwise op and every branch of the code is one that this machine runs by its instructions: its arguments have hardware registers and its immediate, but for a MOV, 32 bits |
| `SelectedCode.CodeIsTame` | jsdos/myjit/jitlib-core.c:280-301 | If the source list has no division and negates no least 32-bit number, neither does the code, so no wrong sequence is ever reached |
| `Selection.SelectedStep` | jsdos/myjit/common86-specific.h:280-532 | One op run by its instructions is one step of the hardware machine: the result in the destination, every register in use as it was, and AX, DX as the instructions leave them where no live value is in them |
| `Selection.SelectedBranch` | jsdos/myjit/common86-specific.h:595-623 | A branch run as its comparison and its conditional jump, register or sign-extended immediate, is one step of the hardware machine: the same target, and the operand left as it was or, by an overflow branch, holding the sum or difference |
| `Selection.RegDelivers` | jsdos/myjit/common86-specific.h:280-532 | The sequence of an op with registers leaves its meaning and every register in use if and only if the op does not divide or its division can be carried out |
| `Selection.ImmDelivers` | jsdos/myjit/common86-specific.h:280-532 | ... and with an immediate, if and only if the least 32-bit number is not negated and no division faults or is rounded down |
| `Selection.BitMeaning` | jsdos/myjit/common86-specific.h:723-725 | Bit by bit: what AND, OR and XOR mean is the conjunction, the disjunction and the inequality of the bits |
| `Selection.SelectedRun` | jsdos/myjit/common86-specific.h:280-532 | ... over whole runs, all registers and slots 64-bit words throughout |
| `Selection.RegInUseExactly` | jsdos/myjit/reg-allocator.h:552-558 | The test finds out exactly whether the hardware register holds a register that is live before or after the op |
| `Selection.KnownMeaning` | jsdos/myjit/common86-specific.h:699-750 | The sums, differences, low products and bitwise ors that the source-level rewrites rely on are what the sequences compute |
| `FrameCode.OntoFrame` | jsdos/myjit/common86-specific.h:184-208 | Code that returns what a list of R and FR registers does on one slot for each register, and moves no others, returns it in the frame of the function too, from every frame that holds the registers in their places |
| `FrameCode.FittingSlotsApart` | jsdos/myjit/amd64-specific.h:36-47 | ... because none of the registers that the code of such a list moves share a slot |
| `MovedRegisters.OpHolds` | jsdos/myjit/reg-allocator.h:288-342 | assign_regs on one op moves registers of the list only and never R_IMM: where that is live it is an argument of the op, so it is no victim, and it is not reloaded |
| `MovedRegisters.MovedIn` | jsdos/myjit/reg-allocator.h:525-538 | ... nor does the code as a whole, since R_IMM is live at no jump and at no target of one |
| `ImmRegister.NearIsKept` | jsdos/myjit/flow-analysis.h:31-137 | R_IMM is live only between its MOV and the next op that reads it, or across the NOP that a join leaves between them |
| `ImmRegister.CorrectedLoaded` | jsdos/myjit/jitlib-core.c:90-118 | An op that reads R_IMM stands directly behind the MOV to it, and no jump leads in between |
| `ImmRegister.PassKeepsNear` | jsdos/myjit/x86-common-stuff.c:225-241 | A join pass leaves it that way but for one NOP |
| `MachineCode.PointersEmittable` | jsdos/myjit/reg-allocator.h:508-521 | The back pointers that branch_adjustment sets and redirects lead from every PATCH of the allocated list to the one jump that goes to it |
| `MachineCode.PointerIsLink` | jsdos/myjit/reg-allocator.h:508-521 | A PATCH of the program ends up pointing at the JMP put behind its branch if that was split and at its jump if not; the PATCH of a split branch points at the inverted branch |
| `Summing.Compiles` | jsdos/myjit/jitlib-core.c:276-301 | All conditions of the main theorem hold of a summing loop, with every choice of the optimisations |
| `Pipeline.GenerateCode` | jsdos/myjit/jitlib-core.c:280-301 | Long immediates, liveness, rewrites and allocation in the order of the driver, with the optimisations on or off: source list and allocated code return the same from every entry, wherever the rewrites that are switched on are right where their guards hold; the code spills and loads only registers that the list mentions, never R_IMM |
| `Pipeline.StoresSafeExactly` | jsdos/myjit/x86-common-stuff.c:34-69 | The condition on the source list, told by paths, holds if and only if every store rewrite that the pass makes on the analysed list is right |
| `Pipeline.JoinsSafeExactly` | jsdos/myjit/x86-common-stuff.c:117-141 | The condition on the source list, told by paths and only for pairs that pass the guard, holds if and only if every join that the passes can make after the earlier rewrites is right |
| `Pipeline.FoldsExactly` | jsdos/myjit/x86-common-stuff.c:148-222 | A join does not give up if and only if the multiplier is 2, 4 or 8 or the shift as much, an OR stays below it, and the registers added are two different ones |
| `Pipeline.Generate` | jsdos/myjit/jitlib-core.c:285-301 | The same without the long immediates; the allocator gets the list that the analysis, the passes that are switched on and the collection of hints make, in that order, analysed again if a join changed something |
| `Pipeline.FrontKeeps` | jsdos/myjit/jitlib-core.c:287-292 | Dead assignments and stores rewritten: same meaning, and the recorded live sets still contain a solution of the dataflow inequalities |
| `Pipeline.ResultsWithJoin` | jsdos/myjit/jitlib-core.c:293-301 | End-to-end agreement when a join fired and liveness was computed again |
| `Pipeline.ResultsWithoutJoin` | jsdos/myjit/jitlib-core.c:287-301 | End-to-end agreement when the live sets recorded before the rewrites are used |
| `MachineCode.AllocatedIsEmittable` | jsdos/myjit/reg-allocator.h:499-521 | The allocator keeps a list fit for emission: LABELs behind their jumps, each PATCH ahead of the one jump it belongs to, also for split branches |
| `MachineCode.CorrectedIsEmittable` | jsdos/myjit/jitlib-core.c:90-118 | Moving long immediates out keeps a list fit for emission |
| `Simulation.AllocationPreservesMeaning` | jsdos/myjit/reg-allocator.h:525-538 | For every call-free integer program, whatever the instructions of its ops leave in registers not in use, every live sets below the recorded ones that satisfy the dataflow inequalities, every op semantics and every start state: the op list on virtual registers halts with a value, carry and memory exactly when the allocated list on hardware registers and slots does |
| `Simulation.OneStep` | jsdos/myjit/reg-allocator.h:288-342 | One step of the virtual machine is matched by one or more steps of the allocated list, after which each live register is again in its mapped hardware register, or in its slot if unmapped |
| `Simulation.JumpBlock` | jsdos/myjit/reg-allocator.h:450-458 | A JMP with its inserted moves arrives at its target with the target's map |
| `Simulation.SplitRuns` | jsdos/myjit/reg-allocator.h:474-523 | The inverted branch, the moves, the JMP and the PATCH reach the original target or fall-through exactly as the branch did |
| `Allocation.InverseNegates` | jsdos/myjit/reg-allocator.h:483-489 | The inverted condition holds exactly when the original does not, signed and unsigned |
| `Allocation.RepairExactly` | jsdos/myjit/reg-allocator.h:474-489 | An op is split if and only if it is a compare branch whose map disagrees with its target's on a register live at the target or after it |
| `Allocation.OldTarget` | jsdos/myjit/reg-allocator.h:525-538 | A LABEL or PATCH of the program is found at the start of its block |
| `Allocation.NewTarget` | jsdos/myjit/reg-allocator.h:515-521 | The PATCH of a split branch is found at the end of the branch's block |
| `Allocation.AssignedOk` | jsdos/myjit/reg-allocator.h:528-532 | Over the whole list: every op's map is a partial injection, each register argument is in its mapped register, and live values are carried over |
| `RegAlloc.AssignRegsOk` | jsdos/myjit/reg-allocator.h:288-342 | One op: injective map, arguments in distinct registers of the class, and the inserted moves put every live value where the op's map says |
| `RegAlloc.MovesExactly` | jsdos/myjit/reg-allocator.h:60-72 | assign_regs loads exactly the registers it newly maps that are live before the op, and spills exactly those it takes out of the map that are live before the op |
| `RegAlloc.AssociateOk` | jsdos/myjit/reg-allocator.h:274-286 | After associating an argument it is mapped to a register of its own, the other arguments keep theirs, no live value is lost |
| `RegAlloc.MakeFreeRegOk` | jsdos/myjit/reg-allocator.h:60-72 | Evicting frees a register that holds no argument of the op; the victim is spilled unless dead |
| `Rmap.VictimExists` | jsdos/myjit/rmap.h:209-245 | With at least three registers a victim always exists and is never an argument of the op |
| `Rmap.ScoreRulesOut` | jsdos/myjit/rmap.h:154-207 | A register scores INT_MIN exactly when it holds an argument of the op |
| `Rmap.SpillCandidate` | jsdos/myjit/rmap.h:209-245 | The scoring loop returns the first register of highest score, and none only when all are ruled out |
| `Rmap.ScoreTable` | jsdos/myjit/rmap.h:154-207 | The score by what the map says of the register: free, holding a dead or a live value, used again so many ops ahead or not at all, plus what the register itself adds |
| `Rmap.FartherFirst` | jsdos/myjit/rmap.h:154-207 | Of two registers alike, a free one scores above one whose value is used within 18000 ops, and of two values both live or both dead the one used later scores higher |
| `Rmap.DeadFirst` | jsdos/myjit/rmap.h:154-207 | ... and a dead value above a live one that is used no later |
| `Rmap.EqualMeaning` | jsdos/myjit/rmap.h:91-114 | rmap_equal answers true exactly when the maps agree on every register live at the target or after the op |
| `Hardware.AgreeExactly` | jsdos/myjit/rmap.h:91-114 | Two maps can stand for one another in every state exactly when they agree on the live registers |
| `Rmap.JumpRepair` | jsdos/myjit/rmap.h:123-152 | Unload pass then load pass: whatever the current map says of the live registers before, the target's map says after; no load clobbers a register still needed |
| `Rmap.SyncList` | jsdos/myjit/rmap.h:123-147 | __sync makes a move for exactly the live entries that the other map does not share |
| `Rmap.LoadEffect` | jsdos/myjit/rmap.h:123-147 | Loads into distinct hardware registers do not get in each other's way |
| `Rmap.IsAssociatedFinds` | jsdos/myjit/rmap.h:49-72 | The reverse lookup finds a register mapped to the hardware register exactly when there is one |
| `Allocator.Allocator.AssignAll` | jsdos/myjit/reg-allocator.h:525-538 | The three passes in place: the groups are the blocks of a plan that meets everything the simulation needs |
| `Allocator.Allocator.AssignPass` | jsdos/myjit/reg-allocator.h:531-532 | First pass: each op starts from its textual predecessor's map |
| `Allocator.Allocator.AssignRegs` | jsdos/myjit/reg-allocator.h:288-342 | assign_regs on one group |
| `Allocator.Allocator.Associate` | jsdos/myjit/reg-allocator.h:60-72 | make_free_reg and the load of associate_register, inserting before the op |
| `Allocator.Allocator.BranchPass` | jsdos/myjit/reg-allocator.h:474-523 | Second pass: exactly the branches whose maps differ are split, each with a PATCH id of its own; the PATCH they went to then belongs to the new JMP, the new PATCH to the branch, all others as before |
| `TestBranches.TestExactly` | jsdos/myjit/reg-allocator.h:474-476 | A mask or overflow branch, the latter adding to or subtracting from its first operand in place (common86-specific.h:615-623), arrives right from every state its map describes if and only if its map and its target's agree on the registers live at the target |
| `TestBranches.WaitingFails` | jsdos/myjit/reg-allocator.h:474-476 | A loop that waits on a bit: for every set of hardware registers the maps that assign_regs makes disagree on a live register |
| `TestBranches.DifferingFails` | jsdos/myjit/reg-allocator.h:474-476 | Where the maps differ on a live register, a state from which the branch arrives wrong, for every machine whose overflow branches add and subtract |
| `Allocator.Allocator.JumpPass` | jsdos/myjit/reg-allocator.h:537-538 | Third pass: JMPs get their moves, the ones made by the second pass too |
| `Allocator.Allocator.Sync` | jsdos/myjit/rmap.h:123-147 | The recursive walk that inserts moves before an op |
| `FlowAnalysis.FlowAnalysis.Analyze` | jsdos/myjit/flow-analysis.h:121-137 | On the linked trees of set.h: the do/while loop stops on every control-flow graph and leaves trees that hold the exact live sets, which satisfy the dataflow equations |
| `FlowAnalysis.FlowAnalysis.Pass` | jsdos/myjit/flow-analysis.h:128-135 | One pass only adds, and reports a change exactly when there is one |
| `FlowAnalysis.FlowAnalysis.AnalyzeOp` | jsdos/myjit/flow-analysis.h:31-119 | One op: the two trees are replaced by new ones for the recomputed live_in and live_out, all other trees keep their sets, and the result says whether either set changed |
| `FlowAnalysis.FlowAnalysis.NewLiveIn` | jsdos/myjit/flow-analysis.h:36-98 | The new live_in, made on a clone of live_out by removing what the op defines, arguments of a PROLOG included, and adding what it reads |
| `FlowAnalysis.FlowAnalysis.NewLiveOut` | jsdos/myjit/flow-analysis.h:100-113 | The new live_out: a clone of the live_in of what follows, joined with that of the jump target |
| `FlowAnalysis.StableIsExact` | jsdos/myjit/flow-analysis.h:121-137 | When nothing changes, a register is in live_in exactly when some path reaches a use of it with no definition before |
| `FlowAnalysis.ExactIsLeast` | jsdos/myjit/flow-analysis.h:121-137 | Exact live sets lie inside every solution of the dataflow inequalities: the least fixpoint |
| `FlowAnalysis.VisitSound` | jsdos/myjit/flow-analysis.h:31-119 | Visiting an op adds only registers that some path reads |
| `FlowAnalysis.VisitGrows` | jsdos/myjit/flow-analysis.h:31-119 | From the empty sets on, visiting an op never removes a register |
| `FlowAnalysis.RoomShrinks` | jsdos/myjit/flow-analysis.h:126-136 | The measure: the room left for the sets gets smaller whenever something changes |
| `DeadAssign.DropPreservesMeaning` | jsdos/myjit/x86-common-stuff.c:89-103 | Dead-assignment removal preserves results from every op on, for every op semantics in which only the carry ops touch carry and memory |
| `DeadAssign.DropInStep` | jsdos/myjit/x86-common-stuff.c:89-103 | At every step of every run both lists agree on path, carry, memory and all live registers |
| `DeadAssign.DropsExactly` | jsdos/myjit/x86-common-stuff.c:89-103 | With exact live sets, an op is dropped exactly when it assigns a register that no path reads and sets no carry |
| `Carry.CarriesAreKept` | jsdos/myjit/x86-common-stuff.c:93-95 | The pass preserves meaning on every machine where ADDC and SUBC set a carry or borrow, ADDX and SUBX count it in and set it, and no other op changes it |
| `Carry.HighWordReturned` | jsdos/myjit/x86-common-stuff.c:93-95 | There the high word of a double-word sum or difference is returned, though nobody reads the low one |
| `Carry.WithoutCarryExactly` | jsdos/myjit/x86-common-stuff.c:93-95 | Were its dead first op dropped, it would be returned if and only if the carry happened to be the right one before |
| `DeadAssign.DropKeepsLiveness` | jsdos/myjit/x86-common-stuff.c:89-103 | The recorded live sets still satisfy the dataflow inequalities |
| `DeadAssign.DeadAssignments.OptimizeUnusedAssignments` | jsdos/myjit/x86-common-stuff.c:89-103 | The loop over the ops in place makes exactly that list |
| `Fusion.FusionPreservesMeaning` | jsdos/myjit/x86-common-stuff.c:133-141 | Replacing two ops by a NOP and one op that does both preserves results from every entry point |
| `Fusion.FusedLiveness` | jsdos/myjit/x86-common-stuff.c:133-141 | The live sets that go with the fused list satisfy the dataflow inequalities |
| `JoinOps.RightExactly` | jsdos/myjit/x86-common-stuff.c:117-293 | A join does what the two ops did, for all registers and 64-bit values and any aliasing, if and only if the next op reads the result, the sign the code assumes is the op's and the joined constant survives a 32-bit displacement; where the next op does not read the result, only if the joined constant comes to nothing |
| `JoinOps.RightMeansSame` | jsdos/myjit/x86-common-stuff.c:117-293 | The positive half, value by value: MUL/LSH+ADD, MUL/LSH+OR, ADD/SUB-immediate+ADD with the doubled operand, ADD+SUB-immediate |
| `JoinOps.WrongDiffers` | jsdos/myjit/x86-common-stuff.c:117-131 | Otherwise there are register values for which the joined op differs: get_related_op does not compare with the result register, and join_addr_addi always negates |
| `JoinOps.OrOfScaled` | jsdos/myjit/x86-common-stuff.c:194-206 | OR equals addition for 0 < k < scale, because the low bits are zero |
| `JoinPasses.PassKeeps` | jsdos/myjit/x86-common-stuff.c:225-241 | A whole join pass preserves results and leaves a solution of the dataflow inequalities |
| `JoinPasses.NoFurtherJoin` | jsdos/myjit/x86-common-stuff.c:225-241 | A joined pair takes part in no further join |
| `JoinPasses.PassMissesNone` | jsdos/myjit/x86-common-stuff.c:225-241 | After a join pass none of its rules applies to any pair of neighbours: every pair that can be joined has been |
| `JoinPasses.JoinPass.OptimizeJoin` | jsdos/myjit/x86-common-stuff.c:282-293 | The pass in place; it reports a change whenever it made one |
| `JoinPasses.JoinPass.Join2Ops` | jsdos/myjit/x86-common-stuff.c:133-141 | One attempt at one place, in place |
| `StoreOps.RightStoreExactly` | jsdos/myjit/x86-common-stuff.c:34-69 | Storing the immediate directly is right from every state if and only if the stored register is no address register and the value is at most 4 bytes wide or fits a sign-extended 32-bit field |
| `Arithmetic.StoredBytes` | jsdos/myjit/common86-specific.h:814-815 | A store writes the bytes of its value upwards from its address, the lowest first, and no others |
| `StoreOps.StoresKeep` | jsdos/myjit/x86-common-stuff.c:32-72 | The pass preserves results, and the live sets only shrink |
| `StoreOps.StoresMissNone` | jsdos/myjit/x86-common-stuff.c:32-72 | After the pass no store is left that its rewrite applies to |
| `StoreOps.StorePass.OptimizeStOps` | jsdos/myjit/x86-common-stuff.c:32-72 | The loop in place, plain stores before indexed ones |
| `LongImm.OverflowExactly` | jsdos/myjit/jitlib-core.c:74-85 | For a signed op the test is exactly that 32-bit sign extension does not give the value back; for an unsigned op it also rejects a set sign bit |
| `LongImm.AllFit` | jsdos/myjit/jitlib-core.c:90-118 | The last immediate of every branch, test, store, load, shift, arithmetic op and RET of the corrected list is given back by sign extension of 32 bits; JMP, PATCH, PROLOG and MOV alone are exempt |
| `LongImm.SplitExactly` | jsdos/myjit/jitlib-core.c:90-118 | A MOV is put in front of an op if and only if it has an immediate, is none of those four, and its last immediate does not survive sign extension or, for an unsigned op, has more than 31 bits |
| `LongImm.CorrectionPreservesMeaning` | jsdos/myjit/jitlib-core.c:90-118 | Source list and corrected list return the same from the start of any op; only R_IMM differs on the way |
| `LongImm.CorrectedRuns` | jsdos/myjit/jitlib-core.c:90-118 | In step: at every op boundary all registers but R_IMM, carry and memory agree |
| `LongImm.LongImmediates.CorrectLongImms` | jsdos/myjit/jitlib-core.c:90-118 | The loop in place: it terminates although it inserts, and makes exactly the corrected list |
| `LongImm.LongImmediates.CorrectOp` | jsdos/myjit/jitlib-core.h:683-689 | One op, with the MOV prepended |
| `Hints.HintsExact` | jsdos/myjit/reg-allocator.h:359-421 | A register has a hint at an op exactly when the same function mentions it at or after the op; pos minus last_pos is the distance to the nearest mention, zero exactly at a mention |
| `Hints.PreferencesExact` | jsdos/myjit/reg-allocator.h:400-404 | The preference for the return register counts the RETs of the register that are still ahead |
| `Hints.HintTable.CollectStatistics` | jsdos/myjit/reg-allocator.h:359-421 | The backward loop with shared trees: every op ends up with those hints, every cell's count is the number of op trees that hold it |
| `Hints.HintTable.IncreaseRefs` | jsdos/myjit/reg-allocator.h:423-429 | Adds one to each cell of the tree |
| `Hints.HintTable.FreeOp` | jsdos/myjit/reg-allocator.h:431-441 | Freeing one op's tree frees exactly the cells that no other tree holds |
| `Hints.HintTable.FreeAll` | jsdos/myjit/reg-allocator.h:431-441 | Freeing every op's tree once, in any order, frees every shared hint exactly once and touches none afterwards |
| `Hints.HintTable.Touch` | jsdos/myjit/reg-allocator.h:387-406 | One mentioned register gets a cell of its own; the trees made before keep theirs |
| `Llrb.DeleteCorrect` | jsdos/myjit/llrb.c:158-196 | From every valid tree, present and absent keys, without reddening the root: a valid tree (order, no red right link, no two reds in a row, equal black height, black root) for the old map minus the key, and the flag is true exactly when the key was there |
| `Llrb.DeleteNodeContent` | jsdos/myjit/llrb.c:158-189 | The recursive case: entries and flag, under the invariant on the node that is entered |
| `Llrb.DeleteNode` | jsdos/myjit/llrb.c:158-189 | The recursive case: colours and black height of what is returned |
| `Llrb.DeleteMinContent` | jsdos/myjit/llrb.c:143-156 | Removes exactly the least key |
| `Llrb.InsertCorrect` | jsdos/myjit/llrb.c:98-104 | From every valid tree a valid tree for the old map updated at the key |
| `Llrb.NodeInsertShape` | jsdos/myjit/llrb.c:79-96 | A red-red pair can surface only at the root of a subtree whose root was red, and the caller's fixup repairs it |
| `Llrb.FixupShape` | jsdos/myjit/llrb.c:52-64 | What fixup repairs, and when it may hand on a red-red pair |
| `Llrb.SearchFinds` | jsdos/myjit/llrb.c:107-112 | Search finds a key exactly when the tree has it, with its value |
| `Llrb.SearchIsLogarithmic` | jsdos/myjit/llrb.c:107-112 | A search in a valid tree of n nodes looks at no more than 2 log2(n + 1) of them |
| `Llrb.AddAllCorrect` | jsdos/myjit/llrb.c:201-208 | The union, the entries of the added tree winning |
| `Llrb.SubsetCorrect` | jsdos/myjit/llrb.c:236-240 | True exactly when the keys are a subset |
| `Llrb.EqualCorrect` | jsdos/myjit/llrb.c:242-245 | True exactly when the key sets are equal |
| `LlrbHeap.Insert` | jsdos/myjit/llrb.c:98-104 | In place: the linked nodes afterwards stand for the value-level insertion, each node is an old one or new, `found` is true exactly when a search finds the key |
| `LlrbHeap.NodeInsert` | jsdos/myjit/llrb.c:79-96 | In place, recursive case |
| `LlrbHeap.Delete` | jsdos/myjit/llrb.c:191-196 | In place: the linked nodes stand for the value-level deletion, and exactly one node leaves the tree and is freed if the key was there, none otherwise |
| `LlrbHeap.DeleteNode` | jsdos/myjit/llrb.c:158-189 | In place, recursive case, freed node included |
| `LlrbHeap.DeleteMin` | jsdos/myjit/llrb.c:143-156 | In place: one node is freed, the others are relinked |
| `LlrbHeap.MoveRedLeft` | jsdos/myjit/llrb.c:114-123 | In place, the same nodes relinked |
| `LlrbHeap.MoveRedRight` | jsdos/myjit/llrb.c:125-135 | In place, the same nodes relinked |
| `LlrbHeap.Fixup` | jsdos/myjit/llrb.c:52-64 | In place, the same nodes relinked |
| `LlrbHeap.RotateLeft` | jsdos/myjit/llrb.c:25-33 | In place, the same nodes relinked |
| `LlrbHeap.RotateRight` | jsdos/myjit/llrb.c:35-43 | In place, the same nodes relinked |
| `LlrbHeap.ColorFlip` | jsdos/myjit/llrb.c:45-50 | In place: only colours change |
| `LlrbHeap.Search` | jsdos/myjit/llrb.c:107-112 | The node it returns is in the tree, holds the key, and exists exactly when the value-level search finds one |
| `LlrbHeap.AddAll` | jsdos/myjit/llrb.c:201-208 | In place; the added tree is unchanged and shares no node with the result |
| `LlrbHeap.Clone` | jsdos/myjit/llrb.c:210-213 | All nodes of the copy are new |
| `LlrbHeap.Subset` | jsdos/myjit/llrb.c:236-240 | On nodes: equal to the value-level test |
| `JitSet.RegSet.Put` | jsdos/myjit/set.h:57-61 | Adds or removes exactly the one member |
| `JitSet.RegSet.Get` | jsdos/myjit/set.h:52-55 | True exactly for members |
| `JitSet.RegSet.Or` | jsdos/myjit/set.h:47-50 | Union; the other set is unchanged and no node is shared |
| `JitSet.RegSet.Clone` | jsdos/myjit/set.h:34-39 | Same members in nodes of its own |
| `JitSet.RegSet.Equal` | jsdos/myjit/set.h:63-66 | True exactly for equal sets |
| `Emission.Emitter.GenerateCode` | jsdos/myjit/jitlib-core.c:311-314 | In the finished buffer every op's bytes stand at the op's offset, and every branch and JMP, read at its own address, decodes to the offset of its LABEL or PATCH, backward at emission and forward through the PATCH, and is taken by the processor exactly when the op jumps, for all words that its comparison may see |
| `Conditions.BranchRight` | jsdos/myjit/x86-codegen.h:162-191 | The emitted condition, tested on the flags that the emitted CMP, TEST, ADD or SUB leaves (carry, zero, sign and overflow of 64-bit words), holds exactly when the branch is taken: the six conditions in both orders, the masks and the overflows |
| `Conditions.TestFlags` | jsdos/myjit/common86-specific.h:605-613 | TEST leaves the zero flag clear exactly when some bit is one in both operands |
| `Emission.JumpIsTakenRight` | jsdos/myjit/x86-codegen.h:1535-1543 | ... of the bytes themselves, whatever stands around them |
| `Emission.JumpsThere` | jsdos/myjit/amd64-codegen.h:121-145 | A resolved jump goes where its target's code starts |
| `Emission.Patched` | jsdos/myjit/common86-specific.h:758-762 | A PATCH op writes nothing of its own and resolves exactly its jump |
| `Emission.DispOfLe32` | jsdos/myjit/x86-codegen.h:1567-1571 | Four bytes written and read back, sign extended, are the displacement |
| `Emission.BranchDecodes` | jsdos/myjit/x86-codegen.h:1535-1543 | A REX prefix and a two-byte opcode decode to the end of the instruction plus the displacement |
| `Emission.Emitter.PatchAt` | jsdos/myjit/amd64-codegen.h:121-145 | amd64_patch finds the displacement behind the prefix and sets it, and changes nothing else |
| `Emission.Emitter.BranchDisp32` | jsdos/myjit/common86-specific.h:595-603 | What a conditional branch writes; a label's displacement counts from after the prefix |
| `Emission.Emitter.JumpDisp32` | jsdos/myjit/x86-codegen.h:1519-1523 | What a jump writes |
| `LeaBytes.MemBaseRight` | jsdos/myjit/x86-codegen.h:283-310 | LEA with a base and a displacement: what the processor reads from the bytes is the address meant, for all sixteen base registers and every displacement |
| `LeaBytes.MemIndexExactly` | jsdos/myjit/x86-codegen.h:312-330 | LEA with a base, an index and a displacement is read as meant if and only if the displacement has 8 bits or the base is RBP or R13 |
| `LeaBytes.AddImmExactly` | jsdos/myjit/common86-specific.h:861 | The bytes of JIT_X86_ADDIMM deliver the op's meaning for all register contents if and only if the constant has 8 bits or the base is RBP or R13 |
| `LeaBytes.AddMulImmExactly` | jsdos/myjit/common86-specific.h:860 | The bytes of JIT_X86_ADDMUL with an immediate deliver the op's meaning exactly where RDI, or RBP for a constant beyond 8 bits, holds zero |
| `LeaBytes.AddMulRight` | jsdos/myjit/common86-specific.h:859 | The bytes of JIT_X86_ADDMUL with a register always deliver its meaning |
| `TwoAddress.AluRight` | jsdos/myjit/common86-specific.h:288-308 | AND, OR, XOR and the like for every choice of destination and operands |
| `TwoAddress.AddRight` | jsdos/myjit/common86-specific.h:706-711 | Addition through MOV/ADD or LEA, every choice of registers |
| `TwoAddress.SubRight` | jsdos/myjit/common86-specific.h:310-327 | Subtraction, also with the destination as subtrahend |
| `TwoAddress.SubImmExactly` | jsdos/myjit/common86-specific.h:310-327 | Subtracting a 32-bit immediate is right if and only if the destination is the minuend or the immediate is not the least 32-bit number |
| `TwoAddress.RsbRight` | jsdos/myjit/common86-specific.h:357-375 | Reverse subtraction, every choice of registers |
| `TwoAddress.RsbImmExactly` | jsdos/myjit/common86-specific.h:357-375 | Reverse subtraction from an immediate is right if and only if it is not the least 32-bit number |
| `TwoAddress.MulRight` | jsdos/myjit/common86-specific.h:394-451 | Multiplication, low or high half, signed or not, every choice of registers including AX and DX: the product, other registers in use and the stack pointer kept |
| `TwoAddress.HalvesAreProduct` | jsdos/myjit/common86-specific.h:394-451 | The two halves that MUL and HMUL deliver make up the product of the words, or of the signed words |
| `TwoAddress.MulImmRight` | jsdos/myjit/common86-specific.h:394-451 | Multiplication by a constant, with its shift and LEA shortcuts |
| `TwoAddress.DivRight` | jsdos/myjit/common86-specific.h:470-532 | Division and remainder for every choice of registers; a divide fault exactly when the divisor is zero, the quotient is out of range or, unsigned, the dividend has its top bit set (the code sign-extends there) |
| `TwoAddress.QuotientMeans` | jsdos/myjit/common86-specific.h:470-532 | Quotient and remainder: divisor times quotient plus remainder is the dividend, and the remainder is smaller than the divisor and has the sign of the dividend |
| `TwoAddress.DivImmRight` | jsdos/myjit/common86-specific.h:470-532 | Division by a constant outside the shortcuts |
| `TwoAddress.DivShortcutExactly` | jsdos/myjit/common86-specific.h:476-494 | Division by 2, 4, 8 by shifting and remainder by masking are right if and only if the op is unsigned, the dividend is not negative or it is a multiple |
| `TwoAddress.DivShortcutRuns` | jsdos/myjit/common86-specific.h:476-494 | What the shortcut leaves in the destination, nothing else changed |
| `TwoAddress.GuardedRight` | jsdos/myjit/common86-specific.h:427-450 | Whatever is computed between them, the pushes and pops balance and restore AX and DX |
| `TwoAddress.Selector.EmitSubOp` | jsdos/myjit/common86-specific.h:310-327 | The branches of the emitter in order: it appends exactly the sequence proved right |
| `TwoAddress.Selector.EmitMulOp` | jsdos/myjit/common86-specific.h:394-451 | As above for multiplication |
| `TwoAddress.Selector.EmitDivOp` | jsdos/myjit/common86-specific.h:470-532 | As above for division |
| `SparcMul.BitPop` | jsdos/myjit/sparc-specific.h:362-369 | The five folds on 32 bits give the number of one bits |
| `SparcMul.GenerMult` | jsdos/myjit/sparc-specific.h:374-402 | The shifts and additions multiply by any non-zero constant modulo 2^32, also with destination equal to source |
| `SparcMul.MulImm` | jsdos/myjit/sparc-specific.h:405-430 | __mul with a constant gives the product modulo 2^32 for all register contents if and only if the constant is 0 or 1, has at most five one bits without its sign, or fits the 13-bit field of smul |
| `SparcMul.Mul` | jsdos/myjit/jitlib-core.c:74-118 | Behind jit_correct_long_imms, which moves a constant of more than 12 bits to R_IMM first, __mul is right for every constant |
| `SparcMul.OverflowExactly` | jsdos/myjit/jitlib-core.c:74-85 | With 12 bits (cpu-detect.h:78) the test lets through exactly the constants that the 13-bit field gives back, or for unsigned ops those below 4096 |
| `SparcMul.SmulExactly` | jsdos/myjit/sparc-codegen.h:481-491 | smul with an immediate multiplies by it if and only if it survives sign extension of 13 bits |
| `SparcMul.WideConstantFails` | jsdos/myjit/sparc-specific.h:405-430 | By 0x12345, which has more than five one bits and more than 13 bits, __mul alone multiplies by 0x345 |
| `Heap.Heap.Malloc` | jsdos/stdlib.c:11-35 | The blocks tile memory from MEM_DATA to mem_next, a sentinel behind them, mem_alloced is the sum of the sizes not freed: kept by every call; the new block is where the last one ended |
| `Heap.Heap.Free` | jsdos/stdlib.c:43-60 | On a returned block it succeeds exactly if the block has a size and was not freed, so a second free always fails its assertion; the block is filled, accounting and tiling are kept |
| `Heap.Heap.WriteByte` | jsdos/stdlib.c:11-35 | A write inside a block disturbs no header |
| `Heap.Heap.WalkLeaked` | jsdos/stdlib.c:64-106 | The pointer-chasing loop terminates and reports the unfreed blocks up to the first empty one |
| `Heap.LeaksExact` | jsdos/stdlib.c:64-106 | The list holds exactly the unfreed blocks with their addresses and sizes |
| `Heap.ReportComplete` | jsdos/stdlib.c:64-106 | Every unfreed block is reported if and only if no block of size zero was handed out |
| `Heap.InsideBlock` | jsdos/stdlib.c:22-32 | Headers do not overlap payloads |
| `ArgLayout.InitializeArguments` | jsdos/myjit/jitlib-core.c:233-260 | Every declared argument of every function is recorded in the next register of its class or the next eightbyte on the stack, with the slot it is spilled to |
| `ArgLayout.InitArgParams` | jsdos/myjit/amd64-specific.h:51-86 | One argument: register, or offset 16 + 8 times what is left over of both classes; an argument on the stack is spilled where it is, one in a register in its slot of the frame |
| `ArgLayout.ReadWherePassed` | jsdos/myjit/common86-specific.h:231-278 | GETARG reads an argument on the stack from the eightbyte where the rule puts it, which is also where it counts as spilled, and one passed in a register there while it is mapped and from the slot of its argument register if not |
| `ArgLayout.KeptApart` | jsdos/myjit/amd64-specific.h:51-86 | The eight bytes of any two arguments, on the stack or spilled to the frame, do not overlap |
| `ArgLayout.PrologExactly` | jsdos/myjit/flow-analysis.h:45-54 | The argument register that GETARG reads is one that the PROLOG is taken to write if and only if the position among all arguments is below the number of arguments of its class and below six or eight |
| `ArgLayout.OneClass` | jsdos/myjit/flow-analysis.h:45-54 | With arguments of one class those are exactly the ones passed in registers |
| `ArgLayout.AssociatedExactly` | jsdos/myjit/reg-allocator.h:80-96 | The register that the PROLOG associates with an argument is the one it is passed in if and only if all arguments before are of its class |
| `ArgLayout.MixedClasses` | jsdos/myjit/reg-allocator.h:80-96 | A double and an integer, where it is not |
| `StackFrame.SlotsMeetExactly` | jsdos/myjit/amd64-specific.h:36-47 | Two registers share a stack slot if and only if one is an argument or immediate register and the other has the same number there, or it has number 0 and the other is the last register of the frame; all other slots are apart |
| `FrameSlots.FrameHalts` | jsdos/myjit/common86-specific.h:184-208 | With UREG and LREG at their places in the frame the allocated code returns a value, carry and memory exactly when it does on one slot for each register, if no two moved registers share a slot |
| `FrameSlots.FrameRuns` | jsdos/myjit/common86-specific.h:184-208 | ... step by step: the same place, hardware registers, carry and memory, and each slot of the frame holds what its register's slot holds |
| `FrameSlots.SlotsApartExactly` | jsdos/myjit/amd64-specific.h:36-47 | No two moved registers share a slot if and only if none of them meets another; R and FR registers never do |
| `FrameSlots.SharingFails` | jsdos/myjit/amd64-specific.h:36-47 | For any two registers there is code that returns the same on slots and on the frame if and only if their slots differ |
| `StackFrame.SlotInFrameExactly` | jsdos/myjit/amd64-specific.h:269 | Every slot lies in the reserved bytes, and below the allocated stack memory unless it is number 0 in a function without registers |
| `StackFrame.ReadBackExactly` | jsdos/myjit/amd64-specific.h:39-59 | A spilled argument is read back from the slot it was put in if and only if the function that is current while arguments are laid out has as much allocated stack memory |
| `ArgLayout.StackArgsAreTheExcess` | jsdos/myjit/amd64-specific.h:61-64 | That formula counts the earlier arguments on the stack |
| `ArgLayout.PlacesApart` | jsdos/myjit/amd64-specific.h:51-86 | No two arguments share a place; those on the stack lie in declaration order |
| `ArgLayout.StackFilled` | jsdos/myjit/amd64-specific.h:51-86 | The eightbytes from offset 16 on are used without a gap |

## Left out

- `Simulation.AllocationPreservesMeaning`: programs without calls, function arguments and register-indirect jumps, whose mask and overflow branches meet the condition of `TestBranches.TestExactly`; the allocator rests on tacit assumptions for calls, and LREG of an argument register fails its assertion.
- `MachineCode.Compile`: the bytes of ops other than jumps are a parameter (`Encoder`); arithmetic and branches are followed down to instructions (`SelectedCode`), of which the conditional jump is the one whose bytes are decoded, the bytes of LEA are in `LeaBytes` alone.  The other ops (loads, stores, compares, shifts, NOT, ADDC and the like, the joined ops) are run by their meaning.  The frame is that of one function.
- `SelectedCode.OntoSequences`: that no wrong sequence is reached is a condition on the run where the list divides; for lists without division `SelectedCode.CodeIsTame` derives it from the list.
- The carry flag between an ADDC and its ADDX: a MOV of the immediate 0 is emitted as XOR (common86-specific.h:805), which clears it, and other arithmetic ops set it too; here ops other than ADDC, SUBC and the like leave the carry alone, and the instructions of `Selection` have no flags.
- `Pipeline.Generate`: its `Safe` is a condition on callers, not on the source; the code makes the rewrites without it.
- `JoinOps.RightExactly`: about the ops' meanings with their 32-bit constants; which base register the bytes name is `LeaBytes`.
- `Allocator.Allocator.AssignAll`: the pointer-linked op list is kept as one group of ops per original op, and a jump finds its target by a LABEL or PATCH id instead of a pointer.
- `Hints.HintTable.CollectStatistics`: scores, positions and counts are unbounded integers, where the code uses int.
- `Heap.Heap.Malloc`: addresses are unbounded; the debug records of where a block was allocated and freed are left out.
- `Heap.Heap.WalkLeaked`: the report is a list; screen output and hexadecimal formatting are left out.
- `FlowAnalysis.FlowAnalysis.Analyze`: trees that are replaced are left to the garbage collector, where the code frees them; the later passes read the sets out of the trees once and keep them as values.
- `JitSet.RegSet.Or`: for two sets that share no node; the dataflow pass makes the target by cloning.
- `Emission.Emitter.GenerateCode`: the buffer is large enough from the start and below 2 GiB; growth through realloc, which does not copy, is left out.
- `LlrbHeap.Delete`: the freed node is handed back to the caller; what free does with it is `Heap`.
- SPARC's overflow branches, which put the sum in the register numbered like their jump target's argument (sparc-specific.h:119-138): `TestBranches` is about AMD64.
- Floating point, SSE emission and the floating-point branches.
- Calls: preparing registers, arguments, return values and stack balance.
- R_OUT and R_FP aliases, allocated stack memory, the omission of the frame pointer.
- ModRM and SIB encoding of the code generation macros other than LEA.
- emit_shift_op, emit_cond_op, and the carry that emit_subx_op leaves.
- The other parts of the kernel: keyboard, screen, interpreter, boot code and build scripts.
