# A verified model of the GPU simulator's warp, memory and runtime core

The simulator runs warps of threads in lockstep, turns their loads and stores into memory
transactions, and emulates unified memory with one host copy and one device copy. This project
models that core in Dafny and proves what the rest of the simulator relies on.

* **Reconvergence stack.** `SimtStack.dfy` holds `simt_stack` as a class with its loops and a
  closed form `UpdateSpec` of one update; `SimtPaths.dfy` says which entries that form leaves, field by
  field, and `WarpCore.dfy` covers `core_t::updateSIMTStack`, from the state of the threads to the
  updated stack. `SimtInvariant.dfy`, `SimtShape.dfy` and `SimtRuns.dfy` prove what every update keeps
  over every run of launch, branches, calls, returns and exits; `SimtDepth.dfy` bounds the stack.
  `ControlFlow.dfy` and `SimtFlow.dfy` derive proper reconvergence pcs from immediate post-dominators,
  `SimtExit.dfy` is about threads that finish, and `SimtRefinement.dfy` shows that a lockstep run
  refines threads that run on their own.
  `SimtExamples.dfy` and `SimtFlowExamples.dfy` have the concrete runs that break what holds only
  under a condition.
  `Checkpoint.dfy` covers saving a stack as text and reading it back.
* **Memory access generation.** `Coalescer.dfy`, `CoalescingUnit.dfy` (plain accesses and window
  reduction), `Straddling.dfy` (accesses that are not aligned), `AtomicCoalescer.dfy` (first fit for
  atomics), `WarpMemory.dfy` (the loops that fill the access queue, for all parts of a warp),
  `SegmentRules.dfy` and `TransactionRecords.dfy` (how many accesses are queued for which blocks, and
  what each records, by addresses), `AtomicQueue.dfy` and `AtomicRules.dfy` (what is queued for
  atomics) and `SharedMemory.dfy` (bank conflicts). The coalescing rules are those of section F.3.2.2
  of the CUDA C Programming Guide 4.x.
* **Unified memory.** `UnifiedMemory.dfy` states the operations and the refinement to one flat
  memory, `MemoryHistory.dfy` what its flags stand for over a run, `ManagedMemory.dfy` the runtime's
  loops, `ManagedSizing.dfy` sizes, tiles and prefetch ranges.
* **Front ends.** `Sections.dfy` (pruning and merging PTX sections) and `OpenCL.dfy` (argument
  layout, work-group selection).

`OrderedKeys.dfy`, `WarpParts.dfy`, `PageArithmetic.dfy` and `Options.dfy` are shared helpers:
iteration of an ordered map, the threads of a warp part, division by a page size, optional values.

## What turned out false, and exactly when it holds

Each has a lemma at a concrete input that fails, and one with the exact condition.

* Stack and threads can disagree after a divergent branch (`SimtExamples.ImproperExample`). They agree
  exactly when every divergent branch taken straight to the enclosing reconvergence pc also names it
  as its own (`SimtRuns.StepCorrect`, `SimtRuns.RunAgrees`). Immediate post-dominators always do
  (`SimtFlow.FlowAgrees`), unless a branch goes to the pc that stands for the exit and reconverges
  elsewhere (`SimtFlowExamples.BranchToExitExample`).
* A call entry need not hold all live threads of its caller (`SimtExamples.SplitCallExample`): it does
  throughout a run exactly when no branch directly under a call diverges without a reconvergence pc
  (`SimtRuns.RunCallsHoldAll`). The callee's frame as a whole always holds them (`CallsCover`).
* A branch that reconverges at the caller can get the return pc of another thread
  (`SimtFlowExamples.ForeignReturnExample`): the resolved pc is that of the active threads exactly when the
  first unfinished thread of the warp returns there too (`WarpCore.ResolvedForActive`).
* A finished thread can be issued again, on which the source aborts
  (`SimtExamples.FinishedIssuedExample`). The top entry never holds one exactly when no update uncovers
  an entry that does (`SimtExit.RunTopLive`), and no entry at all does exactly when no thread finishes
  while an entry that the update leaves alone holds it (`SimtExit.RunMasksLive`). In a kernel without
  calls whose branches reconverge at their immediate post-dominators only the launch entry ever holds
  finished threads (`SimtExit.KernelRun`), and no finished thread is issued while another one lives
  (`SimtExit.IssuedThreadsLive`), unless an instruction jumps to the pc that stands for the exit, which
  is 0 (`SimtFlowExamples.JumpToExitExample`).
* The record of an access that leaves its 32-byte chunk is never exact (`Coalescer.LoneAccessExact`).
  Inside one segment the bytes are right and the chunks wrong; across segments the chunks are right
  and the bytes wrong (`Straddling.LoneBytesExact`, `Straddling.LoneChunksExact`, with
  `Straddling.ChunkCrossingExample` and `Straddling.SegmentCrossingExample`). Naturally aligned
  accesses never leave their chunk.
* A checkpoint does not bring every stack back (`Checkpoint.LargePcExample`): exactly those whose pcs,
  reconvergence pcs and cycles survive a signed 32-bit number (`Checkpoint.CheckpointRoundTrip`).
* Merging PTX sections can lose code (`Sections.CutHeaderExample`): exactly when a section other than
  the last is shorter than the 50-character header while an earlier one has a body
  (`Sections.MergedIsIntended`).
* Pruning does not abort when there is no usable PTX but an ELF section of capability 0
  (`Sections.HiddenAbortExample`, `Sections.PruneAborts`).
* A host write to managed memory can be lost (`UnifiedMemory.LostWriteExample`): the two copies are one
  flat memory throughout a run exactly when no host write changes a byte of a copied-in allocation
  (`UnifiedMemory.RunRefinesFlat`). An allocation is copied in from the first argument setup to the next
  `cudaDeviceSynchronize`; `cudaThreadSynchronize` and `cudaStreamSynchronize` wait for the kernel
  and leave it copied in, so a write after them is lost although no kernel is outstanding.
* A work-group size chosen automatically is rejected exactly when the core's thread count is no
  multiple of 64, is smaller than the range and does not divide it (`OpenCL.RejectedExample`,
  `OpenCL.NeverRejected`), and grid times block is the range exactly when both fit 32 bits
  (`OpenCL.TruncatedGridExample`, `OpenCL.GridTimesBlock`).

## Assumptions

* SIMT stack: an unfinished active thread never has the next pc -1; a step has at most two different
  next pcs; calls, and returns from a call entry, are uniform. The source asserts the last three on
  its caller. Threads outside the top entry neither move nor finish in a step.
* Runs along a control flow graph: the program can be left from every instruction; threads go to
  successors of the instruction they executed, or leave where it can be left, and return to a
  successor of the call; a divergent branch reconverges at its immediate post-dominator, or at the
  return pc on the call stack if no instruction post-dominates it. A branch that goes to that return
  pc reconverges there; for a kernel it is 0, the pc of the first instruction assembled, so this is
  about kernels that start at 0 and branch back to it. With calls the graph is one for the whole
  program.
* The host's `malloc` returns a range disjoint from the live managed allocations. A device store
  marks its page dirty. Synchronisation starts after all page transfers have completed. The page size
  is positive.
* PTX sections have distinct files that exist, and the files hold no NUL.
* Printing a 64-bit field with `%d` takes its low 32 bits, as on x86-64, and `atoi` of a number beyond
  32 bits keeps its low 32 bits, as in glibc; C leaves both undefined.

## Model

| member | source | states |
|---|---|---|
| SimtStacks.SimtStack.constructor | gpgpu-sim-uvm/src/abstract_hardware_model.cc:1036-1043 | a new stack is empty |
| SimtStacks.SimtStack.Launch | gpgpu-sim-uvm/src/abstract_hardware_model.cc:1045-1053 | one NORMAL entry with the start pc, call depth 1, the launch mask and no reconvergence pc |
| SimtStacks.PeelGroup | gpgpu-sim-uvm/src/abstract_hardware_model.cc:1173-1196 | one pass removes finished threads and exactly the threads sharing one next pc, and finds no pc only when all are finished |
| SimtStacks.GroupByNextPc | gpgpu-sim-uvm/src/abstract_hardware_model.cc:1171-1200 | the loop terminates and gives the partition of live threads by next pc, counting its groups |
| SimtStacks.PeelShrinks | gpgpu-sim-uvm/src/abstract_hardware_model.cc:1172-1200 | every pass strictly shrinks the active mask |
| SimtStacks.GroupsExtend | gpgpu-sim-uvm/src/abstract_hardware_model.cc:1198-1199 | a peeled group is one more class of the partition |
| SimtStacks.PathOrder | gpgpu-sim-uvm/src/abstract_hardware_model.cc:1202-1219 | the paths are the groups, different, and the not-taken one comes first when present |
| SimtStacks.SimtStack.Update | gpgpu-sim-uvm/src/abstract_hardware_model.cc:1152-1295 | the loop with its spare entry and final pop computes the closed form, and its asserts hold |
| SimtStacks.SimtStack.PlacePath | gpgpu-sim-uvm/src/abstract_hardware_model.cc:1252-1287 | one round of the path loop |
| SimtStacks.RoundsGiveSpec | gpgpu-sim-uvm/src/abstract_hardware_model.cc:1202-1290 | the rounds followed by the pop leave what the closed form says for zero, one and two paths |
| SimtStacks.TwoRounds | gpgpu-sim-uvm/src/abstract_hardware_model.cc:1202-1290 | two rounds of the path loop leave the entries of a divergence, whichever path reconverges |
| SimtPaths.TakenSideFirst | gpgpu-sim-uvm/src/abstract_hardware_model.cc:1202-1213 | of two sides that run on, one at pc plus instruction size, the other one becomes the top with exactly its threads, and the one that falls through lies right below |
| SimtPaths.BothSides | gpgpu-sim-uvm/src/abstract_hardware_model.cc:1202-1290 | every field of the entries two paths leave, and their order: the one that falls through below, else the smaller pc below |
| SimtPaths.OneSideLeft | gpgpu-sim-uvm/src/abstract_hardware_model.cc:1252-1290 | every field when one of two paths is at a reconvergence pc |
| SimtPaths.NoSideLeft | gpgpu-sim-uvm/src/abstract_hardware_model.cc:1252-1290 | only the waiting entry is left when both are |
| SimtPaths.TogetherOn | gpgpu-sim-uvm/src/abstract_hardware_model.cc:1252-1290 | with one path the top moves on with its live threads, or is gone at its reconvergence pc |
| SimtPaths.CalledTogether | gpgpu-sim-uvm/src/abstract_hardware_model.cc:1222-1234 | a call leaves the caller's entry and a CALL entry without a reconvergence pc on top |
| SimtPaths.ReturnedTogether | gpgpu-sim-uvm/src/abstract_hardware_model.cc:1235-1250 | a return drops the callee's entry and moves the caller's to the return pc, or drops it there when it reconverges |
| SimtPaths.NobodyLeft | gpgpu-sim-uvm/src/abstract_hardware_model.cc:1171-1220 | with no live thread the entry is dropped |
| WarpCore.GatherIssue | gpgpu-sim-uvm/src/abstract_hardware_model.cc:1315-1328 | the next pc of each unfinished thread, -1 for a finished one, the finished threads, and a reconvergence pc resolved from the first unfinished thread's return pc |
| WarpCore.ResolvedAtFirst | gpgpu-sim-uvm/src/abstract_hardware_model.cc:1320-1327 | the resolved pc is the return pc of the first unfinished thread |
| WarpCore.ResolvedForActive | gpgpu-sim-uvm/src/abstract_hardware_model.cc:1320-1327 | a branch that reconverges at the caller gets the return pc of the active threads if and only if the first unfinished thread of the warp, active or not, returns there |
| SimtFlowExamples.ForeignReturnExample | gpgpu-sim-uvm/src/abstract_hardware_model.cc:1320-1327 | a run in which a waiting thread hands its own return pc to a branch of others, after which a live thread sits under a foreign pc |
| WarpCore.ThreadsStep | gpgpu-sim-uvm/src/abstract_hardware_model.cc:1315-1331 | the update made from the state of the threads is a step to the warp whose pcs and finished threads are those |
| WarpCore.ThreadsAgree | gpgpu-sim-uvm/src/abstract_hardware_model.cc:1315-1331 | if stack and threads agreed and only the top entry's threads moved or finished, every unfinished thread is again at the pc of the topmost entry holding it, if and only if the reconvergence pc is proper |
| WarpCore.ThreadsSplit | gpgpu-sim-uvm/src/abstract_hardware_model.cc:1202-1331 | when some threads of the top entry fell through and the others were taken, neither to a reconvergence pc, the taken side is the new top with exactly its threads, and the other one is right below |
| WarpCore.UpdateFromThreads | gpgpu-sim-uvm/src/abstract_hardware_model.cc:1315-1331 | both of these, stated of the state of the threads before and after; the update is the closed form for what the loop collects |
| SimtShape.GroupsCover | gpgpu-sim-uvm/src/abstract_hardware_model.cc:1173-1200 | groups are nonempty and hold every live thread under its own next pc |
| SimtShape.CallLaminar | gpgpu-sim-uvm/src/abstract_hardware_model.cc:1222-1234 | a pushed CALL entry keeps the stack laminar |
| SimtShape.ReturnLaminar | gpgpu-sim-uvm/src/abstract_hardware_model.cc:1235-1250 | a return keeps the stack laminar, with the caller reconverging or not |
| SimtShape.DivergenceLaminar | gpgpu-sim-uvm/src/abstract_hardware_model.cc:1258-1287 | two paths keep the stack laminar, for any reconvergence pc |
| SimtShape.UpdateLaminar | gpgpu-sim-uvm/src/abstract_hardware_model.cc:1152-1295 | every update keeps the stack laminar: masks nonempty, siblings disjoint under a strictly larger parent waiting at their reconvergence pc, a CALL entry never at the bottom |
| SimtRuns.RunShaped | gpgpu-sim-uvm/src/abstract_hardware_model.cc:1152-1331 | every stack of every run is laminar and holds launched threads only, whatever the reconvergence pcs |
| SimtRuns.StepCorrect | gpgpu-sim-uvm/src/abstract_hardware_model.cc:1152-1331 | from any valid state, every live thread's pc is again that of the topmost entry holding it if and only if the reconvergence pc is proper; then calls stay covered too |
| SimtRuns.RunTracks | gpgpu-sim-uvm/src/abstract_hardware_model.cc:1152-1331 | after proper steps every live thread is at the pc of the topmost entry holding it, and the callee frames hold the live threads of their callers |
| SimtRuns.RunAgrees | gpgpu-sim-uvm/src/abstract_hardware_model.cc:1152-1331 | over a whole run, stack and threads agree at every point if and only if every reconvergence pc was proper |
| SimtExamples.ImproperExample | gpgpu-sim-uvm/src/abstract_hardware_model.cc:1252-1275 | a run from a launch, two branches long, after which a live thread sits under a foreign pc |
| SimtRuns.UpdateNeverFaults | gpgpu-sim-uvm/src/abstract_hardware_model.cc:1155-1165 | in a valid state with a live thread the stack and its top mask are not empty, a CALL entry has a caller, and the top pc is that of its live threads |
| SimtRuns.StepCallsHoldAll | gpgpu-sim-uvm/src/abstract_hardware_model.cc:1222-1287 | from any shaped state, a CALL entry keeps all live threads of its caller unless a branch directly under it diverges with no reconvergence pc, and only then not |
| SimtRuns.RunCallsHoldAll | gpgpu-sim-uvm/src/abstract_hardware_model.cc:1222-1287 | over every run, CALL entries hold all live threads of their callers at every point if and only if no such branch is executed |
| SimtExamples.SplitCallExample | gpgpu-sim-uvm/src/abstract_hardware_model.cc:1258-1287 | a run from a launch after which a CALL entry has lost a live thread of its caller |
| SimtRuns.PopCase | gpgpu-sim-uvm/src/abstract_hardware_model.cc:1252-1257 | dropping a finished or reconverged top keeps agreement and call coverage |
| SimtRuns.ReplaceCase | gpgpu-sim-uvm/src/abstract_hardware_model.cc:1278-1287 | a uniform step keeps agreement and call coverage |
| SimtRuns.CallCase | gpgpu-sim-uvm/src/abstract_hardware_model.cc:1222-1234 | pushing a CALL entry keeps agreement and call coverage |
| SimtRuns.ReturnCase | gpgpu-sim-uvm/src/abstract_hardware_model.cc:1235-1252 | a return, with the caller reconverging or not, keeps agreement and call coverage |
| SimtRuns.DivergenceCase | gpgpu-sim-uvm/src/abstract_hardware_model.cc:1258-1287 | divergence with a proper reconvergence pc keeps agreement and call coverage |
| SimtRuns.DivergenceBreak | gpgpu-sim-uvm/src/abstract_hardware_model.cc:1252-1275 | divergence with a new reconvergence pc, when a path is at the old one, loses a thread's pc |
| SimtInvariant.LaminarReplace | gpgpu-sim-uvm/src/abstract_hardware_model.cc:1260-1287 | entries carved out of the top keep the stack laminar |
| SimtInvariant.ParentHolds | gpgpu-sim-uvm/src/abstract_hardware_model.cc:1252-1257 | the threads of a reconverged entry fall to the parent waiting at that pc |
| SimtInvariant.AgreesReplace | gpgpu-sim-uvm/src/abstract_hardware_model.cc:1152-1295 | replacing the top keeps agreement and call coverage when each of its threads is placed |
| SimtDepth.FamilyBound | gpgpu-sim-uvm/src/abstract_hardware_model.cc:1258-1290 | a laminar family of nonempty masks over n threads has at most 2n - 1 members |
| SimtDepth.FrameDepth | gpgpu-sim-uvm/src/abstract_hardware_model.cc:1258-1290 | any stretch of a laminar stack inside one call frame has at most 2n - 1 entries |
| SimtDepth.RunDepth | gpgpu-sim-uvm/src/abstract_hardware_model.cc:1258-1290 | in every run without calls, proper reconvergence pcs or not, the stack never exceeds 2 * warp size - 1 entries |
| ControlFlow.SuccessorPostdominated | gpgpu-sim-uvm/src/cuda-sim/ptx_ir.cc:710-745 | strict post-dominators of an instruction post-dominate its successors |
| ControlFlow.NearestIsImmediate | gpgpu-sim-uvm/src/cuda-sim/ptx_ir.cc:747-796 | a strict post-dominator that is a direct successor is where the branch reconverges |
| ControlFlow.OneReconvergence | gpgpu-sim-uvm/src/cuda-sim/ptx_ir.cc:747-796 | a branch has one reconvergence pc |
| SimtFlow.FollowingIsProper | gpgpu-sim-uvm/src/cuda-sim/cuda-sim.cc:3050-3072 | where branches reconverge at their immediate post-dominators, or at the return pc if no instruction post-dominates them, every reconvergence pc is proper |
| SimtFlow.StepOnCourse | gpgpu-sim-uvm/src/abstract_hardware_model.cc:1152-1295 | a step along the graph keeps every diverged entry at a pc that its reconvergence pc strictly post-dominates, unless that is the exit |
| SimtFlow.FlowAgrees | gpgpu-sim-uvm/src/abstract_hardware_model.cc:1152-1331 | over every run along a graph with these reconvergence pcs, calls included, all of them are proper, so stack and threads agree throughout |
| SimtFlowExamples.BranchToExitExample | gpgpu-sim-uvm/src/abstract_hardware_model.cc:1252-1275 | a run along a graph with these reconvergence pcs in which a branch to pc 0, reconverging elsewhere, leaves a live thread under a foreign pc |
| SimtExit.StepMasksLive | gpgpu-sim-uvm/src/abstract_hardware_model.cc:1176-1181 | masks keep holding unfinished threads only if and only if no thread finishes while an entry that the update leaves alone holds it |
| SimtExit.RunMasksLive | gpgpu-sim-uvm/src/abstract_hardware_model.cc:1176-1181 | the same over every run, at every point |
| SimtExit.UncoversExactly | gpgpu-sim-uvm/src/abstract_hardware_model.cc:1252-1290 | an update puts no new entry on top if and only if there is no live path, a return, one path that reconverges, or two paths at the two reconvergence pcs |
| SimtExit.UncoveredTop | gpgpu-sim-uvm/src/abstract_hardware_model.cc:1252-1295 | the entry issued after an update holds a finished thread if and only if, by these guards, the update uncovers an entry holding one |
| SimtExit.RunTopLive | gpgpu-sim-uvm/src/abstract_hardware_model.cc:1252-1295 | over every run, the top entry never holds a finished thread if and only if no update uncovers such an entry |
| SimtExit.FinishingHeld | gpgpu-sim-uvm/src/abstract_hardware_model.cc:1252-1287 | finishing threads are in no entry but the top one and the launch entry |
| SimtExit.KernelRun | gpgpu-sim-uvm/src/abstract_hardware_model.cc:1152-1331 | in every kernel run only the launch entry ever holds finished threads, and every other entry without an instruction to reconverge at shares its threads with that one only |
| SimtExit.TopHasLive | gpgpu-sim-uvm/src/cuda-sim/cuda-sim.cc:1921-1925 | while a thread of a kernel lives, the top entry holds a live one, at its own pc |
| SimtExit.IssuedThreadsLive | gpgpu-sim-uvm/src/cuda-sim/cuda-sim.cc:1921-1949 | in a kernel without calls that does not jump to the exit's pc, while a thread lives, every thread of the top entry is unfinished and at its pc: both asserts on an executed instruction hold |
| SimtFlowExamples.JumpToExitExample | gpgpu-sim-uvm/src/cuda-sim/cuda-sim.cc:1944-1949 | a kernel run that jumps back to pc 0 and ends with a live and a finished thread in the top entry, on which the source aborts |
| SimtExamples.FinishedIssuedExample | gpgpu-sim-uvm/src/cuda-sim/cuda-sim.cc:1944-1949 | a run from a launch whose top entry holds a live and a finished thread, which the source aborts on |
| SimtExamples.KernelExample | gpgpu-sim-uvm/src/cuda-sim/cuda-sim.cc:3050-3072 | a branch with its join as reconvergence pc meets every condition of a kernel run |
| SimtExamples.OpenExample | gpgpu-sim-uvm/src/cuda-sim/cuda-sim.cc:3050-3072 | a kernel starting at pc 0 whose branch has no post-dominator inside: it reconverges at the exit, whose pc is 0 |
| SimtRefinement.ActiveStepIsSolo | gpgpu-sim-uvm/src/cuda-sim/cuda-sim.cc:1921-1925 | an unfinished thread of the top entry is run at its own pc, so the lockstep step is its solo step |
| SimtRefinement.StepRefines | gpgpu-sim-uvm/src/abstract_hardware_model.cc:1297-1331 | one instruction, run for the unfinished threads of the top entry, keeps the refinement |
| SimtRefinement.LockstepRefinesSolo | gpgpu-sim-uvm/src/abstract_hardware_model.cc:1297-1340 | at every point of a lockstep run with proper reconvergence pcs each launched thread has the state, exit flag and pc of its solo run after the instructions it was active in, and no live thread is lost |
| SimtRefinement.FlowRefinesSolo | gpgpu-sim-uvm/src/abstract_hardware_model.cc:1297-1340 | the same for every lockstep run along a graph whose branches reconverge at their immediate post-dominators, calls included |
| SimtRefinement.KernelRunsWholeMask | gpgpu-sim-uvm/src/abstract_hardware_model.cc:1297-1308 | without calls and without a jump to the exit's pc, the unfinished threads of the top entry are all of its threads while a thread lives, so no step skips a finished one |
| SimtRefinement.ProgramRefinesSolo | gpgpu-sim-uvm/src/abstract_hardware_model.cc:1297-1340 | for a program without calls, given by its graph, the effect of its instructions and the reconvergence pcs of its branches: every lockstep run is what the threads do alone; without a jump to the exit's pc only unfinished threads are ever run |
| Checkpoint.PrintEntry | gpgpu-sim-uvm/src/abstract_hardware_model.cc:1140-1149 | one line: mask bits, six numbers and the warp size, blank-separated |
| Checkpoint.PrintStack | gpgpu-sim-uvm/src/abstract_hardware_model.cc:1139-1150 | the loop over the entries |
| Checkpoint.PrintCheckpoint | gpgpu-sim-uvm/src/abstract_hardware_model.cc:1139-1150 | one line for every entry, bottom first |
| Checkpoint.ReadEntry | gpgpu-sim-uvm/src/abstract_hardware_model.cc:1065-1088 | the entry read off the tokens of a line; none where a token is missing |
| Checkpoint.Resume | gpgpu-sim-uvm/src/abstract_hardware_model.cc:1055-1091 | the stack read from a text, line by line through the 200-byte buffer |
| Checkpoint.PrintThenResume | gpgpu-sim-uvm/src/abstract_hardware_model.cc:1055-1150 | printing and resuming never faults and gives the stack back if and only if all its numbers fit |
| Checkpoint.CheckpointRoundTrip | gpgpu-sim-uvm/src/abstract_hardware_model.cc:1055-1091 | parsing the printed text gives the same entries in order if and only if every pc, reconvergence pc and cycle survives 32 bits |
| Checkpoint.LargePcExample | gpgpu-sim-uvm/src/abstract_hardware_model.cc:1076-1083 | a pc of 2^31 does not come back |
| Checkpoint.ParsedPrinted | gpgpu-sim-uvm/src/abstract_hardware_model.cc:1055-1091 | what comes back for any stack, fitting or not |
| Checkpoint.LineFits | gpgpu-sim-uvm/src/abstract_hardware_model.cc:1061-1063 | for warps up to 32 threads every line fits the buffer |
| Checkpoint.LineNumbers | gpgpu-sim-uvm/src/abstract_hardware_model.cc:1139-1149 | the tokens of a printed line and their order: mask bits, then the low 32 bits of pc, call depth and reconvergence pc, the low 64 of the cycle, the type, the warp, the warp size |
| Checkpoint.ParsedNumbers | gpgpu-sim-uvm/src/abstract_hardware_model.cc:1065-1088 | which numbers of a line make up the entry, each modulo 2^32, and that exactly five beyond the mask are needed |
| Checkpoint.LineLengthExact | gpgpu-sim-uvm/src/abstract_hardware_model.cc:1061-1063 | the buffer takes a line with its newline, 199 characters, or all there is |
| Checkpoint.DecimalReadBack | gpgpu-sim-uvm/src/abstract_hardware_model.cc:1076-1083 | a printed number reads back as itself |
| Checkpoint.SpacedTokens | gpgpu-sim-uvm/src/abstract_hardware_model.cc:1067-1083 | blank-separated tokens are the ones the tokenizer returns |
| Coalescer.SegmentSize | gpgpu-sim-uvm/src/abstract_hardware_model.cc:586-598 | the segment size is one of 32, 64 and 128 and no smaller than the data size; which one is stated of what is queued, by `WarpMemory.WarpInst.Coalesce` |
| Coalescer.MarkAllExact | gpgpu-sim-uvm/src/abstract_hardware_model.cc:602-663 | for accesses inside one chunk, the transactions are one per segment touched with exactly the chunks, bytes and threads used there |
| Coalescer.LoneAccessExact | gpgpu-sim-uvm/src/abstract_hardware_model.cc:628-661 | a lone access is recorded exactly if and only if it stays inside one 32-byte chunk |
| Coalescer.AlignedInOneChunk | gpgpu-sim-uvm/src/abstract_hardware_model.cc:628-634 | a naturally aligned access stays inside one chunk |
| Coalescer.CrossingIsInexact | gpgpu-sim-uvm/src/abstract_hardware_model.cc:650-661 | an access leaving its chunk is never recorded exactly |
| Straddling.LoneThreadsExact | gpgpu-sim-uvm/src/abstract_hardware_model.cc:632-661 | the segments touched and the thread bits of a lone access are always right |
| Straddling.LoneBytesExact | gpgpu-sim-uvm/src/abstract_hardware_model.cc:644-660 | its byte masks are right if and only if it stays inside its segment |
| Straddling.LoneChunksExact | gpgpu-sim-uvm/src/abstract_hardware_model.cc:632-657 | its chunk sets are right if and only if it stays inside its chunk or leaves its segment |
| Straddling.ChunkCrossingExample | gpgpu-sim-uvm/src/abstract_hardware_model.cc:632-647 | eight bytes at 28 in 128-byte segments: right bytes, wrong chunks |
| Straddling.SegmentCrossingExample | gpgpu-sim-uvm/src/abstract_hardware_model.cc:650-661 | eight bytes at 124: right chunks, wrong bytes |
| CoalescingUnit.TouchTransaction | gpgpu-sim-uvm/src/abstract_hardware_model.cc:632-647 | chunk, thread and byte bits of one access added to one segment's transaction |
| CoalescingUnit.MarkOne | gpgpu-sim-uvm/src/abstract_hardware_model.cc:628-661 | one access, with the second segment of a straddling one |
| CoalescingUnit.MarkThread | gpgpu-sim-uvm/src/abstract_hardware_model.cc:623-662 | the address slots of a thread up to the first zero one |
| CoalescingUnit.MarkSubwarp | gpgpu-sim-uvm/src/abstract_hardware_model.cc:602-663 | step 1 for the active threads of a part, in order |
| CoalescingUnit.MarkAllChunksOk | gpgpu-sim-uvm/src/abstract_hardware_model.cc:634-661 | every transaction, straddling or not, has a nonempty chunk set inside its aligned segment |
| CoalescingUnit.ReduceWindow | gpgpu-sim-uvm/src/abstract_hardware_model.cc:784-833 | the half-by-half reduction gives the window, and its asserts hold |
| CoalescingUnit.WindowIsBest | gpgpu-sim-uvm/src/abstract_hardware_model.cc:784-833 | the window is aligned to its size, inside the segment, covers all used chunks, and no smaller aligned 32-, 64- or 128-byte window does |
| CoalescingUnit.SentFrom | gpgpu-sim-uvm/src/abstract_hardware_model.cc:665-675 | the i-th queued access is that of the i-th segment |
| CoalescingUnit.QueuedUses | gpgpu-sim-uvm/src/abstract_hardware_model.cc:784-837 | its window lies in the segment and holds exactly the uses of the segment |
| CoalescingUnit.CoalescingExact | gpgpu-sim-uvm/src/abstract_hardware_model.cc:602-676 | one access per distinct segment, windows disjoint and ascending, every used byte in one of them, each access carrying exactly the uses inside its own window |
| AtomicCoalescer.FirstFitIsHits | gpgpu-sim-uvm/src/abstract_hardware_model.cc:736-755 | first fit sends the k-th access to an address to transaction k |
| AtomicCoalescer.AtomicLayered | gpgpu-sim-uvm/src/abstract_hardware_model.cc:721-765 | the transactions of a segment are its layers of k-th hits, as many as its most-hit address has accesses |
| AtomicCoalescer.EachThreadOnce | gpgpu-sim-uvm/src/abstract_hardware_model.cc:721-765 | each thread is in exactly one transaction |
| AtomicCoalescer.ConflictFree | gpgpu-sim-uvm/src/abstract_hardware_model.cc:737-764 | no two threads of a transaction share a byte |
| AtomicCoalescer.FirstFitOptimal | gpgpu-sim-uvm/src/abstract_hardware_model.cc:717-781 | no conflict-free split of a segment's accesses has fewer groups |
| AtomicCoalescer.RanksAreASplit | gpgpu-sim-uvm/src/abstract_hardware_model.cc:717-781 | the hardware's own split is conflict-free, so the bound is reached |
| AtomicQueue.OnePerThread | gpgpu-sim-uvm/src/abstract_hardware_model.cc:722-727 | the accesses of a part are one for each active thread, no thread twice |
| AtomicQueue.QueuedAtOffset | gpgpu-sim-uvm/src/abstract_hardware_model.cc:767-780 | where in the queue each transaction of each segment goes |
| AtomicQueue.EveryThreadOnce | gpgpu-sim-uvm/src/abstract_hardware_model.cc:717-781 | each active thread of a part is in exactly one queued access |
| AtomicQueue.AtomicConflictFree | gpgpu-sim-uvm/src/abstract_hardware_model.cc:717-781 | a queued access holds active threads of the part only, and no two of them share a byte |
| AtomicQueue.AtomicRecord | gpgpu-sim-uvm/src/abstract_hardware_model.cc:757-781 | a queued access records exactly the chunks, bytes and threads of its threads' accesses, in the smallest covering window |
| AtomicQueue.EverySegmentConsecutive | gpgpu-sim-uvm/src/abstract_hardware_model.cc:717-781 | every segment has as many queued accesses as its most-hit address has threads, consecutive; by `AtomicCoalescer.FirstFitOptimal` no conflict-free split has fewer groups |
| AtomicQueue.AtomicQueueExact | gpgpu-sim-uvm/src/abstract_hardware_model.cc:717-781 | all of this about what is queued for one part of aligned atomics |
| WarpMemory.TestBytes | gpgpu-sim-uvm/src/abstract_hardware_model.h:1306-1316 | true exactly when some byte of the access is used already |
| WarpMemory.FindFree | gpgpu-sim-uvm/src/abstract_hardware_model.cc:737-747 | the search loop: the first transaction that uses none of the bytes |
| WarpMemory.SetBytes | gpgpu-sim-uvm/src/abstract_hardware_model.cc:757-763 | the byte loop sets exactly the bytes of the access; its assert holds |
| WarpMemory.MarkAtomic | gpgpu-sim-uvm/src/abstract_hardware_model.cc:725-764 | one atomic placed by first fit; the byte asserts hold |
| WarpMemory.MarkAtomicSubwarp | gpgpu-sim-uvm/src/abstract_hardware_model.cc:718-765 | step 1 for the active threads of a part |
| WarpMemory.AtomicAllOk | gpgpu-sim-uvm/src/abstract_hardware_model.cc:757-781 | every transaction of every list can be reduced |
| WarpMemory.WarpInst.ReduceAndSend | gpgpu-sim-uvm/src/abstract_hardware_model.cc:784-837 | one access with the reduced window is appended to the queue |
| WarpMemory.WarpInst.SendAll | gpgpu-sim-uvm/src/abstract_hardware_model.cc:665-675 | one access per transaction, in ascending segment order |
| WarpMemory.WarpInst.SendLists | gpgpu-sim-uvm/src/abstract_hardware_model.cc:767-780 | one access per transaction of every list, in order |
| SegmentRules.TransactionSegments | gpgpu-sim-uvm/src/abstract_hardware_model.cc:628-661 | the transactions are those of the segments touched, for aligned accesses or not |
| SegmentRules.OnePerBlock | gpgpu-sim-uvm/src/abstract_hardware_model.cc:602-675 | as many queued accesses as blocks touched |
| SegmentRules.PartUses | gpgpu-sim-uvm/src/abstract_hardware_model.cc:602-626 | the bytes recorded for a part are those of its active threads' slots up to the first zero one |
| SegmentRules.PartServesBlocks | gpgpu-sim-uvm/src/abstract_hardware_model.cc:602-675 | the queued accesses stay inside blocks of the segment size, one for each block the part uses, in ascending order |
| SegmentRules.SectorsOnly | gpgpu-sim-uvm/src/abstract_hardware_model.cc:578-598 | with 32-byte segments every queued access is an aligned 32-byte one |
| TransactionRecords.RecordOfSegment | gpgpu-sim-uvm/src/abstract_hardware_model.cc:784-837 | the window is the smallest around the bytes used: above 32 bytes it has uses in both halves |
| TransactionRecords.PartRecords | gpgpu-sim-uvm/src/abstract_hardware_model.cc:602-675 | each queued access records exactly the threads, bytes and chunks its part uses in its block, if no access leaves its chunk |
| WarpMemory.WarpInst.PartFollowsRules | gpgpu-sim-uvm/src/abstract_hardware_model.cc:565-675 | by architecture and L1 bypass: 32-byte accesses only where caches have sectors; else one access for each block of 128, 64 or 32 bytes that is used, for 4 and more, 2 and 1 bytes of data |
| WarpMemory.WarpInst.Coalesce | gpgpu-sim-uvm/src/abstract_hardware_model.cc:565-675 | one part of the warp, both steps; what is queued follows the rules above, stated of architecture, data size and addresses |
| WarpMemory.WarpInst.CoalesceWarp | gpgpu-sim-uvm/src/abstract_hardware_model.cc:565-677 | the parts of the warp one after the other, nothing else in the queue changed; part p is threads p * size to p * size + size - 1 and follows the rules |
| WarpMemory.WarpInst.CoalesceAtomic | gpgpu-sim-uvm/src/abstract_hardware_model.cc:717-780 | one part of the warp, both steps, for atomics; 32-byte accesses only where caches have sectors |
| WarpMemory.WarpInst.PartAtomicSectors | gpgpu-sim-uvm/src/abstract_hardware_model.cc:700-712 | where caches have sectors, or for single bytes, every access queued for atomics has 32 bytes |
| AtomicRules.HitsAreThreads | gpgpu-sim-uvm/src/abstract_hardware_model.cc:718-727 | the accesses to an address are the active threads at it |
| AtomicRules.PartServesHits | gpgpu-sim-uvm/src/abstract_hardware_model.cc:717-781 | each block of the segment size has one run of queued accesses, as many as threads share its most-hit address |
| AtomicRules.PartRecordsThreads | gpgpu-sim-uvm/src/abstract_hardware_model.cc:757-781 | each queued access records exactly the bytes of its threads' atomics, in the smallest window |
| AtomicRules.PartFollowsAtomicRules | gpgpu-sim-uvm/src/abstract_hardware_model.cc:679-781 | all of this by architecture, L1 bypass and data size, with every active thread in exactly one access |
| WarpMemory.WarpInst.CoalesceAtomicWarp | gpgpu-sim-uvm/src/abstract_hardware_model.cc:679-782 | the parts of the warp one after the other, for atomics |
| SharedMemory.CountAccesses | gpgpu-sim-uvm/src/abstract_hardware_model.cc:427-443 | for every bank, each word with its number of accesses by active threads; `SharedMemory.CyclesByAddresses` says what bank and word are |
| SharedMemory.FullBroadcastCycles | gpgpu-sim-uvm/src/abstract_hardware_model.cc:492-505 | the largest number of different words in one bank |
| SharedMemory.MaxLoadIsOptimal | gpgpu-sim-uvm/src/abstract_hardware_model.cc:492-505 | a schedule with one word per bank and cycle exists in that many cycles, and none is shorter |
| SharedMemory.FindBroadcast | gpgpu-sim-uvm/src/abstract_hardware_model.cc:445-465 | the first word hit twice, in bank then address order, if any |
| SharedMemory.BankCycles | gpgpu-sim-uvm/src/abstract_hardware_model.cc:470-486 | all accesses of the bank with the broadcast word counted once; the asserts hold |
| SharedMemory.LimitedBroadcastCycles | gpgpu-sim-uvm/src/abstract_hardware_model.cc:445-492 | the largest such count over all banks |
| SharedMemory.LimitedAtLeastFull | gpgpu-sim-uvm/src/abstract_hardware_model.cc:445-505 | for one part, limited broadcast never takes fewer cycles than full broadcast, nor more than there are accesses |
| SharedMemory.LimitedTotalAtLeastFull | gpgpu-sim-uvm/src/abstract_hardware_model.cc:422-508 | over the whole instruction limited broadcast never takes fewer cycles than full broadcast |
| SharedMemory.CycleCountBounds | gpgpu-sim-uvm/src/abstract_hardware_model.cc:445-505 | a part takes a positive number of cycles exactly when it has accesses, and at most one each |
| SharedMemory.CyclesByAddresses | gpgpu-sim-uvm/src/abstract_hardware_model.cc:427-505 | the cycles of a part by addresses and the number of banks: the most different words addr / 4 with one remainder by the banks; or the most threads in one bank, the threads on the first shared word counted once |
| SharedMemory.ConsecutiveTakeOne | gpgpu-sim-uvm/src/abstract_hardware_model.h:412-416 | words within a stretch of as many as there are banks take exactly one cycle |
| SharedMemory.StrideTakesEach | gpgpu-sim-uvm/src/abstract_hardware_model.h:412-416 | addresses 4 * banks apart take exactly one cycle each |
| SharedMemory.SumAdds | gpgpu-sim-uvm/src/abstract_hardware_model.cc:422-508 | the total of consecutive parts is the sum of their totals |
| SharedMemory.PartCycles | gpgpu-sim-uvm/src/abstract_hardware_model.cc:427-505 | the cycle count of one part, by either rule, in terms of addresses and banks |
| SharedMemory.BankConflictCycles | gpgpu-sim-uvm/src/abstract_hardware_model.cc:422-508 | the sum over the parts, each counted by addresses and banks; for one part with full broadcast, 1 for words within a stretch of the number of banks and k for k addresses 4 * banks apart; at most the warp size, and positive exactly when a thread of some part is active, so the final assert holds when the parts fill the warp |
| UnifiedMemory.AllocateRefines | gpgpu-sim-uvm/libcuda/cuda_runtime_api.cc:2486-2510 | allocating changes no current byte |
| UnifiedMemory.HostWriteRefines | gpgpu-sim-uvm/libcuda/cuda_runtime_api.cc:933-954 | a host write acts on the flat memory if and only if no copied-in allocation holds the address or the byte is unchanged |
| UnifiedMemory.LostWriteExample | gpgpu-sim-uvm/libcuda/cuda_runtime_api.cc:943-948 | allocate, set up an argument, write: the run after which the value written is not the current one |
| UnifiedMemory.SetupArgumentRefines | gpgpu-sim-uvm/libcuda/cuda_runtime_api.cc:933-954 | copying in changes no current byte, and a second setup before a sync leaves the device bytes alone |
| UnifiedMemory.KernelWriteRefines | gpgpu-sim-uvm/src/gpgpu-sim/shader.cc:2532-2535 | a kernel store acts on the flat memory |
| UnifiedMemory.SynchronizeRefines | gpgpu-sim-uvm/libcuda/cuda_runtime_api.cc:2350-2414 | after a sync the host memory is the flat memory and no allocation is copied in |
| UnifiedMemory.EvictStartRefines | gpgpu-sim-uvm/src/gpgpu-sim/gmmu.cc:1707-1731 | clearing a dirty page while its write-back is under way loses nothing |
| UnifiedMemory.EvictFinishRefines | gpgpu-sim-uvm/src/gpgpu-sim/gmmu.cc:1651-1660 | the write-back of an evicted page changes no current byte |
| UnifiedMemory.NextRefines | gpgpu-sim-uvm/libcuda/cuda_runtime_api.cc:933-954 | any operation acts on the flat memory if and only if it is no host write to a copied-in byte that changes it |
| UnifiedMemory.RunRefinesFlat | gpgpu-sim-uvm/libcuda/cuda_runtime_api.cc:933-954 | over every run of allocations, host writes, argument setups, kernel stores, evictions and syncs, the two copies are at every point one flat memory changed by the program's stores only, if and only if every host write is to an address the host owns or writes the current byte |
| MemoryHistory.CopiedExactly | gpgpu-sim-uvm/libcuda/cuda_runtime_api.cc:933-954 | at every point of a run an allocation is copied in exactly when it was an argument since the last sync |
| MemoryHistory.DirtyExactly | gpgpu-sim-uvm/libcuda/cuda_runtime_api.cc:2350-2414 | a page is dirty exactly when a kernel stored to it after its last scheduled eviction and the last sync |
| MemoryHistory.PendingExactly | gpgpu-sim-uvm/src/gpgpu-sim/gmmu.cc:1651-1731 | a write-back is pending exactly from its scheduling to its end |
| MemoryHistory.HostByteChanges | gpgpu-sim-uvm/libcuda/cuda_runtime_api.cc:2350-2414 | a host byte changes only by a host write, the write-back of its page, or a sync while its page is dirty |
| MemoryHistory.DeviceByteChanges | gpgpu-sim-uvm/libcuda/cuda_runtime_api.cc:933-954 | a device byte changes only by a kernel store, or when its allocation is made or copied in |
| MemoryHistory.SynchronizedClean | gpgpu-sim-uvm/libcuda/cuda_runtime_api.cc:2404-2414 | after a sync no page is dirty, nothing is pending and nothing is copied in |
| MemoryHistory.SynchronizedHost | gpgpu-sim-uvm/libcuda/cuda_runtime_api.cc:2350-2414 | after a sync the host holds what all stores so far, of program and kernels, made of its memory, if every host write was harmless |
| ManagedMemory.Gpgpu.SetupArg | gpgpu-sim-uvm/libcuda/cuda_runtime_api.cc:933-954 | a pointer to an allocation is replaced by the device pointer after one copy-in; any other argument is left alone |
| ManagedMemory.Gpgpu.MemcpyToGpu | gpgpu-sim-uvm/src/cuda-sim/cuda-sim.cc:615-638 | exactly the addressed device bytes become the host's |
| ManagedMemory.Gpgpu.MemcpyFromGpu | gpgpu-sim-uvm/src/cuda-sim/cuda-sim.cc:645-662 | exactly the addressed host bytes become the device's |
| ManagedMemory.SamePage | gpgpu-sim-uvm/src/cuda-sim/memory.cc:376-384 | the bytes that `get_data_size` leaves lie on the page of the address |
| ManagedMemory.Gpgpu.WriteBackChunk | gpgpu-sim-uvm/libcuda/cuda_runtime_api.cc:2368-2390 | the bytes of one page go back if the page is dirty, which is then noted |
| ManagedMemory.Gpgpu.WriteBackRange | gpgpu-sim-uvm/libcuda/cuda_runtime_api.cc:2362-2401 | page by page over any offset and size: bytes on dirty pages equal the device's, all others are as before, and exactly the dirty pages met are noted |
| ManagedMemory.Gpgpu.SyncAlloc | gpgpu-sim-uvm/libcuda/cuda_runtime_api.cc:2358-2402 | one allocation: written back and marked not copied |
| ManagedMemory.Gpgpu.SyncAll | gpgpu-sim-uvm/libcuda/cuda_runtime_api.cc:2350-2402 | the loop over all allocations |
| ManagedMemory.Gpgpu.DeviceSynchronize | gpgpu-sim-uvm/libcuda/cuda_runtime_api.cc:2350-2414 | byte-exact write-back over all allocations, every `copied` flag false, evicted pages exactly the dirty ones met and clean afterwards |
| ManagedMemory.Gpgpu.MallocManaged | gpgpu-sim-uvm/libcuda/cuda_runtime_api.cc:2467-2510 | size 0 is refused; otherwise a device range of the rounded size disjoint from all others, starting as a copy of the host range, not copied in |
| ManagedMemory.Gpgpu.KernelStore | gpgpu-sim-uvm/src/gpgpu-sim/shader.cc:2532-2535 | the device byte changes and its page becomes dirty |
| ManagedMemory.Gpgpu.ScheduleEviction | gpgpu-sim-uvm/src/gpgpu-sim/gmmu.cc:1707-1731 | the page is no longer dirty and waits for its write-back |
| ManagedMemory.Gpgpu.WriteBackOnPage | gpgpu-sim-uvm/src/cuda-sim/cuda-sim.cc:512-545 | of one allocation exactly the bytes on the page go back, for a leading, middle, trailing or foreign page |
| ManagedMemory.Gpgpu.WriteBackAll | gpgpu-sim-uvm/src/cuda-sim/cuda-sim.cc:505-547 | the loop over all allocations |
| ManagedMemory.Gpgpu.GpuWriteback | gpgpu-sim-uvm/src/cuda-sim/cuda-sim.cc:496-548 | the bytes of all copied-in allocations on the page go back, no others |
| ManagedSizing.RoundSize | gpgpu-sim-uvm/libcuda/cuda_runtime_api.cc:2470-2484 | the doubling loop computes the rounded size |
| ManagedSizing.RoundedIsLeast | gpgpu-sim-uvm/libcuda/cuda_runtime_api.cc:2470-2484 | the rounded size is the smallest tileable size holding the request, wastes less than the larger of 64 KiB and the remainder, and rounding again changes nothing |
| ManagedSizing.RoundedIsTiled | gpgpu-sim-uvm/libcuda/cuda_runtime_api.cc:2470-2484 | tiles are 64 KiB times a power of two up to 2 MiB; a rounded size is a number of 2 MiB pages and at most one smaller tile |
| ManagedSizing.TileFor | gpgpu-sim-uvm/libcuda/cuda_runtime_api.cc:2476-2482 | the smallest tile holding the remainder |
| ManagedSizing.InitializeLargePages | gpgpu-sim-uvm/libcuda/cuda_runtime_api.cc:2516-2529 | adjacent tiles covering exactly the allocation, all but the last of the maximum size |
| ManagedSizing.PageRange | gpgpu-sim-uvm/libcuda/cuda_runtime_api.cc:2855-2868 | the smallest page-aligned range covering the bytes; it is empty exactly for an empty request at a page boundary |
| ManagedSizing.FindAllocation | gpgpu-sim-uvm/libcuda/cuda_runtime_api.cc:2840-2850 | the first allocation containing the range, if any |
| ManagedSizing.OnlyAlloc | gpgpu-sim-uvm/libcuda/cuda_runtime_api.cc:2840-2850 | with disjoint allocations a nonempty range is inside at most one |
| ManagedSizing.PrefetchTarget | gpgpu-sim-uvm/libcuda/cuda_runtime_api.cc:2837-2874 | succeeds exactly when the asserts hold; the range is then the smallest page-aligned one covering the translated bytes, inside the allocation when that is page-aligned |
| Sections.FindBest | gpgpu-sim-uvm/libcuda/cuda_runtime_api.cc:3706-3726 | the map the first loop builds |
| Sections.BestIsBest | gpgpu-sim-uvm/libcuda/cuda_runtime_api.cc:3706-3726 | the map has exactly the identifiers with a PTX section within the limit, with the highest such capability |
| Sections.SectionTable.PruneSectionList | gpgpu-sim-uvm/libcuda/cuda_runtime_api.cc:3686-3751 | the surviving sections in order: of PTX exactly those within both bounds (19 with PTXPlus, the forced maximum if positive) with none higher of their identifier within both, of ELF exactly those of that capability or 0; an abort exactly when there are none |
| Sections.PrunedKeepsBest | gpgpu-sim-uvm/libcuda/cuda_runtime_api.cc:3693-3739 | which sections survive, by capabilities, the forced maximum and PTXPlus alone |
| Sections.MergedKeepsOneBest | gpgpu-sim-uvm/libcuda/cuda_runtime_api.cc:3686-3825 | after merging: one PTX section for each identifier with one within both bounds, the highest, and the same ELF sections |
| Sections.PtxSurvives | gpgpu-sim-uvm/libcuda/cuda_runtime_api.cc:3728-3739 | a PTX section survives if and only if it is within the limit and of the highest such capability of its identifier |
| Sections.ElfSurvives | gpgpu-sim-uvm/libcuda/cuda_runtime_api.cc:3728-3739 | an ELF section survives if and only if its capability is that of its identifier's surviving PTX sections, or 0 when there are none |
| Sections.PruneAborts | gpgpu-sim-uvm/libcuda/cuda_runtime_api.cc:3740-3750 | pruning aborts if and only if no PTX section is within the limit and no ELF section has capability 0 |
| Sections.HiddenAbortExample | gpgpu-sim-uvm/libcuda/cuda_runtime_api.cc:3728-3750 | one ELF section of capability 0 and no PTX: no abort |
| Sections.SectionTable.MergeMatchingSections | gpgpu-sim-uvm/libcuda/cuda_runtime_api.cc:3754-3796 | all sections but the matching ones, then the last matching one; each matching file extended by its predecessor's text past the header |
| Sections.SectionTable.MergeMatches | gpgpu-sim-uvm/libcuda/cuda_runtime_api.cc:3763-3791 | the loop: the sections that do not match, the last one that does, and the extended files |
| Sections.SectionTable.AppendLast | gpgpu-sim-uvm/libcuda/cuda_runtime_api.cc:3767-3784 | the previous matching file's body is appended to this one's, unless it is shorter than a header |
| Sections.AppendedText | gpgpu-sim-uvm/libcuda/cuda_runtime_api.cc:3764-3784 | what the last matching file holds at the end, in terms of the original texts |
| Sections.MergedIsIntended | gpgpu-sim-uvm/libcuda/cuda_runtime_api.cc:3774-3782 | it is the last text followed by every earlier body, last first, if and only if no header is cut short; otherwise it is strictly shorter |
| Sections.MergedStep | gpgpu-sim-uvm/libcuda/cuda_runtime_api.cc:3767-3782 | each text is followed by what was merged before it, less 50 characters |
| Sections.CutHeaderExample | gpgpu-sim-uvm/libcuda/cuda_runtime_api.cc:3774-3782 | a short text between one of 51 to 98 characters and the last: the first one's body is lost |
| Sections.IdentifiersExact | gpgpu-sim-uvm/libcuda/cuda_runtime_api.cc:3803-3816 | the identifiers are those of the PTX sections, without repetition |
| Sections.FirstSeenFirst | gpgpu-sim-uvm/libcuda/cuda_runtime_api.cc:3803-3816 | identifiers come in the order of their first PTX sections |
| Sections.SectionTable.MergeIdentifier | gpgpu-sim-uvm/libcuda/cuda_runtime_api.cc:3818-3822 | one round of the loop over the identifiers |
| Sections.SectionTable.CollectIdentifiers | gpgpu-sim-uvm/libcuda/cuda_runtime_api.cc:3803-3816 | identifiers in first-seen order |
| Sections.SectionTable.MergeSections | gpgpu-sim-uvm/libcuda/cuda_runtime_api.cc:3799-3825 | non-PTX sections in order, then one PTX section per identifier in first-seen order; each kept file holds its merged text and files of no PTX section are untouched |
| Sections.MergedLayout | gpgpu-sim-uvm/libcuda/cuda_runtime_api.cc:3818-3824 | the same layout in closed form |
| Sections.PruneThenMerge | gpgpu-sim-uvm/libcuda/cuda_runtime_api.cc:3686-3825 | one PTX section remains for exactly the identifiers with one within the limit, and it is of the highest such capability |
| Sections.PrunedAndMerged | gpgpu-sim-uvm/libcuda/cuda_runtime_api.cc:3686-3825 | the same of the list the two passes leave |
| Sections.SectionTable.PruneAndMerge | gpgpu-sim-uvm/libcuda/cuda_runtime_api.cc:3898-3899 | both passes one after the other: one PTX section remains for exactly the identifiers with one within the limit, of the highest such capability, after the surviving non-PTX sections, with its merged text; stated by capabilities, and false exactly when nothing survives |
| OpenCL.Kernel.SetKernelArg | gpgpu-sim-uvm/libopencl/opencl_runtime_api.cc:254-263 | the argument at that index is set, no other |
| OpenCL.Kernel.BindArgs | gpgpu-sim-uvm/libopencl/opencl_runtime_api.cc:265-291 | succeeds exactly when the set indices are 0..n-1; the list is in reverse order; an argument of spec -1 starts at a multiple of its size, any other one at a multiple of its spec, the first one past its predecessor |
| OpenCL.LayoutIsPacked | gpgpu-sim-uvm/libopencl/opencl_runtime_api.cc:279-287 | the offsets by sizes and specs alone |
| OpenCL.LayoutOrdered | gpgpu-sim-uvm/libopencl/opencl_runtime_api.cc:279-287 | arguments never overlap and offsets never decrease |
| OpenCL.LayoutLeast | gpgpu-sim-uvm/libopencl/opencl_runtime_api.cc:279-287 | no aligned in-order placement puts any argument lower |
| OpenCL.NextAligned | gpgpu-sim-uvm/libopencl/opencl_runtime_api.cc:280-282 | the padding leads to the first aligned offset |
| OpenCL.SearchLocalSize | gpgpu-sim-uvm/libopencl/opencl_runtime_api.cc:918-924 | the decrement loop: the largest multiple of 64 within the core that divides the range, or 0 |
| OpenCL.SelectLocalSize | gpgpu-sim-uvm/libopencl/opencl_runtime_api.cc:909-927 | the whole range if it fits a core, else the largest multiple of 64 within the core that divides it, else 1; for other core sizes the core size |
| OpenCL.NeverRejected | gpgpu-sim-uvm/libopencl/opencl_runtime_api.cc:935-939 | when the selected size divides the range |
| OpenCL.RejectedExample | gpgpu-sim-uvm/libopencl/opencl_runtime_api.cc:910-939 | a range of 100 on a core of 48 threads is rejected |
| OpenCL.GridTimesBlock | gpgpu-sim-uvm/libopencl/opencl_runtime_api.cc:948-956 | grid times block is the range if and only if both fit 32 bits or the range is empty |
| OpenCL.CheckDivides | gpgpu-sim-uvm/libopencl/opencl_runtime_api.cc:935-939 | accepts exactly the ranges that every size divides |
| OpenCL.CheckOffset | gpgpu-sim-uvm/libopencl/opencl_runtime_api.cc:940-947 | accepts exactly a missing or zero offset |
| OpenCL.Cut | gpgpu-sim-uvm/libopencl/opencl_runtime_api.cc:949-956 | quotients and sizes in 32 bits, 1 in missing dimensions |
| OpenCL.TruncatedGridExample | gpgpu-sim-uvm/libopencl/opencl_runtime_api.cc:949-952 | 2^32 groups of one thread are stored as a grid of 0 |
| OpenCL.CutRange | gpgpu-sim-uvm/libopencl/opencl_runtime_api.cc:902-956 | which status is returned, if and only if, and the grid and block of an accepted range |
| OpenCL.AutomaticRange | gpgpu-sim-uvm/libopencl/opencl_runtime_api.cc:907-956 | for a core size that is a multiple of 64 every automatic range is accepted, and grid times block is the range when the grid fits 32 bits |

## Left out

- SimtRefinement.LockstepRefinesSolo: threads interact with memory only through their own state; two threads racing on one location are not modelled. A finished thread of the top mask is skipped, where the source aborts; `SimtRefinement.KernelRunsWholeMask` shows that kernels without calls have none, and `SimtExit.RunMasksLive` when other runs have none.
- SimtFlow.FlowAgrees: the fixed-point computation of the post-dominators; the graph and the immediate post-dominators are given. For programs with calls they are those of one graph of the whole program; a graph for each function, with the return pc of the frame as its end, is not modelled: after a divergent return the source goes on with the caller's code under the callee's entry.
- SimtStacks.SimtStack.Update: the divergence statistics and the per-instruction debug output of the update.
- SimtStacks: the 32-bit truncation of the pc handed out by `get_pdom_stack_top_info` and `get_rp`.
- Coalescer.MarkAllExact: accesses that leave their 32-byte chunk; the marking loops cover them, and `Coalescer.LoneAccessExact` shows that exactness fails there.
- Coalescer.SegmentSize: data sizes other than 1, 2, 4, 8 and 16, for which the source leaves the segment size 0.
- Coalescer: addresses are unbounded numbers; a segment tag is the address minus its offset, which is what clearing the low bits gives for powers of two.
- WarpMemory.WarpInst.CoalesceAtomicWarp: an atomic that crosses its segment, on which the source aborts.
- UnifiedMemory.RunRefinesFlat: eviction policies that invalidate pages without a write-back.
- ManagedMemory.Gpgpu.DeviceSynchronize: page validity, access bits, free-page counts and TLB flushes of the evicted pages.
- ManagedMemory.Gpgpu.MallocManaged: the sensitivity tag of crypto allocations, whose sizing and copying are the same.
- Sections.SectionTable.MergeMatchingSections: a list without a matching section, which the source never passes.
- OpenCL.CutRange: a zero work-group size, or an empty first dimension with automatic sizes, on which the source divides by zero.
- OpenCL.Kernel.BindArgs: wrap-around of the 64-bit offset, and an alignment of zero, on which the source divides by zero.
- Constant and texture accesses, which group threads by cache line only.
- Timing, statistics, latencies, power counters and debug printing.
- `cudaFree`, `cudaMemGetInfo`, texture binding, OpenGL interoperation, device properties and the remaining API stubs.
- Everything that starts other programs: cuobjdump extraction, PTX assembly, kernel builds, profiling scripts.
- The translation of native assembly to PTXPlus and the AerialVision plots.
