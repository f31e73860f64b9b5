# Verified models of the sBPF lifter, its analyses and the account buffer

qedsvm lifts paths of compiled Solana (sBPF) programs to Hoare triples, recovers control flow and
guard certificates from the same binaries, and runs programs on a serialized account buffer. This
project models the parts of that pipeline in which a mistake would be silent, and proves them
correct for all inputs.

* **The lifter's symbolic machine.** `Words`, `Alu`, `SymExpr`, `CanonShapes`, `SolveShapes`,
  `Branch`, `SymModel`, `SymStateClass`, `LiftSound`, `Lift`, `LiftInvariants`, `LiftCoverage`,
  `LiftExact`, `LiftErrors`, `LiftRecords`, `LiftEquations`, `LiftClauses`, `LiftRetry`, and the
  counterexamples `LiftGaps`, `ClauseGaps`, `SpanGaps`. A path is walked with
  symbolic registers and memory cells; unknown places become fresh variables and precondition atoms;
  conflicting accesses are redone byte by byte in another pass. Rendered text means its operation on
  its operands, so every expression has a value under every assignment. The concrete machine is a
  register file and a byte memory over wrapping 64-bit addresses. The main result is
  `Lift.SymbolicExecutionSound`: from every concrete state that satisfies the precondition and the
  recorded hypotheses, the machine follows the path and ends in a state satisfying the postcondition.
  Its one further condition, on narrow reloads, is exact for agreement after every instruction
  (`Lift.FollowsIff`); a triple can also hold although a bad reload was overwritten later. The partner
  `LiftCoverage.PreconditionCovers` says that the precondition loses no state: every concrete state
  satisfies all its atoms under the assignment read off that state.
  `LiftCoverage.EveryStateIsCovered` joins the two: no precondition is assumed of the machine state,
  only that cells on different roots do not overlap. The lifter also asks and refuses no more than it
  must: the recorded hypotheses hold exactly when the machine takes the path and its loads fit
  (`LiftExact.HypothesesExact`), an overlap error is recorded exactly when a new cell overlaps another
  on its root or a byte-granular access is of an unsupported form (`LiftErrors.PathErrsIff`), and
  regions are requested exactly for accesses that need them (`LiftRetry.PassRequestsIff`).
* **Witness search.** `UnionFind`, `BranchWitness`, `BranchCandidates`, `BranchGaps`, `SatWitness`,
  `WitnessCheck`: steering one unknown, the greedy, repair and hill-climbing passes with the
  program's own candidate table, and the satisfiability witness of a precondition: which root gets
  which base, and exactly when an accepted witness is satisfied by a machine state.
* **Control flow and guards.** `Cfg`, `Outcomes`, `CallMachine`, `NoReturn`, `SuccessPaths`. The
  recovered graph is checked against a call/return machine with recursion and arbitrary indirect
  calls. The end to end result is `SuccessPaths.AcceptedRunIsGuarded`: every run through an accepted
  edge passed the edge's guards and ends with `r0 = 0`.
* **Program counters.** `PcMap`: slot and logical counters, and the bisimulation of the two
  machines, with the condition on the text under which they never part.
* **The account buffer.** `AccountLayout`, `AccountRoundTrip`, `AccountContents`, `AccountBuffer`:
  serializer, parser, every byte of the buffer, round trip, and independence of what the program wrote.
* **Profiles.** `Profile`: folded stacks against a machine that keeps the call stack itself.

Pure code is modelled by functions, code that updates state by a class (`SymState`, `ByteCursor`) or
by methods with loops; each such method is proved equal to a function whose properties are the
lemmas below. Where a property does not hold of the code, a lemma gives the input and another one the
exact condition.

Eight findings are worth a reader's attention.

* A halfword or word reload of a cell that holds a bare wider variable returns that variable and
  records no condition. `LiftGaps.NarrowReloadGap` is a three-instruction path whose triple is wrong.
  Symbolic and concrete run agree at every step if and only if each such variable, in the cell found
  before the load, fits the width of the load (`Lift.FollowsIff`).
* The satisfiability witness clamps an address below 0 to 0. The comment at
  `qedsvm-rs/qedlift/src/emit.rs:266` says that this mirrors `Int.toNat (base + off)`; the machine's
  effective address (`SVM/SBPF/Memory.lean:110-113`) wraps below 0. It leaves an address at or above
  2^64 as it is, and its loads and stores then retry at the wrapped one, so that the model's addresses
  wrap at both ends. An overlap at the top of the address space is then missed by the witness
  (`WitnessCheck.ClampMissesOverlap`). An accepted witness is satisfiable if and only if its cells
  outside the address space are disjoint from the others in the wrapping machine
  (`WitnessCheck.WitnessSatisfiesIff`).
* The repair of one equality class can falsify a hypothesis that spans two
  (`BranchGaps.CrossClassMayBreak`); `BranchWitness.RepairKeepsIff` says exactly which ones survive.
* The set of functions that never return is sound but misses, for instance, a function that always
  calls itself (`CallMachine.SelfRecursionMissed`). It is complete if and only if the least and the
  greatest fixpoint of its round agree (`NoReturn.CompleteIff`).
* A jump onto the second slot of an `lddw` resolves silently to the `lddw`, although the comment at
  `resolve_jump_target` promises that malformed targets fail loudly (`PcMap.JumpOntoContinuation`).
  A text is free of this if and only if no jump or local call has such an offset
  (`PcMap.JumpAgreesIff`, `PcMap.AlwaysTogetherIff`).
* The region clause of an access that finds a later slot of a byte-granular access leaves out the
  slot's displacement, so it names another address (`ClauseGaps.SlotClauseGap`). On every finished
  path a clause names the address accessed if and only if the access did not resolve to such a slot
  (`LiftClauses.ClauseNamesAddressIff`).
* A footprint that runs past the end of the signed range is recorded with a wrapped end, and an
  access inside it is accepted (`SpanGaps.WrappedSpanAccepted`). Cells within the range are told
  apart (`LiftInvariants.SameRootSeparated`); in general their displacements decide
  (`LiftInvariants.SameRootSeparateIff`).
* The candidate table offers nothing for a signed value below a right-hand side of 0
  (`BranchCandidates.NegativeMissed`). Every other hypothesis whose left side is one free variable
  and whose right side is known is steered whenever it can be true (`BranchCandidates.SolvableIff`).

`dafny verify dfyconfig.toml` checks the whole project.

## Model

| member | source | states |
|---|---|---|
| `SymExpr.EvalMonotone` | qedsvm-rs/qedlift/src/core.rs:386-423 | a value once defined survives every extension of the assignment, for all expressions |
| `SymExpr.MeanExtends` | qedsvm-rs/qedlift/src/core.rs:386-423 | the total meaning of an expression, rendered text included, extends evaluation: where evaluation gives a value, it is the meaning under every completion of the environment |
| `SolveShapes.EvalIff` | qedsvm-rs/qedlift/src/core.rs:386-423 | evaluation is defined exactly when every variable is bound, nothing is rendered text, no bare constant is negative and plain sums and differences stay within a word, and is then the meaning |
| `Alu.FoldedIsValue` | qedsvm-rs/qedlift/src/exec/syscall_registry.rs:410-418 | constants folded by the lifter, arithmetic shifts on signed words among them, are the machine's values, for both sizes and all operations |
| `Alu.ShiftSignedDivides` | qedsvm-rs/qedlift/src/core.rs:194-223 | the rendered arithmetic shift, a logical one with the high bits filled in, is division of the signed word rounding down |
| `Alu.EndianTwice` | qedsvm-rs/qedlift/src/exec/step.rs:234-253 | swapping the low bytes twice gives the truncated word, for every width |
| `SymExpr.SubstituteCommutes` | qedsvm-rs/qedlift/src/core.rs:42-66 | evaluating the substituted expression equals evaluating the original under the assignment updated by the replacements' values |
| `SymExpr.SubstituteNeedsValues` | qedsvm-rs/qedlift/src/core.rs:42-66 | the proviso that replacements have values is needed: a concrete case in which substitution gives a value to an undefined expression |
| `SymExpr.SolveSound` | qedsvm-rs/qedlift/src/core.rs:426-497 | steering only extends the assignment, also on failure; reported success means the expression has the target value |
| `SymExpr.SolveKeeps` | qedsvm-rs/qedlift/src/core.rs:426-497 | a value defined before any steering is the same after it |
| `SolveShapes.SolveIff` | qedsvm-rs/qedlift/src/core.rs:426-497 | an expression in one unbound variable under sums, differences, frame offsets, remainders and masks is steered to a target if and only if it can take it, and only that variable is bound |
| `SolveShapes.ComboSolvedIff` | qedsvm-rs/qedlift/src/core.rs:485-494 | a combination of up to eight distinct unbound bytes is steered to exactly the targets it has room for, eight of them to every target |
| `SymExpr.ConstSound` | qedsvm-rs/qedlift/src/core.rs:322-329 | a recognised constant is the expression's value modulo 2^64 |
| `SymExpr.CanonSound` | qedsvm-rs/qedlift/src/core.rs:331-357 | an address equals its root plus displacement modulo 2^64 under every assignment |
| `SymExpr.CanonCongruence` | qedsvm-rs/qedlift/src/core.rs:331-357 | two addresses on one root differ by the difference of their displacements, so equal pairs are one address |
| `SymExpr.CanonRootExprSound` | qedsvm-rs/qedlift/src/core.rs:360-383 | the same for the root expression the witness builder steers |
| `CanonShapes.SumsAreRecognised` | qedsvm-rs/qedlift/src/core.rs:331-357 | every sum of one variable and constants, added on either side or subtracted in any order, has that variable as root and the summed displacement |
| `CanonShapes.CanonShift` | qedsvm-rs/qedlift/src/core.rs:331-357 | moving the offset moves the displacement and keeps the root |
| `LiftErrors.ArithmeticKeepsRoot` | qedsvm-rs/qedlift/src/exec/step.rs:79-127 | adding or subtracting an immediate and entering a frame keep the root of a recognised address and move its displacement |
| `Branch.EvalBranchMonotone` | qedsvm-rs/qedlift/src/witness.rs:9-64 | a path hypothesis decided by an assignment is decided the same way by every extension |
| `Branch.EvalBranchMeans` | qedsvm-rs/qedlift/src/witness.rs:9-64 | a hypothesis the search decides is decided as the theorem's hypothesis is under every completion |
| `BranchCandidates.EvalBranchIff` | qedsvm-rs/qedlift/src/witness.rs:9-64 | a hypothesis is decided exactly when its operands have values, and then as the theorem's hypothesis is |
| `SymStateClass.SymState.WithRetryPlans` | qedsvm-rs/qedlift/src/state.rs:312-321 | the initial state: nothing recorded, the given hot regions and splits |
| `SymStateClass.SymState.ReserveFreshName` | qedsvm-rs/qedlift/src/state.rs:12-18 | reserves the next index and queues it |
| `SymStateClass.SymState.AllocFreshName` | qedsvm-rs/qedlift/src/state.rs:19-25 | takes the oldest reserved index, or the next one |
| `SymStateClass.SymState.RegisterBlob` | qedsvm-rs/qedlift/src/state.rs:339-347 | appends the blob with its extent and fill byte |
| `SymStateClass.SymState.TakeRetryPlan` | qedsvm-rs/qedlift/src/state.rs:369-377 | blob splits first, then hot regions, otherwise ready; what is returned is drained |
| `SymStateClass.SymState.NoteAccess` | qedsvm-rs/qedlift/src/state.rs:397-410 | in-place form of the footprint update: the first conflicting span on the root is an error, otherwise the span is recorded |
| `LiftErrors.NoteErrs` | qedsvm-rs/qedlift/src/state.rs:397-410 | an access under a new key records an error if and only if its footprint overlaps that of an existing cell on the same root |
| `LiftErrors.StepErrsIff` | qedsvm-rs/qedlift/src/state.rs:552-752 | one instruction records an error if and only if it makes a cell that overlaps another on its root, or its access is served by bytes and is no dword load or word immediate store |
| `LiftErrors.PathErrsIff` | qedsvm-rs/qedlift/src/state.rs:552-752 | a path ends without errors if and only if no access of it does either |
| `LiftErrors.LookupIff` | qedsvm-rs/qedlift/src/state.rs:583-603 | a cell is found if and only if one lies at the access's canonical address with its width |
| `LiftErrors.WideErrorIsAsked` | qedsvm-rs/qedlift/src/state.rs:455-488 | a wide access that overlaps a cell always asks for the region as well, so the pass is repeated |
| `SymStateClass.SymState.ReadReg` | qedsvm-rs/qedlift/src/state.rs:411-419 | in-place form of the model's register read; first reads create an atom |
| `SymStateClass.SymState.WriteReg` | qedsvm-rs/qedlift/src/state.rs:420-428 | in-place form of the model's register write, with the initial atom for a register never read |
| `SymStateClass.SymState.RequestDemotionOnConflict` | qedsvm-rs/qedlift/src/state.rs:455-488 | in-place form of the model's request, the region and the condition in one pass over the cells |
| `LiftRetry.HullIsLeast` | qedsvm-rs/qedlift/src/state.rs:455-488 | the requested region is the least one that holds the access and every cell that clashes with it |
| `LiftRetry.PassRequestsIff` | qedsvm-rs/qedlift/src/state.rs:605-752 | a pass asks for exactly the hulls of its unsettled accesses, and for nothing if and only if every wide access is served by bytes, or clashes with no cell of its root and meets no byte-granular region; so on every finished path |
| `LiftRetry.MergeHotRegions` | qedsvm-rs/qedlift/src/exec/walk.rs:57-76 | the in-order merge of requested regions into the plan |
| `LiftRetry.MergedUnion` | qedsvm-rs/qedlift/src/exec/walk.rs:57-76 | merging keeps the plan's regions apart and adds exactly the region's bytes |
| `LiftRetry.CoversIffBytes` | qedsvm-rs/qedlift/src/state.rs:429-434 | in such a plan one region covers an interval if and only if every byte lies in the plan |
| `LiftRetry.IntersectsIffByte` | qedsvm-rs/qedlift/src/state.rs:435-440 | an interval meets the plan if and only if one of its bytes lies in it |
| `LiftRetry.SplitIff` | qedsvm-rs/qedlift/src/state.rs:614-629 | a dword read asks for a split exactly at the unsplit tail of a blob, and for the one that makes these bytes a cell |
| `LiftRetry.RetryGains` | qedsvm-rs/qedlift/src/exec/walk.rs:143-148 | the plan grows strictly with every retry, and each unsettled access of the pass, with every cell it clashed with, lies inside one region of the new plan |
| `LiftRetry.ServedIsSettled` | qedsvm-rs/qedlift/src/state.rs:605-660 | in the next pass an access at the same canonical address is served by bytes and asks for nothing |
| `SymStateClass.SymState.HotSlot` | qedsvm-rs/qedlift/src/state.rs:498-550 | finds the byte cell of a slot under any rendering, or makes one; its index and the whole new state |
| `SymStateClass.SymState.WriteHotWordImm` | qedsvm-rs/qedlift/src/state.rs:552-560 | the four byte slots of a word immediate, in order |
| `SymStateClass.SymState.ReadHotWide` | qedsvm-rs/qedlift/src/state.rs:562-581 | the eight byte slots as one little-endian combination; other widths are errors |
| `SymStateClass.SymState.LookupCellAliased` | qedsvm-rs/qedlift/src/state.rs:583-603 | the first cell with the exact rendering, else the first with the same canonical address and width |
| `SymStateClass.SymState.ReadMem` | qedsvm-rs/qedlift/src/state.rs:605-692 | in-place form of the model's load, all branches included |
| `SymStateClass.SymState.WriteMem` | qedsvm-rs/qedlift/src/state.rs:694-752 | in-place form of the model's store, all branches included |
| `SymStateClass.BuildPostAtoms` | qedsvm-rs/qedlift/src/emit.rs:559-629 | one postcondition atom per precondition atom, carrying the current register or cell value |
| `LiftSound.ReadRegSim` | qedsvm-rs/qedlift/src/state.rs:411-419 | a register read keeps symbolic and concrete state in step and returns the register's value |
| `LiftSound.WriteRegSim` | qedsvm-rs/qedlift/src/state.rs:420-428 | a register write keeps the two in step with the machine's own write |
| `LiftSound.LookupSound` | qedsvm-rs/qedlift/src/state.rs:583-603 | a cell found under another rendering lies at the very address accessed |
| `LiftSound.ReadHotWideSim` | qedsvm-rs/qedlift/src/state.rs:562-581 | a byte combination evaluates to the bytes loaded, with all new slots in step |
| `LiftSound.WriteHotWordImmSim` | qedsvm-rs/qedlift/src/state.rs:552-560 | storing four byte slots is the machine's word store |
| `LiftSound.ReadMemSim` | qedsvm-rs/qedlift/src/state.rs:605-692 | a load keeps the two in step and its result has the bytes in memory at the address accessed |
| `LiftSound.WriteMemSim` | qedsvm-rs/qedlift/src/state.rs:694-752 | a store keeps the two in step with the machine's store of that width |
| `LiftSound.PostHolds` | qedsvm-rs/qedlift/src/emit.rs:559-629 | the final state satisfies every postcondition atom and memory outside the atoms is unchanged |
| `Lift.StepSound` | qedsvm-rs/qedlift/src/exec/step.rs:15-558 | one lifted instruction is matched by the machine's own step, for loads, stores, moves, all 64- and 32-bit arithmetic, byte swaps, jumps, calls and returns, if and only if a bare variable loaded at a narrow width fits it |
| `LiftExact.JumpHypIff` | qedsvm-rs/qedlift/src/exec/step.rs:356-558 | the hypothesis recorded for a jump holds if and only if the machine decides the jump that way |
| `LiftExact.LoadExactly` | qedsvm-rs/qedlift/src/exec/step.rs:24-62 | a load's result is the loaded word if and only if its value fits, which is what the recorded condition and the bare-variable condition say together |
| `LiftExact.StepExact` | qedsvm-rs/qedlift/src/exec/step.rs:15-558 | the machine takes an instruction with a fitting load if and only if everything the instruction recorded holds |
| `LiftExact.HypothesesExact` | qedsvm-rs/qedlift/src/exec/step.rs:15-558 | on every finished path, from every state satisfying the precondition, the machine takes the path with fitting loads if and only if every recorded path hypothesis, divisor and reload condition holds |
| `LiftExact.ObservedExact` | qedsvm-rs/qedlift/src/exec/step.rs:15-558 | the same for the assignment read off the state, without assuming the precondition |
| `Lift.LoadAgreesIff` | qedsvm-rs/qedlift/src/exec/step.rs:24-62 | a load's symbolic result is the loaded word if and only if a bare variable loaded at a narrow width fits that width |
| `Lift.NarrowFitsMeans` | qedsvm-rs/qedlift/src/exec/step.rs:28-50 | whether it fits is decided by the cell found before the load and by the assignment |
| `Lift.FollowsIff` | qedsvm-rs/qedlift/src/exec/step.rs:15-558 | over whole paths, under the recorded hypotheses, symbolic and concrete state agree after every instruction if and only if every narrow reload of a bare variable fits |
| `Lift.BoundedRunFits` | qedsvm-rs/qedlift/src/exec/step.rs:28-50 | recorded bounds no wider than the loads are enough: a condition on the path's text alone |
| `Lift.ReturnSound` | qedsvm-rs/qedlift/src/exec/walk.rs:217-250 | a return restores registers 6 to 10 symbolically as the machine does |
| `Lift.SymbolicExecutionSound` | qedsvm-rs/qedlift/src/state.rs:397-752 | soundness of the emitted triple over whole paths: ready, no overlap error, narrow reloads that fit, precondition with separation and recorded hypotheses imply that the machine follows the path, ends in the postcondition and changes nothing outside the atoms |
| `LiftInvariants.NamesNeverRepeat` | qedsvm-rs/qedlift/src/state.rs:12-25 | over any list of reservations and allocations no index is allocated twice, and reserved indices are allocated in the order of their reservation |
| `LiftInvariants.RunWf` | qedsvm-rs/qedlift/src/state.rs:397-752 | every path keeps one span per cell, disjoint spans per root, distinct variable names and width bounds |
| `LiftInvariants.SameRootSeparated` | qedsvm-rs/qedlift/src/state.rs:397-410 | on every path without overlap errors, two cells on one root with bounded displacements are disjoint in memory under every assignment |
| `LiftInvariants.SameRootSeparateIff` | qedsvm-rs/qedlift/src/core.rs:331-357 | cells on one root are disjoint if and only if their displacements are apart around the address space, the same under every assignment |
| `SpanGaps.WrappedSpanAccepted` | qedsvm-rs/qedlift/src/state.rs:397-410 | without the bound a finished path of four instructions has two cells on one root that overlap under every assignment |
| `LiftCoverage.RunKnown` | qedsvm-rs/qedlift/src/state.rs:411-752 | on every path each variable is introduced by an atom before a register, cell, frame or address base uses it |
| `LiftCoverage.PreconditionCovers` | qedsvm-rs/qedlift/src/state.rs:605-692 | every concrete initial state satisfies every atom and load bound of the precondition under the assignment read off it |
| `LiftCoverage.ObservedPrecondition` | qedsvm-rs/qedlift/src/state.rs:397-692 | with cells on different roots apart, the whole precondition, separation and bounds included, holds of every initial state under the assignment read off it |
| `LiftCoverage.EveryStateIsCovered` | qedsvm-rs/qedlift/src/state.rs:397-752 | from any such state whose observed values satisfy the recorded hypotheses and fit the narrow reloads, the machine follows the path into the postcondition |
| `LiftGaps.NarrowReloadGap` | qedsvm-rs/qedlift/src/exec/step.rs:28-50 | a dword load, halfword store, halfword reload lifts without error, satisfies precondition and every recorded hypothesis in a given machine state, and ends in a state that violates the postcondition |
| `LiftRecords.EquationsTrue` | qedsvm-rs/qedlift/src/state.rs:353-367 | every alias equation recorded on any path is true under every assignment |
| `LiftEquations.EquationsRecorded` | qedsvm-rs/qedlift/src/state.rs:498-752 | whenever a cell serves a finished access under another rendering, the equation is recorded, for the cell and for every slot of an access served by bytes |
| `LiftClauses.OneClausePerAccess` | qedsvm-rs/qedlift/src/state.rs:552-752 | a finished path has exactly one region clause per memory instruction of the text, in order, with its width and direction |
| `LiftClauses.ClauseNamesAddressIff` | qedsvm-rs/qedlift/src/state.rs:552-752 | on every finished path clause i names the address of access i if and only if the access did not resolve to a later slot of a byte-granular access; otherwise it is short by the slot's displacement |
| `LiftClauses.ClauseNamesMachineAddressIff` | qedsvm-rs/qedlift/src/state.rs:552-752 | the same against the address the machine accesses at that instruction, on every path the machine follows |
| `ClauseGaps.SlotClauseGap` | qedsvm-rs/qedlift/src/state.rs:636-650 | a byte load, a dword load over it and a byte load of another of its bytes: the first pass asks for the region, the second is finished, and its third clause names the wrong address under every assignment |
| `UnionFind.Find` | qedsvm-rs/qedlift/src/witness.rs:247-262 | terminates on every acyclic parent map, returns the representative, points exactly the variables on the way at it and keeps the partition |
| `UnionFind.CompressKeepsRoots` | qedsvm-rs/qedlift/src/witness.rs:255-260 | pointing a variable at its representative moves no representative |
| `UnionFind.JoinedRoot` | qedsvm-rs/qedlift/src/witness.rs:420-426 | joining moves exactly one class to the other's representative |
| `UnionFind.SharedRootIffLinked` | qedsvm-rs/qedlift/src/witness.rs:402-427 | two variables have one representative if and only if a chain of single-variable register equalities links them |
| `UnionFind.EqualityPass` | qedsvm-rs/qedlift/src/witness.rs:402-427 | the pass establishes the invariant the equivalence rests on, for any list of hypotheses |
| `UnionFind.EqualityClasses` | qedsvm-rs/qedlift/src/witness.rs:402-432 | two variables share a class exactly when linked; classes are disjoint and cover the variables |
| `BranchWitness.SteeredSound` | qedsvm-rs/qedlift/src/witness.rs:352-381 | steering a hypothesis only adds bindings and makes it true exactly when some candidate works in some order |
| `BranchWitness.Steer` | qedsvm-rs/qedlift/src/witness.rs:352-381 | the candidate loop keeps the first candidate that verifies, destination first and then source first |
| `BranchCandidates.SolvableIff` | qedsvm-rs/qedlift/src/witness.rs:66-245 | a hypothesis on one free variable with a known other side has a candidate that works if and only if it is satisfiable and does not ask for a signed value below a right-hand side of 0, for all 64-bit and 32-bit comparisons |
| `BranchCandidates.NegativeMissed` | qedsvm-rs/qedlift/src/witness.rs:66-245 | a satisfiable signed comparison with 0 for which the table is empty |
| `BranchWitness.ZeroFill` | qedsvm-rs/qedlift/src/witness.rs:385-387 | unbound variables become 0 and nothing else changes |
| `BranchWitness.GreedyPass` | qedsvm-rs/qedlift/src/witness.rs:325-383 | the pass is the step function folded over the hypotheses, with the zero-fill probe for disequalities |
| `BranchWitness.GreedyKeepsTruth` | qedsvm-rs/qedlift/src/witness.rs:329-387 | for every order and every candidate generator, a true hypothesis stays true through all later steps and the zero fill |
| `BranchWitness.GreedyStepCommits` | qedsvm-rs/qedlift/src/witness.rs:329-383 | at its turn a hypothesis becomes true or the assignment is left alone |
| `BranchWitness.GreedyStepIff` | qedsvm-rs/qedlift/src/witness.rs:329-383 | a hypothesis is true after its turn if and only if it was, or some candidate works and it is not a disequality left to the zero fill |
| `BranchWitness.GreedySolves` | qedsvm-rs/qedlift/src/witness.rs:329-387 | whatever can be steered at its turn is true at the end of the pass and after the zero fill |
| `BranchWitness.OrderedPermutes` | qedsvm-rs/qedlift/src/witness.rs:296-327 | ordering by priority loses and invents no hypothesis |
| `BranchWitness.OrderedIsStable` | qedsvm-rs/qedlift/src/witness.rs:296-327 | priorities do not decrease in the order, and hypotheses of one priority stand in path order |
| `BranchWitness.RepairClass` | qedsvm-rs/qedlift/src/witness.rs:440-479 | one class gets the first shared value of the pool that satisfies its internal hypotheses, otherwise nothing changes |
| `BranchWitness.RepairedMeans` | qedsvm-rs/qedlift/src/witness.rs:440-479 | a repair leaves a class alone whose hypotheses hold, finds a solution whenever the pool has one, and changes nothing otherwise |
| `BranchWitness.RepairKeepsIff` | qedsvm-rs/qedlift/src/witness.rs:440-479 | a value is committed if and only if the class's own hypotheses fail and some pool value makes them hold, and it is the first such; then a true hypothesis survives if and only if it mentions no member or the value keeps it true |
| `BranchWitness.Repair` | qedsvm-rs/qedlift/src/witness.rs:389-481 | afterwards every class whose own hypotheses one pool value satisfies has them all true, a true hypothesis internal to a class stays true, and only variables of fixable classes are touched |
| `BranchWitness.PoolIff` | qedsvm-rs/qedlift/src/witness.rs:433-439 | the pool is every value up to 256 and the neighbourhood of every immediate |
| `BranchGaps.CrossClassMayBreak` | qedsvm-rs/qedlift/src/witness.rs:389-479 | on `a <= 2, a != 2, a != 0, a < b` the greedy pass hands over a = 0, b = 1; the repair of `a` commits 1 and falsifies `a < b` |
| `BranchWitness.Improve` | qedsvm-rs/qedlift/src/witness.rs:513-524 | one variable takes a value no pool value beats, the score does not drop, no other variable changes |
| `BranchWitness.HillClimb` | qedsvm-rs/qedlift/src/witness.rs:487-526 | the score never drops, and the climb ends with a full score, where no change of one variable to a pool value scores higher, or after every round has raised the score |
| `BranchWitness.BuildBranchWitness` | qedsvm-rs/qedlift/src/witness.rs:66-539 | the greedy result is repaired and climbed from, and the end of the climb is returned if and only if every hypothesis is true there; a successful greedy pass is returned unchanged; a witness is always found when each hypothesis is about one class and each such class has a pool value that satisfies it |
| `BranchGaps.SingleIsClassByClass` | qedsvm-rs/qedlift/src/witness.rs:389-390 | `a <= 2, a != 2, a != 0` is such a case |
| `SatWitness.BasesApart` | qedsvm-rs/qedlift/src/emit.rs:188-194 | bases handed out at different turns are a step apart up to the end of the address space |
| `SatWitness.AssignVariables` | qedsvm-rs/qedlift/src/emit.rs:207-215 | the loop is the first pass: each address with a variable root not yet bound takes the next base |
| `SatWitness.SteerRoots` | qedsvm-rs/qedlift/src/emit.rs:216-243 | the loop is the second pass: each derived root met for the first time keeps its value or is steered to the next base |
| `SatWitness.RootsKeepBases` | qedsvm-rs/qedlift/src/emit.rs:207-247 | after both passes and the zero fill every variable root has the base of its name's turn, every derived root the value it had or the base of the turn at which it was met, and different roots have different turns |
| `SatWitness.SteeringFailsIff` | qedsvm-rs/qedlift/src/emit.rs:216-243 | steering fails if and only if some first derived root without a value cannot be steered to the next base under the assignment built so far |
| `SatWitness.AssignRoots` | qedsvm-rs/qedlift/src/emit.rs:207-247 | both passes, then zeros for the remaining variables |
| `SatWitness.CheckFeet` | qedsvm-rs/qedlift/src/emit.rs:419-438 | succeeds if and only if no two footprints clash |
| `SatWitness.BuildSatWitness` | qedsvm-rs/qedlift/src/emit.rs:164-438 | returns the assignment of the passes if and only if every atom has its values under it and no two atoms clash |
| `WitnessCheck.WitnessSatisfiesIff` | qedsvm-rs/qedlift/src/emit.rs:266-438 | an accepted assignment satisfies the precondition, separation included, in some machine state if and only if every pair with a cell outside the address space is disjoint in the wrapping machine |
| `WitnessCheck.WitnessInSpaceSatisfies` | qedsvm-rs/qedlift/src/emit.rs:266-438 | in particular it does when every cell ends inside the address space |
| `WitnessCheck.ClampMissesOverlap` | qedsvm-rs/qedlift/src/emit.rs:266-272 | for two given cells on different roots the passes return an assignment that the check accepts, although no machine state satisfies the precondition |
| `WitnessCheck.VariableRootsPassIff` | qedsvm-rs/qedlift/src/emit.rs:188-438 | on every lifted path without overlap errors whose cells lie within one step of variable roots, the assignment of the passes is accepted if and only if no frame offset in an address runs past the end of the address space, and is then satisfiable |
| `WitnessCheck.VariableRootsPass` | qedsvm-rs/qedlift/src/emit.rs:188-438 | it is accepted and satisfiable when no address mentions a callee's frame |
| `Cfg.Body` | qedsvm-rs/qed-analysis/src/cfg.rs:195-204 | the instructions collected are exactly those reachable from the entry |
| `Cfg.RoundMonotone` | qedsvm-rs/qed-analysis/src/cfg.rs:156-170 | treating more calls as terminal finds more functions that never return |
| `Cfg.Build` | qedsvm-rs/qed-analysis/src/cfg.rs:133-170 | the sets of the rounds increase strictly up to the last but one, which the last repeats, within one more round than there are entries; the result is the least fixpoint with the reachable bodies under it |
| `Outcomes.R0WriteSound` | qedsvm-rs/qed-analysis/src/cfg.rs:294-318 | an instruction without a listed definition keeps r0, one with a definition leaves a value the definition allows |
| `Outcomes.R0WriteExact` | qedsvm-rs/qed-analysis/src/cfg.rs:294-318 | no definition is listed if and only if every step keeps r0, and a listed one allows exactly the values the instruction can leave |
| `Outcomes.ZeroIff` | qedsvm-rs/qed-analysis/src/cfg.rs:310-316 | `Zero` is listed if and only if every step of the instruction leaves 0 |
| `Outcomes.R0Defs` | qedsvm-rs/qed-analysis/src/cfg.rs:268-291 | the backward search returns exactly the definitions that reach the edge |
| `Outcomes.ExitEdges` | qedsvm-rs/qed-analysis/src/cfg.rs:223-265 | lists exactly the instructions with an edge into an exit of the body, each with exactly its reaching definitions |
| `Outcomes.LastDefListed` | qedsvm-rs/qed-analysis/src/cfg.rs:223-292 | on every path into an exit, the last write of r0 is in the set of the path's last edge |
| `Outcomes.SuccessIff` | qedsvm-rs/qed-analysis/src/cfg.rs:98-102 | an edge is a success edge if and only if some instruction's value can leave through it and every such instruction always leaves 0 |
| `CallMachine.RunKeepsStack` | qedsvm-rs/qed-analysis/src/cfg.rs:172-204 | in every run with calls, returns and arbitrary indirect calls the path of every frame, wherever it was entered, is a walk of the recovered graph |
| `CallMachine.NoReturnFrameStays` | qedsvm-rs/qed-analysis/src/cfg.rs:156-170 | a frame entered at a function of the computed set is never popped, in any run |
| `CallMachine.NoReturnEntryNeverExits` | qedsvm-rs/qed-analysis/src/cfg.rs:156-170 | a program whose entry is in the set never exits |
| `CallMachine.SelfRecursionMissed` | qedsvm-rs/qed-analysis/src/cfg.rs:156-170 | the set is not complete: a function that always calls itself never returns and is not in it |
| `NoReturn.GreatestIsFixpoint` | qedsvm-rs/qed-analysis/src/cfg.rs:156-170 | iterating the round down from all entries, as often as there are entries, gives its greatest fixpoint |
| `NoReturn.ReturnsIff` | qedsvm-rs/qed-analysis/src/cfg.rs:156-170 | some run from a function's entry reaches its exit if and only if the function is not in the greatest fixpoint |
| `NoReturn.FramePopped` | qedsvm-rs/qed-analysis/src/cfg.rs:156-170 | for such a function, a call under any frames is popped and its caller resumed in some run |
| `NoReturn.CompleteIff` | qedsvm-rs/qed-analysis/src/cfg.rs:133-170 | the computed set holds every function that never returns if and only if it equals the greatest fixpoint |
| `CallMachine.RunKeepsR0` | qedsvm-rs/qed-analysis/src/cfg.rs:268-318 | in every run and at every call depth r0 is what the last definition of the running function allows, or the value the function was entered with |
| `CallMachine.SuccessEdgeEndsWithZero` | qedsvm-rs/qed-analysis/src/cfg.rs:98-121 | every run that exits through a success edge ends with r0 = 0 if it began with it |
| `SuccessPaths.NewGraph` | qedsvm-rs/qed-analysis/src/success_proofs.rs:81-105 | fails exactly on an unresolved or out-of-range target; predecessors are the converse of successors |
| `SuccessPaths.Reach` | qedsvm-rs/qed-analysis/src/success_proofs.rs:107-125 | marks exactly the nodes reached without passing through a stop |
| `SuccessPaths.BackwardIsForward` | qedsvm-rs/qed-analysis/src/success_proofs.rs:107-125 | searching over predecessors finds exactly the nodes that reach the start |
| `SuccessPaths.Guards` | qedsvm-rs/qed-analysis/src/success_proofs.rs:127-144 | lists exactly the branches that lie on every walk and have one live successor |
| `SuccessPaths.GuardPassed` | qedsvm-rs/qed-analysis/src/success_proofs.rs:127-144 | every walk to the edge visits the guard and leaves it by the recorded successor each time |
| `SuccessPaths.Accept` | qedsvm-rs/qed-analysis/src/success_proofs.rs:263-332 | accepts exactly when entry, helpers, pins, edges and checkpoints satisfy the stated conditions |
| `SuccessPaths.CfgWalkInGraph` | qedsvm-rs/qed-analysis/src/success_proofs.rs:265-280 | after acceptance every path of the recovered control flow from the entry is a walk of the graph |
| `SuccessPaths.GraphEdgeIff` | qedsvm-rs/qed-analysis/src/success_proofs.rs:81-95 | the graph has exactly the edges of the control flow under the same terminal functions, without those after an indirect call and with those after a terminal system call |
| `SuccessPaths.WalkSplits` | qedsvm-rs/qed-analysis/src/success_proofs.rs:325-332 | every walk to an accepted edge splits at a checkpoint, passing all guards of the prefix before it and all guards of the suffix after it |
| `SuccessPaths.AcceptedRunIsGuarded` | qedsvm-rs/qed-analysis/src/success_proofs.rs:247-332 | every run of the call machine through an accepted edge passed the guards and ends with r0 = 0 |
| `PcMap.FromInsns` | qedsvm-rs/qed-analysis/src/lib.rs:46-65 | both vectors are the layout: start of each instruction, owner of each slot |
| `PcMap.LookupsInvert` | qedsvm-rs/qed-analysis/src/lib.rs:67-75 | the lookups are defined exactly on the text and are inverse up to continuation slots |
| `PcMap.JumpAgreesIff` | qedsvm-rs/qed-analysis/src/lib.rs:84-99 | a resolved jump names the slot machine's target if and only if the target is not the second slot of an lddw |
| `PcMap.JumpOntoContinuation` | qedsvm-rs/qed-analysis/src/lib.rs:84-99 | in `[lddw, ja -2]` the jump goes to slot 1, the second slot of the lddw, and resolves to the lddw |
| `PcMap.CallxAcceptsStarts` | qedsvm-rs/qedlift/src/isa.rs:10-37 | an indirect call resolves if and only if the address lies in a starting slot, and then to that instruction |
| `PcMap.BoundaryIff` | qedsvm-rs/qed-analysis/src/concept_map.rs:604-616 | an address is a boundary if and only if it is the first byte of an instruction or the end of the text |
| `PcMap.CallxIsBoundary` | qedsvm-rs/qed-analysis/src/concept_map.rs:604-616 | on aligned addresses the two continuation tests agree |
| `PcMap.RangeIff` | qedsvm-rs/qed-analysis/src/concept_map.rs:618-622 | a range is accepted if and only if it covers whole instructions and is not empty |
| `PcMap.NewAddresses` | qedsvm-rs/qed-analysis/src/concept_map.rs:562-591 | fails exactly on an empty or ragged text, an address overflow or a malformed lddw; otherwise the map is that of the decoded text |
| `PcMap.Bisimilar` | qedsvm-rs/qed-analysis/src/lib.rs:46-99 | for every instruction semantics with calls and returns, slot and logical runs stay in the same place exactly as long as no slot counter stands on a continuation |
| `PcMap.AlwaysTogetherIff` | qedsvm-rs/qed-analysis/src/lib.rs:46-99 | the two machines stay together from every start for every number of steps if and only if no jump or local call of the text has an offset onto a continuation slot |
| `AccountBuffer.DupMap` | qedsvm-rs/src/serialize.rs:22-36 | each reference's earlier first occurrence, or none |
| `AccountBuffer.SerializeParameters` | qedsvm-rs/src/serialize.rs:69-137 | the buffer and the errors, first missing account included, as a function of positions |
| `AccountBuffer.AccountsForInstruction` | qedsvm-rs/src/svm.rs:469-487 | reusing earlier entries equals looking every reference up |
| `AccountBuffer.ByteCursor.Take` | qedsvm-rs/src/cursor.rs:17-24 | the next bytes and the new position, or nothing and the old one |
| `AccountBuffer.ByteCursor.U64` | qedsvm-rs/src/cursor.rs:39-44 | the little-endian word at the position |
| `AccountBuffer.ByteCursor.ReadInto` | qedsvm-rs/src/cursor.rs:47-51 | fills the destination, or changes nothing |
| `AccountBuffer.ParseNonDupRecord` | qedsvm-rs/src/deserialize.rs:88-127 | the account at the record's fixed offsets, the cause of each failure, and a new position fixed by the length before the run |
| `AccountBuffer.ReadAccountWrites` | qedsvm-rs/src/deserialize.rs:35-86 | the cursor walk equals random access at positions fixed before the run, errors in order; a missing first occurrence never happens |
| `AccountBuffer.DeserializeAccountWrites` | qedsvm-rs/src/deserialize.rs:17-30 | the first length field that exceeds its area is the error |
| `AccountRoundTrip.RoundTrip` | qedsvm-rs/src/deserialize.rs:17-127 | parsing what was serialized gives exactly the instruction's accounts, for every account list, length and duplicate pattern accepted |
| `AccountRoundTrip.ReadsBack` | qedsvm-rs/src/deserialize.rs:88-127 | whatever account a record carries within its growth area is what is read, so a program's writes come through |
| `AccountRoundTrip.ParsesIff` | qedsvm-rs/src/deserialize.rs:35-73 | a buffer of the serialized length parses if and only if the count is intact and the instruction-data length fits |
| `AccountRoundTrip.KeptWordsParse` | qedsvm-rs/src/deserialize.rs:35-73 | a program that keeps the two words the serializer wrote cannot make parsing fail |
| `AccountRoundTrip.WritesDependOnFields` | qedsvm-rs/src/deserialize.rs:35-127 | the result depends only on owner, lamports, length and readable data of first occurrences |
| `AccountRoundTrip.RecordInPlace` | qedsvm-rs/src/serialize.rs:83-122 | each record is at its offset |
| `AccountContents.RecordContents` | qedsvm-rs/src/serialize.rs:83-122 | every byte of each record: marker, signer, writable and executable flags as some reference or the account has them, padding, key, owner, lamports, length, data, zero growth area, rent epoch of ones; a duplicate's original index and seven zeros |
| `AccountContents.TrailerContents` | qedsvm-rs/src/serialize.rs:124-131 | the instruction data with its length, the program id right after it, and zero padding up to the pointer table |
| `AccountContents.CountContents` | qedsvm-rs/src/serialize.rs:74-81 | the count word |
| `AccountRoundTrip.PointerReachesRecord` | qedsvm-rs/src/serialize.rs:129-134 | each SIMD-0449 entry is the aligned address of a full record with the reference's key, a duplicate's of its original |
| `AccountLayout.OffsetAligned` | qedsvm-rs/src/serialize.rs:115-134 | every record and the trailer start at a multiple of 8 |
| `AccountBuffer.AlignedInputOffsets` | qedsvm-rs/qed-analysis/src/input_layout.rs:9-28 | fails exactly when the instruction data would start past the 64-bit range; otherwise all positions |
| `AccountBuffer.OffsetsMatchIff` | qedsvm-rs/qed-analysis/src/input_layout.rs:9-28 | the predicted positions are the serializer's if and only if no account is listed twice |
| `AccountBuffer.PredictedPositionsHold` | qedsvm-rs/qed-analysis/src/input_layout.rs:9-28 | at the predicted positions of a serialized buffer are the accounts' and the instruction's data |
| `Profile.FoldTrace` | qedsvm-rs/qed-analysis/src/profile.rs:55-89 | each stack line once with the number of steps charged to it, most visited first; weights sum to the trace length |
| `Profile.ChargedStackIsMachineStack` | qedsvm-rs/qed-analysis/src/profile.rs:64-85 | in every run the stack charged at a step is the machine's call stack unless an earlier local call went to the next instruction |
| `Profile.DepthsAgreeIff` | qedsvm-rs/qed-analysis/src/profile.rs:64-85 | charged and real depth agree throughout a run if and only if no local call targets pc + 1 |
| `Profile.CallNextExists` | qedsvm-rs/qed-analysis/src/profile.rs:74-82 | a run with such a call exists |

## Left out

- Lean text: rendered strings, tactics and token replacement; two renderings are equal here when the expressions are, and variable names are structured values.
- Lift.StepSound: syscalls, sysvars and the blob atoms they add are not modelled; 32-bit sums, differences and products are sign-extended, as in `SVM/SBPF/Machine.lean`, and the bytecode verifier's rejection of zero immediate divisors and odd swap widths is a condition on the path.
- Lift.SymbolicExecutionSound: assumes that a bare variable reloaded at a narrow width fits it; the lifter records no such hypothesis, and the condition is exact for agreement after every instruction (`Lift.FollowsIff`).
- SymStateClass.BuildPostAtoms: blob, 32-byte and return-data atoms are not modelled.
- LiftInvariants.SameRootSeparated: needs displacements away from the ends of the signed 64-bit range (`SpanGaps.WrappedSpanAccepted`); cells on different roots are told apart by the precondition's separation.
- LiftRetry.RetryGains: the cap of eight passes and whether it is ever reached are not modelled, nor are blob splits.
- BranchCandidates.SolvableIff: a hypothesis whose free variable is on the source side only is not covered.
- LiftCoverage.PreconditionCovers: separation between different roots is not part of what every state satisfies; `ObservedPrecondition` assumes it.
- SymExpr.SolveSound: the environment is passed as a value, not updated in place.
- Overflow of `usize` and `i64`: plain additions of the source on lengths, offsets and displacement sums are unbounded here, except where the code wraps or checks; cursor positions plus absurd lengths do not overflow.
- SymStateClass.SymState.HotSlot: hot regions and blob splits are lists and maps in one state record; alias equations stay pending over the path instead of being drained at each instruction.
- BranchWitness.BuildBranchWitness: classes are visited in any order, pool and variables are neither sorted nor freed of repetitions, and the emitted text with its load-bound conjuncts is not modelled.
- SatWitness.BuildSatWitness: abstraction parameters, blob, 32-byte and return-data atoms are not modelled.
- Outcomes.R0WriteExact: an instruction other than the three moves of an immediate may leave any value in r0.
- LiftErrors.PathErrsIff: which of the two kinds of error is recorded is not stated, and footprints end in signed words, as in `SpanGaps.WrappedSpanAccepted`.
- Cfg.Build: starts from the decoded flow of each instruction; decoding, the syscall table and the entry lookup are not modelled, nor are reachable functions and panic sites.
- SuccessPaths.Accept: schema version, artifact hash, bytecode version, readable fields and description texts are not checked here.
- PcMap.NewAddresses: address normalisation for the legacy debug encoding, and everything else about DWARF and ELF, is not modelled.
- AccountBuffer.SerializeParameters: byte vectors are at most `isize::MAX` long.
- Profile.FoldTrace: the naming of program counters is any function; symbol lookup is not modelled.
- The Lean bridge, foreign calls, cryptography, account-change rules, IDL, JSON and TOML parsing, the command line and the differential test tools.
