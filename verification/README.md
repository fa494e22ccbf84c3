# Verification models of EBMC's model-checking core

The modules here model the algorithms of a hardware model checker as finite transition systems,
clause sets and Boolean functions, and prove what the algorithms are for.

* **IC3** (`Ic3*.dfy`, `Vectors.dfy`): the property-directed reachability solver with delta-encoded
  frames, frame solvers built on demand, subsumption with signatures, a queue of proof obligations,
  literal dropping and clause propagation, and the engine that records verdicts. A netlist has a
  next-state signal per latch over (latches, inputs), an initial predicate over latches and a property
  over (latches, inputs).
* **Recurrence diameter** (`PropSolver.dfy`, `BitonicNetwork.dfy`, `Diameter.dfy`): the bitonic sorting
  network emitted as clauses, compared with the quadratic formula.
* **Binary32 adder** (`Binary32.dfy`, `FpUnpacked.dfy`, `FpAdder.dfy`): the dual-path adder against
  sections 3.4, 4.3, 5.4.1 and 6.1 to 6.3 of IEEE 754-2008, in all five rounding modes. Magnitudes are
  integers in units of a small power of two, so no rounding is hidden in the model.
* **Liveness to safety** (`LivenessToSafety.dfy`): loop detection and the rewriting of GF p.
* **AIGER** (`Aiger*.dfy`): definedness and cycle checks, renumbering along the cone of influence, and the binary
  gate section.
* **CTL** (`CtlSemantics.dfy`, `BddModelChecker.dfy`, `BddEngine.dfy`): fixed points over BDDs (sets of
  assignments) against path semantics, and the backward search for AG p.
* **Smaller transformations** (`BmcStrengthening.dfy`, `CompletenessThreshold.dfy`, `ThresholdAttained.dfy`, `CubeSet.dfy`,
  `PastInstrumentation.dfy`).

`Powers.dfy`, `Sequences.dfy`, `Options.dfy` and `PropertyStatus.dfy` are shared. `dafny verify dfyconfig.toml` checks everything.

Objects whose methods update fields are classes (`Ic3Solver`, `Prop`, `UnpackedFloat`, `Translator`,
`Aiger`, `Sink`, `Reader`, `Solver`, `CubeSet`); in-place algorithms on vectors use arrays.
Decision procedures have bodies that enumerate assignments, so nothing about them is assumed; their
callers rely only on the stated answers (a satisfying assignment, or a sufficient subset of the
assumptions). C++ `unsigned`, `uint32_t` and bit-field arithmetic is written out where it can wrap.

## Where the code and its description part

* `add` gives (+0) + (-0) the sign -0 in all modes but RTN, because the signs are combined with `|`
  where the standard asks for `&`, and +0 in RTN, where it asks for -0 (`fp_adder.c:656-662`).
  `FpAdder.Add` states exactly when the sign of a zero is right; `FpAdder.ZeroSignFails` gives the input.
* In RTP, RTN and RTZ a result whose operands have exponents more than 26 apart is returned unrounded
  (`fp_adder.c:546-550`). `FpAdder.Add` states exactly when such a result is right: when the smaller operand
  does not move the sum in the direction of the mode. `FpAdder.DirectedFails` gives an input.
* The comment at `completeness_threshold.cpp:249` says that a property proved up to bound k is proved
  if k >= CT. The code upgrades when CT >= k instead. As k is the largest threshold this upgrades
  soundly, but only the properties with the largest threshold; all others are set back to unknown.
  `CompletenessThreshold.Upgrade` states this.
* `cmp_lhs` subtracts two literals after converting them to `int`. For literals on both sides of 2^31 the
  difference overflows or has the wrong sign (`AigerGateOrder.CmpLhsOrdersIff`, `AigerGateOrder.CmpLhsFails`), so
  reencoding is defined only if the gates that are kept, which are those in the cone of the roots, lie on one side;
  `AigerReencoding.Reencode` states exactly when, in terms of the network before the call.
* `check_AGp` projects the current inputs away in EX. An initial condition over an input can then hold with another
  input than the step that follows, and the search reports a violation that no run has
  (`BddEngine.InitialInputForgotten`). `BddEngine.CheckAGp` is exact for trails, which choose inputs step by step.
* `aiger_read_delta` accepts five-byte codes above 32 bits and cuts them, and shifts by 35 when a sixth and last
  byte is below 8 (`AigerBinary.CompleteOutcome`, `AigerBinary.ReadsMeaningIff`, `AigerBinary.OverlongCodes`). Its
  shifts are of `int`: from 2^31 on the fifth one overflows (`AigerBinary.ShiftsFitIff`).
* `aiger_is_reencoded` tests `lhs < rhs0` where it means `lhs <= rhs0`; for acyclic networks there is no
  difference (`AigerCanonical.ReencodedIsCanonical`).
* The support test of the liveness translation accepts `always eventually[m:n] p`, which is then converted to an
  expression with one operand and has three (`liveness_to_safety.cpp:118-124, 271`):
  `LivenessToSafety.Translator.Translate` gives this an outcome of its own.
* `model_past` maps `$past(x, 0)` to `x` as it stands, so a `$past` inside `x` survives the replacement
  (`PastInstrumentation.NestedPastStays`); `PastInstrumentation.ResolvedIff` states exactly when none survives.

## Model

| member | source | states |
|---|---|---|
| `Ic3Solver.Ic3Solver.Solve` | src/new-ic3/ic3_solver.cpp:769-860 | Total correctness of the main loop: it terminates, PROVED implies that no run of any length under any inputs violates the property, and REFUTED(len) implies that a run of exactly len states from an initial state does |
| `Ic3Solver.Ic3Solver.BlockingPhase` | src/new-ic3/ic3_solver.cpp:799-846 | Ends, and either a genuine counterexample of the reported length exists or every state of F_k satisfies the property under every input; the number of frames is unchanged |
| `Ic3Solver.Ic3Solver.BlockObligations` | src/new-ic3/ic3_solver.cpp:805-845 | Working the queue down from one bad cube ends (lexicographic measure: clauses not yet subsumed, blocked obligations, lowest level in the queue); without a refutation some clause that was open is now subsumed |
| `Ic3Solver.Ic3Solver.Discharge` | src/new-ic3/ic3_solver.cpp:809-844 | One obligation: keeps all frame invariants and the meaning of every obligation (valid cube, level at most k, every state of the cube reaches a violation in exactly depth steps); refutation gives a run of depth + 1 states; otherwise the termination measure drops |
| `Ic3Solver.Ic3Solver.BlockOrDescend` | src/new-ic3/ic3_solver.cpp:830-844 | Either queues a predecessor with depth + 1 one level down next to the unchanged obligation, or blocks the cube and requeues it one level up unless it is already at k; the measure drops |
| `Ic3Solver.Ic3Solver.Propagate` | src/new-ic3/ic3_solver.cpp:699-748 | True only if some delta between F_1 and the last frame is empty; false only if every frame from F_1 on is strictly contained in the next; frames only shrink |
| `Ic3Solver.Ic3Solver.PropagateLevel` | src/new-ic3/ic3_solver.cpp:701-745 | Only F_{i+1} can lose states, and every clause that stays in the delta of F_i is violated by some successor of F_i |
| `Ic3Solver.Ic3Solver.CanPush` | src/new-ic3/ic3_solver.cpp:708-728 | The query with its constant-literal shortcuts answers yes exactly when every successor of F_i satisfies the clause |
| `Ic3Solver.Ic3Solver.AddClause` | src/new-ic3/ic3_solver.cpp:314-346 | Frames up to the level lose exactly the states of the blocked cube, all others lose nothing; the clause is subsumed at its level afterwards; frame invariants and agreement of all built solvers with their frames survive the deletion of subsumed clauses |
| `Ic3Solver.Ic3Solver.IsBlocked` | src/new-ic3/ic3_solver.cpp:348-359 | The signature-filtered search answers exactly whether some clause at the level or above is a subset, as a literal set, of the negated cube |
| `Ic3Solver.Ic3Solver.GetSolver` | src/new-ic3/ic3_solver.cpp:296-312 | The solver built on first use holds exactly the states of its frame, with the initial condition at level 0, and is kept |
| `Ic3Solver.Ic3Solver.RelativeInduction` | src/new-ic3/ic3_solver.cpp:478-559 | Unsatisfiable: core is a part of the cube, disjoint from the initial states and inductive relative to F_level. Satisfiable: the predecessor meets F_level and each of its states, lifted or not, steps into the cube under some input |
| `Ic3Solver.Ic3Solver.SolveRelative` | src/new-ic3/ic3_solver.cpp:561-568 | No predecessor means the core is relatively inductive; a returned predecessor cube lies on the way into the cube |
| `Ic3Solver.Ic3Solver.Lift` | src/new-ic3/ic3_solver.cpp:421-476 | The lifted cube is a part of the full state, not empty unless there are no latches, and every state in it makes the whole target clause false under the same input |
| `Ic3Solver.Ic3Solver.SolveBad` | src/new-ic3/ic3_solver.cpp:570-589 | A returned cube meets F_level and each of its states violates the property under some input; none returned means F_level satisfies the property under every input |
| `Ic3Solver.Ic3Solver.InitIntersects` | src/new-ic3/ic3_solver.cpp:367-397 | The syntactic check against forced values with its fallback query answers exactly whether some initial state lies in the cube |
| `Ic3Solver.Ic3Solver.RepairInit` | src/new-ic3/ic3_solver.cpp:399-419 | Adds literals of the cube back until the core avoids the initial states, never drops one, and never falls through to the unreachable end |
| `Ic3Solver.Ic3Solver.CtgDown` | src/new-ic3/ic3_solver.cpp:591-641 | Ends; success gives a part of the candidate that avoids the initial states and is inductive relative to F_level; frames only shrink, whatever the budget |
| `Ic3Solver.Ic3Solver.Generalize` | src/new-ic3/ic3_solver.cpp:643-697 | Literal dropping keeps the cube a part of the start cube, disjoint from the initial states and relatively inductive |
| `Ic3Solver.Ic3Solver.InitialStateIsBad` | src/new-ic3/ic3_solver.cpp:361-365 | True exactly when a counterexample with one state exists |
| `Ic3Solver.Ic3Solver.NewFrame` | src/new-ic3/ic3_solver.cpp:280-283 | Appending an empty delta keeps every invariant |
| `Ic3Solver.Ic3Solver.constructor` | src/new-ic3/ic3_solver.cpp:176-211 | The start state satisfies all invariants: the initial values recorded as forced are forced, and uniqueness is claimed only of a nonempty, fully forced initial set |
| `Ic3Solver.CoreExcludes` | src/new-ic3/ic3_solver.cpp:522-535 | The literals selected from a conflict form a core that no state of F_level outside the cube can step into; an empty selection means the whole cube is inductive |
| `Ic3Clause.Subsumes` | src/new-ic3/ic3_solver.cpp:83-97 | With the length and 64-bit signature rejections, the test is exactly inclusion of literal sets |
| `Ic3Clause.SignatureMonotone` | src/new-ic3/ic3_solver.cpp:61-64 | Inclusion of literal sets implies inclusion of signatures, so the early rejection loses nothing |
| `Ic3Clause.MakeFrameClauseValid` | src/new-ic3/ic3_solver.cpp:55-64 | Sorting by literal code yields a strictly sorted clause with the same literals and its signature |
| `Ic3Clause.NegateMeaning` | src/new-ic3/ic3_solver.cpp:72-79 | The negated cube holds as a clause exactly where the cube does not |
| `Ic3Frames.InstalledKeepsInvariant` | src/new-ic3/ic3_solver.cpp:326-345 | Storing the negation of a relatively inductive cube that avoids the initial states, and deleting what it subsumes, keeps initiation, consecution and monotonicity of all frames |
| `Ic3Frames.InstalledMeaning` | src/new-ic3/ic3_solver.cpp:326-345 | State by state, deletion of subsumed clauses plus the new clause is the same as adding the clause to all frames up to the level |
| `Ic3Frames.PushedKeepsInvariant` | src/new-ic3/ic3_solver.cpp:728-740 | Moving a clause that holds after every step from F_i up one level keeps the frame invariants |
| `Ic3Frames.PushedMeaning` | src/new-ic3/ic3_solver.cpp:728-740 | Moving a clause up changes F_{i+1} only, by exactly that clause |
| `Ic3Frames.RunInsideFrame` | src/new-ic3/ic3_solver.cpp:743-744 | Once a delta is empty, every run from an initial state stays in that frame for ever |
| `Ic3Frames.ConvergenceProves` | src/new-ic3/ic3_solver.cpp:848-858 | An empty delta below a last frame inside the property makes the property hold on all runs |
| `Ic3Termination.OpenFromDrops` | src/new-ic3/ic3_solver.cpp:836-840 | Subsuming a clause that was open lowers the number of open clauses over all levels, which never grows otherwise |
| `Ic3Termination.FrameBound` | src/new-ic3/ic3_solver.cpp:782-859 | Strictly growing frames over n latches number at most 2^n + 2, counting F_0 |
| `Ic3Termination.UnpushedSeparates` | src/new-ic3/ic3_solver.cpp:727-745 | A clause that cannot be pushed is witnessed by a state that is in F_{i+1} and not in F_i |
| `Ic3Netlist.Netlist.ReachesBadPath` | src/new-ic3/ic3_solver.cpp:754-761 | A state at depth d starts an actual path of d + 1 states whose last one violates the property |
| `Ic3Netlist.Netlist.BadFromInit` | src/new-ic3/ic3_solver.cpp:815-822 | An initial state at depth d gives a counterexample of exactly d + 1 states |
| `Ic3Engine.NewIc3Engine` | src/new-ic3/new_ic3_engine.cpp:44-133 | Over the statuses alone: an error exactly if a property that is no assumption is unknown, unsupported, failed or inconclusive and some property is assumed; without that error every unknown property gets the verdict that is true of it, path properties with the dual verdict, unsupported ones fail, the rest is untouched, and none that is no assumption is left unknown |
| `Ic3Engine.Check` | src/new-ic3/new_ic3_engine.cpp:106-129 | PROVED exactly when the property holds, REFUTED otherwise, for universal and exists-path properties |
| `Diameter.EfficientDiameter` | src/ebmc/diameter.cpp:449-465 | For any number of states above one and in every model of the clauses, the sorted-neighbours literal is true exactly when all states are distinct; all added clauses are definitional, so every earlier model extends |
| `Diameter.SimpleDiameter` | src/ebmc/diameter.cpp:55-68 | The all-pairs literal is true, in every model, exactly when all states are distinct; the two formulas therefore mean the same |
| `Diameter.BitonicSort` | src/ebmc/diameter.cpp:393-414 | For every length, power of two or not, and both directions: in every model the range is a sorted permutation of what was there and everything outside it is unchanged |
| `Diameter.SortFour` | src/ebmc/diameter.cpp:397-406 | The five-comparator network sorts four words in either direction |
| `Diameter.MergeRuns` | src/ebmc/diameter.cpp:408-412 | One run sorted against the direction followed by one sorted along it are merged into a sorted permutation |
| `Diameter.BitonicMerge` | src/ebmc/diameter.cpp:338-353 | In place, in every model, the truncated merge network applied to the numbers the words denote |
| `Diameter.HalfCleanInPlace` | src/ebmc/diameter.cpp:346-348 | The comparator row of one merge step, with comparators beyond high left out |
| `Diameter.Compare` | src/ebmc/diameter.cpp:269-320 | In every model the two words hold the smaller and the larger of the two numbers, by direction; all other words stay |
| `Diameter.CompareWords` | src/ebmc/diameter.cpp:293-317 | The bit-serial on-line comparison outputs minimum and maximum of the two numbers |
| `Diameter.CompareBit` | src/ebmc/diameter.cpp:305-316 | One bit of the on-line comparison: the new flags and output bits in terms of the old flags and input bits |
| `Diameter.Power2` | src/ebmc/diameter.cpp:367-374 | The least power of two that is at least the argument |
| `Diameter.Comparator` | src/ebmc/diameter.cpp:27-41 | The literal is true in a model exactly when the two words denote the same number |
| `Diameter.NeighboursSuffice` | src/ebmc/diameter.cpp:449-465 | In a sorted rearrangement neighbours differ exactly when all elements of the original are distinct |
| `BitonicNetwork.MergeSorts` | src/ebmc/diameter.cpp:338-353 | The truncated merge network sorts a descending-then-ascending range of any length, in both directions |
| `BitonicNetwork.FullMergeSorts` | src/ebmc/diameter.cpp:338-353 | The untruncated merge network sorts every bitonic sequence, by the threshold argument |
| `BitonicNetwork.MergeIsFullMerge` | src/ebmc/diameter.cpp:346-351 | The truncated network is the full network on the range padded with values that no comparator moves |
| `BitonicNetwork.MergePermutes` | src/ebmc/diameter.cpp:338-353 | The merge network permutes its range and leaves the rest alone |
| `BitonicNetwork.MergeNegated` | src/ebmc/diameter.cpp:338-353 | Reversing the direction is negating all numbers |
| `BitonicNetwork.FourSortSorts` | src/ebmc/diameter.cpp:397-406 | The five exchanges sort any four numbers |
| `FpAdder.Add` | examples/fp_adder/fp_adder.c:689-702 | For all binary32 encodings and all five modes: the result is the exact sum rounded as the mode asks (nearest with ties to even or away, least above, greatest below, truncated; overflow, subnormals, specials), up to NaN payload and zero sign, if and only if the mode does not leave it unrounded, which never happens in RNE and RNA; in every mode the sign of an exact zero conforms to section 6.3 of IEEE 754-2008 if and only if the operands are not two zeros of opposite sign |
| `FpAdder.Sub` | examples/fp_adder/fp_adder.c:705-718 | The same for the difference, with the second sign flipped |
| `FpAdder.PackerSpec` | examples/fp_adder/fp_adder.c:729-739 | Packing what was unpacked gives the encoding back, up to the payload of a NaN |
| `FpAdder.UnpackFloat` | examples/fp_adder/fp_adder.c:206-251 | The unpacked fields satisfy the invariants of check and hold exactly the value of the encoding, subnormals normalised |
| `FpAdder.Pack` | examples/fp_adder/fp_adder.c:254-283 | The encoding holds exactly the unpacked value, also for a subnormal that rounding turned into zero |
| `FpAdder.DualPathAdder` | examples/fp_adder/fp_adder.c:414-621 | On nonzero finite operands: RNE and RNA deliver the correctly rounded exact sum at any scale; a directed mode does unless the exponents are more than 26 apart and the smaller operand moves the sum in its direction, and then the result lies on the wrong side; an exact zero is positive unless rounding toward negative |
| `FpAdder.AddOrdered` | examples/fp_adder/fp_adder.c:473-620 | For ordered operands all paths return the exact result rounded by the mode with the sign kept, except that a difference above 26 returns the larger operand as it is, which a directed mode forbids exactly if it does not round that way |
| `FpAdder.CancelOrdered` | examples/fp_adder/fp_adder.c:474-533 | The near subtraction returns the exact difference rounded by the mode, including full and partial cancellation |
| `FpAdder.NearSubtract` | examples/fp_adder/fp_adder.c:486-533 | Fully cancelled gives the zero of the mode; 26 bits are rounded; partial cancellation is exact without the rounder |
| `FpAdder.CancelledIsExact` | examples/fp_adder/fp_adder.c:515-532 | A normalised difference below 2^-126 on the subnormal grid fits the subnormal format exactly |
| `FpAdder.FarKeeps` | examples/fp_adder/fp_adder.c:546-550 | With an exponent difference above 26 the larger operand is the correctly rounded result in RNE and RNA, also just below a power of two |
| `FpAdder.FarDirected` | examples/fp_adder/fp_adder.c:546-550 | In a directed mode the larger operand is right exactly if it is the neighbour the mode rounds to, also at the bottom of its binade, and on the wrong side otherwise |
| `FpAdder.FiniteDelivers` | examples/fp_adder/fp_adder.c:689-718 | On finite operands the packed result is the rounded exact sum if and only if the mode does not leave it unrounded |
| `FpAdder.DirectedFails` | examples/fp_adder/fp_adder.c:546-550 | 1 + 2^-27 toward positive is left unrounded, and 1 is not its rounding |
| `FpAdder.ZeroSignFails` | examples/fp_adder/fp_adder.c:656-662 | (+0) + (-0) is a zero with the opposite of the sign that the standard asks for, in every mode |
| `FpAdder.ExponentMatches` | examples/fp_adder/fp_adder.c:430-449 | The exponent difference the adder computes is that of the leading digits of the encodings, subnormals included |
| `FpAdder.Align` | examples/fp_adder/fp_adder.c:554-575 | The sticky, sign-extending shift loop computes the floor of the signed quotient by 2^difference, and the sticky bit says exactly whether something was lost |
| `FpAdder.ArithmeticShift` | examples/fp_adder/fp_adder.c:566-571 | One conditional shift of a 32-bit two's complement word is a floor division of the value it stands for |
| `FpAdder.AddAligned` | examples/fp_adder/fp_adder.c:578-620 | The aligned sum, effective addition or subtraction, is normalised and rounded correctly in every mode |
| `FpAdder.NormaliseSum` | examples/fp_adder/fp_adder.c:582-606 | The sum becomes 27 bits wide with the exponent adjusted, at unchanged value |
| `FpAdder.Extract` | examples/fp_adder/fp_adder.c:609-618 | Significand, guard and sticky bits handed to the rounder are those of the exact value |
| `FpAdder.AddUnit` | examples/fp_adder/fp_adder.c:624-685 | NaN, infinity and zero operands by case; the rest is rounded, or left on the wrong side exactly in the directed far cases; an exact zero carries the sign the code computes |
| `FpUnpacked.UnpackedFloat.Rounder` | examples/fp_adder/fp_adder.c:307-409 | For every mode the fields left behind can be packed; for RNE and RNA they are the correct rounding of any value with the given digits, guard and sticky bit, through subnormals, underflow to zero and overflow; for a directed mode they are unless the value lies below 2^-150 and the mode rounds its magnitude up, where the zero returned is wrong |
| `FpUnpacked.UnpackedFloat.NormaliseUp` | examples/fp_adder/fp_adder.c:178-203 | The binary-search shift makes the leading bit one at unchanged value |
| `FpUnpacked.UnpackedFloat.RoundInc` | examples/fp_adder/fp_adder.c:288-304 | Incrementing at one bit, with the carry into the exponent, never leaves 24 bits |
| `FpUnpacked.UnpackedFloat.CorrectBits` | examples/fp_adder/fp_adder.c:309-331 | For subnormals guard, sticky and increment are recomputed for the coarser grid |
| `FpUnpacked.NormalRounding` | examples/fp_adder/fp_adder.c:335-374 | The guard and sticky decision rounds a normal value correctly |
| `FpUnpacked.SubnormalRounding` | examples/fp_adder/fp_adder.c:317-348 | The corrected decision rounds a value on the subnormal grid correctly, including a carry into the normal range |
| `FpUnpacked.NormalDirected` | examples/fp_adder/fp_adder.c:350-402 | A directed mode steps a normal value up or truncates it correctly, with infinity or the largest finite number beyond the range |
| `FpUnpacked.SubnormalDirected` | examples/fp_adder/fp_adder.c:317-358 | The corrected digits give the directed neighbour on the subnormal grid |
| `FpUnpacked.TinyRounding` | examples/fp_adder/fp_adder.c:311-315 | Below 2^-150 zero is the correct rounding |
| `FpUnpacked.NormalOverflow` | examples/fp_adder/fp_adder.c:369-375 | The rounded exponent exceeds 127 exactly when the value reaches the overflow threshold of the standard |
| `Binary32.RoundOnGrid` | examples/fp_adder/fp_adder.c:335-348 | Deciding by guard, sticky and last digit is rounding to nearest on any grid that contains all floats near by |
| `Binary32.SignedDirected` | examples/fp_adder/fp_adder.c:350-365 | Rounding magnitudes up or down by the sign is rounding toward positive, negative or zero |
| `LivenessToSafety.TranslationExact` | src/ebmc/liveness_to_safety.cpp:136-307 | For a system with finitely many states: GF p on every infinite run if and only if looped implies live on every finite prefix of the instrumented system |
| `LivenessToSafety.ViolationGivesLasso` | src/ebmc/liveness_to_safety.cpp:111-113 | A violation of the replacement yields an infinite lasso run of the original system on which p does not hold infinitely often |
| `LivenessToSafety.LivenessViolationIsSeen` | src/ebmc/liveness_to_safety.cpp:196-249 | A run on which p holds only finitely often is tracked by an instrumented prefix that saves at the right moment and violates the replacement |
| `LivenessToSafety.SavePoint` | src/ebmc/liveness_to_safety.cpp:199-216 | Whenever saved is set, the loop variables hold the state of an earlier save position and live records whether p held since then |
| `LivenessToSafety.LassoIsRun` | src/ebmc/liveness_to_safety.cpp:233-236 | Repeating the segment between two equal states of a prefix is an infinite run of the system |
| `LivenessToSafety.Returns` | src/ebmc/liveness_to_safety.cpp:136-307 | A run through finitely many states comes back to one it visits at or after any given position |
| `LivenessToSafety.VerdictsPreserved` | src/ebmc/liveness_to_safety.cpp:251-266 | After the rewriting every enabled property has the verdict it had before |
| `LivenessToSafety.Translator.Translate` | src/ebmc/liveness_to_safety.cpp:136-267 | Unchanged exactly if every property is disabled or neither GF p nor ranged; translated exactly if some enabled one is of those forms and all enabled ones are GF p, and then every verdict is preserved; otherwise the first enabled property that is not GF p is named, with the outcome that its form leads to |
| `LivenessToSafety.Translator.AddLoopDetection` | src/ebmc/liveness_to_safety.cpp:142-249 | Turns the original constraints into the instrumentation for no property yet |
| `LivenessToSafety.Translator.TranslateGFp` | src/ebmc/liveness_to_safety.cpp:269-307 | Adds exactly one live bit and replaces exactly that property |
| `AigerLibrary.Aiger.CheckForCycles` | 3p/aiger-1.9/aiger.c:809-885 | From clear marks the stack traversal ends and reports an error if and only if the AND gates contain a cycle, at a gate on a cycle; after success every onstack flag is clear and the gates can be ranked |
| `AigerLibrary.Aiger.Check` | 3p/aiger-1.9/aiger.c:887-904 | No error exactly when every literal that is mentioned belongs to the constant, an input, a latch or a gate and there is no cycle; an undefined variable that is reported is mentioned and not introduced, and a cyclic one lies on a cycle |
| `AigerLibrary.Aiger.TraverseFrom` | 3p/aiger-1.9/aiger.c:830-881 | One depth-first search from a root settles everything below it or finds a gate on a cycle |
| `AigerLibrary.Aiger.Visit` | 3p/aiger-1.9/aiger.c:835-867 | One gate on top of the stack: back edge, dismissal or entering, with a decreasing measure |
| `AigerLibrary.Aiger.Leave` | 3p/aiger-1.9/aiger.c:868-880 | The zero marker pops exactly the entered gate, which becomes finished |
| `AigerLibrary.Aiger.CheckDefined` | 3p/aiger-1.9/aiger.c:701-783 | An error is recorded exactly when some literal of the list is undefined, and names the variable of the first one, which the network does not introduce |
| `AigerLibrary.Aiger.CheckJusticeDefined` | 3p/aiger-1.9/aiger.c:785-807 | An error is recorded exactly when some literal of some justice property is undefined, and names a variable that is mentioned and not introduced |
| `AigerCycles.CycleFound` | 3p/aiger-1.9/aiger.c:838-843 | A marked gate still on the stack lies on a cycle |
| `AigerCycles.AllChecked` | 3p/aiger-1.9/aiger.c:823-828 | When every root has been traversed without error the gates are ranked and acyclic |
| `AigerTraversal.BackEdge` | 3p/aiger-1.9/aiger.c:835-843 | An edge back to an entered gate closes a path of the dependency graph |
| `AigerTraversal.AllDone` | 3p/aiger-1.9/aiger.c:870-879 | When a marker is popped, all gates feeding the popped gate are finished |
| `AigerNetwork.RankedAcyclic` | 3p/aiger-1.9/aiger.c:809-885 | A ranking excludes cycles |
| `AigerNetwork.FinishedRanks` | 3p/aiger-1.9/aiger.c:868-880 | Finishing order is a ranking |
| `AigerNetwork.ValuationExists` | 3p/aiger-1.9/aiger.c:1364-1468 | An acyclic network has a consistent valuation for all input and latch values |
| `AigerNetwork.ValuationUnique` | 3p/aiger-1.9/aiger.c:1364-1468 | and only one |
| `AigerReencoding.Reencode` | 3p/aiger-1.9/aiger.c:1478-1670 | On every checked network: the outcome is defined if and only if the network is in canonical numbering already, or its code table has a representable size and the leaves and the gates in the cone of the roots put all gate literals on one side of 2^31; less than 2^30 inputs, latches and gates and maxvar below 2^31 - 1 are enough. Then it is canonical and still checked; a network that was canonical is left as it was, dead gates included, and for all input and latch values every next-state, reset, output, bad, constraint, justice and fairness literal evaluates as before; a rewriting keeps as many gates as the cone has, and every gate it keeps is needed for a root |
| `AigerReencoding.Rewrite` | 3p/aiger-1.9/aiger.c:1494-1657 | The renumbering pass itself: it keeps exactly the cone of the roots; qsort is given gates it can order if and only if the literals of the leaves and the cone lie on one side of 2^31, and then the network is canonical, has the same behaviour, no gate without a root that needs it, and never more variables |
| `AigerReencoding.BehaviourDetermined` | 3p/aiger-1.9/aiger.c:1491-1492 | A checked network determines its roots, so returning early keeps the behaviour |
| `AigerReencoding.RenameRoots` | 3p/aiger-1.9/aiger.c:1498-1574 | The code table numbers the leaves first and then exactly the gates that some root depends on, in topological order, and every root literal is the renamed old one |
| `AigerReencoding.RenameAll` | 3p/aiger-1.9/aiger.c:1498-1611 | Roots and gates renamed along one numbering, maxvar its length, one gate for each in the cone of the roots, in order if and only if the literals of the leaves and the cone lie on one side of 2^31 |
| `AigerReencode.ReencodeLit` | 3p/aiger-1.9/aiger.c:1364-1468 | Extends the numbering by exactly the cone of the literal, in an order where inputs precede gates, and returns the renamed literal; earlier numbers never change |
| `AigerReencode.NumberCone` | 3p/aiger-1.9/aiger.c:1385-1455 | The stack traversal ends with exactly the gate and what it depends on numbered in addition |
| `AigerCone.ConeSize` | 3p/aiger-1.9/aiger.c:1498-1607 | A numbering of the leaves and the cone of the roots has as many gates as the cone |
| `AigerKeptCone.KeptIsNeeded` | 3p/aiger-1.9/aiger.c:1498-1607 | After renumbering along the leaves and the cone every gate is needed for some root |
| `AigerReencode.PushChildren` | 3p/aiger-1.9/aiger.c:1416-1440 | Pushes exactly the gate inputs that are neither leaves nor on the stack, the larger variable first |
| `AigerReencode.NewCode` | 3p/aiger-1.9/aiger.c:1353-1362 | Gives both literals of a variable the next two codes |
| `AigerReencode.LeaveGate` | 3p/aiger-1.9/aiger.c:1442-1451 | A popped gate has all its inputs numbered and gets the next code |
| `AigerRenumbering.RenumberingKeepsBehaviour` | 3p/aiger-1.9/aiger.c:1478-1670 | Networks related by a topological numbering that keeps the leaves in order compute the same roots |
| `AigerRenumbering.RenumberingIsCanonical` | 3p/aiger-1.9/aiger.c:1578-1607 | and the renumbered one has consecutive left-hand sides with lhs > rhs0 >= rhs1 |
| `AigerRenumbering.NumberLeaves` | 3p/aiger-1.9/aiger.c:1500-1522 | Inputs and then latches get the codes from 2 on |
| `AigerRenumbering.ReencodeList` | 3p/aiger-1.9/aiger.c:1538-1574 | Every literal of a list is renamed along one numbering, extended by exactly the cone of the list |
| `AigerRenumbering.ReencodeLatches` | 3p/aiger-1.9/aiger.c:1527-1536 | Next-state and reset literals are renamed along one numbering, extended by exactly their cone; latch literals wait |
| `AigerRenumbering.ReencodeJustice` | 3p/aiger-1.9/aiger.c:1559-1567 | Every literal of every justice property is renamed, and exactly the cone of these literals is added |
| `AigerRewrite.ReencodeRoots` | 3p/aiger-1.9/aiger.c:1527-1574 | All root literals are renamed along one numbering, extended by exactly the cone of the roots |
| `AigerRewrite.ReencodeGates` | 3p/aiger-1.9/aiger.c:1578-1607 | Dropping unnumbered gates in place leaves one gate for each numbered one; ordering right-hand sides and sorting gives the renumbered gates in order if and only if their literals lie on one side of 2^31 |
| `AigerNumbering.ValuesKept` | 3p/aiger-1.9/aiger.c:1364-1468 | The gate that gets number i evaluates as the gate it came from |
| `AigerGateOrder.CmpLhsOrdersIff` | 3p/aiger-1.9/aiger.c:1470-1476 | The difference of the signed conversions fits an int and orders two left-hand sides correctly if and only if their top bits agree; it overflows exactly for left-hand sides on both sides of 2^31 that are near enough |
| `AigerGateOrder.CmpLhsFails` | 3p/aiger-1.9/aiger.c:1470-1476 | 2^31 - 2 against 2^31 overflows, in both orders; 2 against 2^31 + 4 is defined and wrong |
| `AigerGateOrder.ComparableIff` | 3p/aiger-1.9/aiger.c:1576-1607 | The comparison is defined and right on all pairs of kept gates if and only if their literals lie on one side of 2^31: gates on both sides include two neighbours whose comparison overflows |
| `AigerGateOrder.SortedGates` | 3p/aiger-1.9/aiger.c:1607 | Where the comparison orders them, sorting puts the kept gates in numbering order |
| `AigerCanonical.IsReencoded` | 3p/aiger-1.9/aiger.c:1307-1351 | The scan with its early exits and the independently computed start of the left-hand sides answers the conjunction of its tests |
| `AigerCanonical.ReencodedIsCanonical` | 3p/aiger-1.9/aiger.c:1307-1351 | For acyclic networks the tests, with their non-strict first comparison, mean canonical numbering with lhs > rhs0 |
| `AigerCanonical.MaxInputOrLatch` | 3p/aiger-1.9/aiger.c:1281-1305 | The largest input or latch literal, zero without any |
| `AigerCanonical.FixTypes` | 3p/aiger-1.9/aiger.c:1613-1655 | Types, indices and leaf literals match the renumbered network |
| `AigerBinary.DeltaRoundTrip` | 3p/aiger-1.9/aiger.c:2288-2331 | Reading the code of any 32-bit value returns the value and leaves the reader just past it |
| `AigerBinary.CodeMeaning` | 3p/aiger-1.9/aiger.c:950-969 | What is written for a number is a complete code that stands for it, and no shorter complete code does |
| `AigerBinary.WriteDelta` | 3p/aiger-1.9/aiger.c:950-969 | Puts exactly the code of the value and fails exactly when the sink is too small, leaving a prefix |
| `AigerBinary.Reader.ReadDelta` | 3p/aiger-1.9/aiger.c:2288-2331 | The reading loop computes the parse of the bytes at its position |
| `AigerBinary.ParseMeaning` | 3p/aiger-1.9/aiger.c:2306-2328 | An accepted code is one complete group sequence, and its value is the base-128 number with every shift cut to 32 bits |
| `AigerBinary.ReadsMeaningIff` | 3p/aiger-1.9/aiger.c:2306-2328 | A complete code is read as the number it stands for if and only if it has at most five groups and the number is below 2^32 |
| `AigerBinary.CompleteOutcome` | 3p/aiger-1.9/aiger.c:2306-2328 | A complete code is read up to its end if it has at most five groups; a sixth and last group below 8 reaches the undefined shift; every other complete code is rejected |
| `AigerBinary.UnfinishedOutcome` | 3p/aiger-1.9/aiger.c:2306-2319 | Continuation bytes up to the end of the data are an unexpected end for at most five groups and an invalid code otherwise |
| `AigerBinary.CompleteOrUnfinished` | 3p/aiger-1.9/aiger.c:2306-2328 | At every position the bytes start with a complete code or are continuation bytes to the end, so the two cases are all there are |
| `AigerBinary.ShiftsFitIff` | 3p/aiger-1.9/aiger.c:2315-2325 | For a complete code the shifts of the promoted groups all fit an int if and only if it has at most five groups and its number is below 2^31 |
| `AigerBinary.OverlongCodes` | 3p/aiger-1.9/aiger.c:2310-2325 | Five groups can be read as zero although they denote 2^32, and a sixth byte reaches a shift by 35 |
| `AigerBinary.SectionRoundTrip` | 3p/aiger-1.9/aiger.c:2333-2372 | Reading back the gate section of an ordered network gives exactly its gates |
| `AigerBinary.WriteAnds` | 3p/aiger-1.9/aiger.c:1695-1712 | Writes exactly the section of the gates, or fails exactly when it does not fit |
| `AigerBinary.ReadAnds` | 3p/aiger-1.9/aiger.c:2342-2369 | The reading loop with its two delta checks computes the parse of the section; it succeeds with the gates whose codes stand in the bytes, and fails only where no such gates stand |
| `AigerBinary.AcceptsIff` | 3p/aiger-1.9/aiger.c:2342-2369 | Gates are accepted if and only if the bytes are, gate by gate, two complete codes of at most five groups whose values lead from the left-hand side to the right-hand sides without going below zero |
| `AigerBinary.InvalidIff` | 3p/aiger-1.9/aiger.c:2352-2364 | An invalid delta is reported if and only if after fewer gates than announced a delta stands that is larger than the literal it is taken from |
| `AigerReencoding.WriteGates` | 3p/aiger-1.9/aiger.c:1695-1714 | What is written for a canonical network of any 32-bit size reads back as the same gates |
| `AigerReencoding.WriteBinary` | 3p/aiger-1.9/aiger.c:1682-1715 | Reencoding and writing: where reencoding is defined, the same behaviour, and the bytes read back as the gates of the reencoded network, which is the old network if that is canonical and has as many gates as the cone of the roots otherwise |
| `BddModelChecker.BddModelChecker.EX` | src/ebmc/bdd_model_checker.cpp:63-79 | The BDD returned is exactly the set of points with a step of the system into f: some choice of the current inputs satisfies the constraints and leads by a transition to a point of f that satisfies the constraints |
| `BddModelChecker.BddModelChecker.EdgeIff` | src/ebmc/bdd_model_checker.cpp:63-79 | The edges of the structure that formulas are about are the steps of the system |
| `BddModelChecker.BddModelChecker.Fixedpoint` | src/ebmc/bdd_model_checker.cpp:48-61 | Ends, and the result is the iterate at which the operator comes to rest |
| `BddModelChecker.BddModelChecker.EF` | src/ebmc/bdd_model_checker.cpp:81-84 | Exactly the points from which some path reaches f |
| `BddModelChecker.BddModelChecker.EG` | src/ebmc/bdd_model_checker.cpp:86-89 | Exactly the points from which some infinite run stays in f |
| `BddModelChecker.BddModelChecker.EU` | src/ebmc/bdd_model_checker.cpp:91-95 | Exactly the points with a path through f1 to f2 |
| `BddModelChecker.BddModelChecker.AU` | src/ebmc/bdd_model_checker.cpp:97-101 | Exactly the points where no infinite run avoids f2 and no path leaves f1 before f2 |
| `BddModelChecker.BddModelChecker.AX` | src/ebmc/bdd_model_checker.h:50 | Exactly the points all of whose successors are in f |
| `BddModelChecker.BddModelChecker.AF` | src/ebmc/bdd_model_checker.h:51 | Exactly the points from which every infinite run meets f |
| `BddModelChecker.BddModelChecker.AG` | src/ebmc/bdd_model_checker.h:52 | Exactly the points from which no path leads to a point outside f |
| `BddModelChecker.BddModelChecker.ER` | src/ebmc/bdd_model_checker.h:53 | Exactly the points from which some infinite run stays in f2 or some path stays in f2 until both f1 and f2 hold |
| `BddModelChecker.BddModelChecker.AR` | src/ebmc/bdd_model_checker.h:54 | Exactly the points from which no path leaves f2 without having met f1 before |
| `BddModelChecker.BddModelChecker.AlwaysEventuallyIsUntil` | src/ebmc/bdd_model_checker.h:51 | AF f, defined by a greatest fixed point, equals AU(true, f), a least one, without assuming totality |
| `BddModelChecker.BddModelChecker.CurrentToNext` | src/ebmc/bdd_model_checker.cpp:17-25 | Substituting variable by variable is moving the whole current valuation to the next one |
| `BddModelChecker.BddModelChecker.ProjectNext` | src/ebmc/bdd_model_checker.cpp:27-35 | Quantifies exactly the next variables |
| `BddModelChecker.BddModelChecker.ProjectInputs` | src/ebmc/bdd_model_checker.cpp:37-46 | Quantifies exactly the current inputs |
| `CtlSemantics.ReachExact` | src/ebmc/bdd_model_checker.cpp:81-84 | Membership in the least fixed point of x or EX x is reachability by a finite path |
| `CtlSemantics.StayExact` | src/ebmc/bdd_model_checker.cpp:86-89 | Membership in the greatest fixed point of x and EX x is an infinite run inside the set |
| `CtlSemantics.ExistsUntilExact` | src/ebmc/bdd_model_checker.cpp:91-95 | Membership in the until fixed point is a finite until path |
| `CtlSemantics.ForallUntilExact` | src/ebmc/bdd_model_checker.cpp:97-101 | Membership in the always-until fixed point is its path meaning, deadlocks included |
| `CtlSemantics.AlwaysUntilOnRuns` | src/ebmc/bdd_model_checker.cpp:97-101 | For a total relation that is until on every infinite run |
| `CtlSemantics.ReachesWithin` | src/ebmc/bdd_engine.cpp:478-530 | The n-th iterate contains only points with a path of at most n + 1 points |
| `CtlSemantics.WithinReaches` | src/ebmc/bdd_engine.cpp:478-530 | and all of them |
| `BddEngine.BddEngine.Evaluate` | src/ebmc/bdd_engine.cpp:589-681 | The recursion over all eighteen formula shapes returns exactly the points that satisfy the formula by its path meaning, and fails exactly on an unknown atom |
| `BddEngine.BddEngine.CheckCTL` | src/ebmc/bdd_engine.cpp:547-575 | Proved exactly when every initial point that meets the constraints satisfies the formula |
| `BddEngine.BddEngine.CheckAGp` | src/ebmc/bdd_engine.cpp:460-533 | A universal property is refuted, and an exists-path one proved, if and only if a trail leads from an initial state to a violation, and the iteration handed to the trace is the number of states of a shortest trail. Without inputs in initial conditions and next inputs in transition conditions trails are runs; with them no trail still means no run |
| `BddEngine.BddEngine.Backward` | src/ebmc/bdd_engine.cpp:478-532 | The search ends, and hits an initial state exactly in the round of the shortest trail |
| `BddEngine.BddEngine.TrailVerdict` | src/ebmc/bdd_engine.cpp:460-533 | No trail means no run, whatever the conditions mention; if no condition mentions inputs that EX projects away, a shortest trail is as long as a shortest run |
| `BddEngine.BddEngine.PathIffFollowed` | src/ebmc/bdd_model_checker.cpp:63-79 | Without conditions on inputs chosen anew, a sequence of points that ends in an admissible one is a path if and only if its later points satisfy the constraints and a run of the system goes through the same states |
| `BddEngine.BddEngine.PathAdmitted` | src/ebmc/bdd_model_checker.cpp:65-66 | Every point of a path after the first satisfies the constraints |
| `BddEngine.InitialInputForgotten` | src/ebmc/bdd_engine.cpp:478-532 | With the initial condition !s and i, and steps only from !s and !i to s, no run reaches s, but there is a trail of two states |
| `BddEngine.ForgottenInput` | src/ebmc/bdd_engine.cpp:478-532 | The search reports a violation in that system |
| `CtlSemantics.OnAllPathsDual` | src/ebmc/bdd_model_checker.h:52 | On every path f means no path reaches its complement |
| `CtlSemantics.ReleasedDual` | src/ebmc/bdd_model_checker.h:54 | Release on every path is the dual of until |
| `CubeSet.CubeSet.Insert` | src/satqe/cube_set.cpp:28-124 | The stored cubes denote exactly the old union plus the new cube; of its star class the cube is added, or the first stored neighbour is taken out and merged, or nothing changes if the cube is stored, and no other class with as many fixed bits is touched; afterwards again no two cubes of a star class differ in one bit; after a merge the loop runs on over the shortened vector and finds nothing more; the recursion ends on the number of fixed bits |
| `CubeSet.CubeSet.Merge` | src/satqe/cube_set.cpp:65-96 | The neighbour is erased and the joint cube inserted, which denotes the same as keeping both |
| `CubeSet.CubeSet.AddStar` | src/satqe/cube_set.cpp:77-96 | The counting loop stars exactly the position that fixed bit i stands for |
| `CubeSet.MergedCube` | src/satqe/cube_set.cpp:77-94 | The starred cube covers a point exactly if one of the two neighbours does |
| `CubeSet.CoversIff` | src/satqe/cube_set.cpp:77-96 | A cube covers exactly the points that have its bits, in order, at the positions that are not stars |
| `CubeSet.AllDenotesAll` | src/satqe/cube_set.cpp:32-37 | When the all flag is set every point is denoted |
| `BmcStrengthening.BmcWithStrengthening` | src/ebmc/bmc.cpp:97-193 | Every unknown property ends with its verdict: proved where what it claims of the traces holds and refuted where it does not, without a bound exactly where some trace falsifies it, with the given bound otherwise; decided ones are untouched, with at most one solver call more than there were unknown properties; after an error only what traces decided stays and the rest fails |
| `BmcStrengthening.BmcWithAssumptions` | src/ebmc/bmc.cpp:31-92 | Every property that is not disabled, failed or assumed gets the verdict on what it claims of the traces, or fails if a solver call does |
| `BmcStrengthening.ModesAgreeIff` | src/ebmc/bmc.cpp:97-193 | With a procedure that does not fail both modes end in the same statuses if and only if each property decided beforehand was decided rightly; from unknown properties always |
| `BmcStrengthening.ConstraintImpliesEarlier` | src/ebmc/bmc.cpp:119-131 | Each new disjunction implies the earlier ones, so accumulating them loses no trace |
| `BmcStrengthening.RecordTrace` | src/ebmc/bmc.cpp:141-157 | A trace decides at least every unknown property that it falsifies; whatever is decided has a falsifying trace and the verdict that is true of it |
| `BmcStrengthening.RoundDecides` | src/ebmc/bmc.cpp:137-158 | A satisfiable round leaves fewer unknown properties |
| `CompletenessThreshold.CheckByThreshold` | src/ebmc/completeness_threshold.cpp:220-260 | The whole engine: it gives up exactly when no property has a threshold; otherwise, given sound bounded verdicts, exactly the bounded proofs with the largest threshold become PROVED, and each of those holds on all runs; other bounded proofs become unknown again, and every other status stays as reported |
| `CompletenessThreshold.ThresholdSuffices` | src/ebmc/completeness_threshold.cpp:86-195 | For a left-total system whose constraints use only the counted bits, holding up to the threshold implies holding on every run, for state predicates, X, ranged and strong always, and G p |
| `CompletenessThreshold.EarlyViolation` | src/ebmc/completeness_threshold.cpp:86-195 | Every violation can be moved to one within the threshold |
| `CompletenessThreshold.Shorten` | src/ebmc/completeness_threshold.cpp:28-80 | Cutting repetitions gives a run to the same last state with at most 2^n states after any position |
| `CompletenessThreshold.RecurrenceDiameter` | src/ebmc/completeness_threshold.cpp:31-81 | 2^n - 1 for n bits of state variables and of inputs that a constraint mentions, none if a size is unknown or there are more than 8 bits |
| `CompletenessThreshold.DiameterCounts` | src/ebmc/completeness_threshold.cpp:77-80 | One less than the number of values of those variables, if there are at most 256 |
| `CompletenessThreshold.DeclaredRespects` | src/ebmc/completeness_threshold.cpp:46-75 | Constraints that depend only on the variables they mention depend only on the counted ones |
| `ThresholdAttained.ThresholdAttained` | src/ebmc/completeness_threshold.cpp:86-195 | The thresholds cannot be lowered: for every shape without empty ranges and every number of bits some property of that shape fails, and on no run shorter than the threshold |
| `CompletenessThreshold.MaxThreshold` | src/ebmc/completeness_threshold.cpp:204-218 | The largest threshold, attained by some property |
| `CompletenessThreshold.Upgrade` | src/ebmc/completeness_threshold.cpp:245-257 | Exactly the bounded verdicts whose threshold reaches the bound become PROVED, soundly; the others go back to unknown |
| `PastInstrumentation.InstrumentationExact` | src/ebmc/instrument_past.cpp:172-203 | For systems and properties with $past anywhere, also inside $past: a sequence is a run of the instrumented system exactly if it satisfies the register chains and its original part is a run of the system with the meaning of $past, and every property keeps its value in every step |
| `PastInstrumentation.RegistersRemember` | src/ebmc/instrument_past.cpp:108-167 | On every chain run, at every step, the register of $past(x, n) holds x from n steps before, or the default during the first n steps, for nested uses too |
| `PastInstrumentation.ReplacedValue` | src/ebmc/instrument_past.cpp:172-187 | With the registers right, replacing the outermost uses keeps the value of every expression |
| `PastInstrumentation.CollectCollected` | src/ebmc/instrument_past.cpp:22-46 | The uses collected from an expression include those inside of them |
| `PastInstrumentation.ResolvedIff` | src/ebmc/instrument_past.cpp:78-203 | The replacement leaves no $past behind if and only if no use goes back a negative number of ticks and none of no ticks has another one inside |
| `PastInstrumentation.NestedPastStays` | src/ebmc/instrument_past.cpp:83-86 | $past($past(x, 1), 0) becomes $past(x, 1), which is not replaced |
| `PastInstrumentation.ExtensionIsChainRun` | src/ebmc/instrument_past.cpp:108-167 | Every original sequence extends to a chain run |
| `PastInstrumentation.ExtensionUnique` | src/ebmc/instrument_past.cpp:108-167 | and its registers are determined |
| `PastInstrumentation.CompletePastSet` | src/ebmc/instrument_past.cpp:49-69 | Adds exactly the $past(x, i) with 1 <= i < n for each $past(x, n) |
| `PastInstrumentation.ModelPast` | src/ebmc/instrument_past.cpp:71-170 | One fresh register per entry with at least one tick, and exactly the init and next constraints that chain them |
| `PastInstrumentation.InstrumentPast` | src/ebmc/instrument_past.cpp:189-203 | No $past is left in the system returned exactly under that condition, and then, whatever the operators mean, it has exactly the runs of the original system up to registers, and its properties the same values in every step |

## Left out

- Ic3Netlist: netlist invariant constraints and literals other than latch literals in cubes are not modelled; lifting is written for the constraint-free case.
- Ic3Netlist.Netlist: initial conditions are over latches only; of one that mentions inputs, the intersection test of the blocking phase would keep only that some input satisfies it, while the step that follows may use another input.
- Ic3Solver: SAT solver internals, activation literals and learnt clauses are replaced by decision procedures over clause sets; the satisfiable answer of a lifting query carries no information, as the source then falls back to the full state.
- Ic3Solver: statistics, timing and messages are left out, and ties in the obligation queue and between equal activities are broken in one fixed way.
- Ic3Solver: activities are counters that stop at 2^24, where a single-precision counter stops growing; they only order literals.
- Ic3Engine.NewIc3Engine: building the netlist, the option for liveness-to-safety and the shape test for supported properties are parameters.
- Diameter: `ordering`, `gen_carry`, `swap` and `compare_counter` serve disabled code or printing.
- Diameter: states without bits, which the source rules out by an assertion, are allowed here.
- FpAdder.Add: the payload of a NaN is not compared, as in `compareFloat`.
- LivenessToSafety: symbol tables are left out; `looped` is a function of the instrumented state, and properties carry names; the failing conversion to one operand ends the translation.
- AigerLibrary.Aiger: allocation, symbol names, comments, error strings, headers and file or pipe access are left out; errors are values.
- AigerReencoding.Reencode: says nothing about the network where C leaves the outcome undefined: with maxvar 2^31 - 1, where `size_code` wraps to 0, and where `cmp_lhs` does not order the gates.
- AigerGateOrder.SortByLhs: the library `qsort` is modelled by an insertion sort with the same comparison, for gates that the comparison orders.
- AigerBinary.Reader.ReadDelta: a shift by 35 bits, undefined in C, is a result of its own; a fifth shift that overflows `int` is taken to wrap, and `AigerBinary.ShiftsFitIff` says when it does not; character counters are left out.
- BddModelChecker: the BDD package is a set of assignments; sharing, node counts and memory are left out.
- BddEngine.BddEngine.CheckAGp: what bounded model checking does with the length of a trail that is not a run is left out.
- BddEngine: property classification, LTL translation and the trace computed by bounded model checking are not part of this model.
- CubeSet.CubeSet.Insert: when the merge drops the last fixed bit the source writes the old bit back one place behind the end of the vector; the model leaves that write and the element counter out.
- BmcStrengthening: unwinding and trace extraction are left out; a timeframe handle is a function of the satisfying assignment.
- CompletenessThreshold.CheckByThreshold: the bounded model checker is a parameter that reports a status for each property and bound.
- CompletenessThreshold.ThresholdSuffices: F p and s_eventually depend on the lasso encoding, and SVA sequences on their translation; neither is part of this model.
- CompletenessThreshold.EarlyViolation: leaves out the same properties.
- PastInstrumentation: tick counts are constants, and `replace_expr`, which is not part of this model, is taken to replace the outermost matches and not to look into what it puts in.
- The older IC3 engine in `src/ic3` is the same algorithm with tuning modes; it would add length, not harder theorems.
- Engine selection, k-induction, reporting, printers, random and neural traces, and `instrument_buechi` are not part of this model.
