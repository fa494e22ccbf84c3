/** The IC3 solver: delta-encoded frames, lazily built frame solvers, proof obligations by
    level, literal-dropping generalization, and clause propagation. */
module Ic3Solver {
  import opened Sequences
  import opened Powers
  import opened Vectors
  import opened Ic3Clause
  import opened Ic3Netlist
  import opened Ic3Frames
  import opened Ic3Termination
  import opened Ic3Oracle

  const CTG_MAX: nat := 0
  const JOIN_MAX: nat := 3
  const MIC_FAIL_MAX: nat := 2
  // A float incremented by one stays exact up to here and then stops growing.
  const ACTIVITY_MAX: nat := 16777216

  datatype Outcome = Proved | Refuted(length: nat)

  datatype SolverSlot = NotBuilt | Built(solver: SatSolver)

  datatype InitValue = Unknown | Forced(value: bool)

  /** A proof obligation: a cube to block at a level, depth transitions away from a violation. */
  datatype Obligation = Obligation(cube: Cube, level: nat, depth: nat)

  datatype PredecessorMode = NoPredecessor | FullState | Lifted

  // ---------- Specification vocabulary ----------

  ghost predicate SolverMatches(nl: Netlist, f: Frames, i: nat, solver: SatSolver) {
    forall s :: nl.IsState(s) ==> (SolverHolds(nl, solver, s) <==> InFrame(nl, f, i, s))
  }

  /** Every frame solver built so far holds exactly the states of its frame. */
  ghost predicate SolversMatch(nl: Netlist, f: Frames, slots: seq<SolverSlot>) {
    && |slots| <= |f|
    && forall i :: 0 <= i < |slots| && slots[i].Built? ==> SolverMatches(nl, f, i, slots[i].solver)
  }

  ghost predicate InitKnowledge(nl: Netlist, values: seq<InitValue>, unique: bool) {
    && |values| == nl.Latches()
    && (forall k, s :: 0 <= k < |values| && values[k].Forced? && nl.IsInit(s) ==> s[k] == values[k].value)
    && (unique ==> (exists s :: nl.IsInit(s)) && forall k :: 0 <= k < |values| ==> values[k].Forced?)
  }

  /** Whenever a state outside cube steps from F_level, the core is not met. */
  ghost predicate Excludes(nl: Netlist, f: Frames, level: nat, cube: Cube, core: Cube) {
    forall s, input :: InFrame(nl, f, level, s) && !CubeHolds(cube, s) && nl.IsInput(input) ==>
      !CubeHolds(core, nl.Step(s, input))
  }

  /** Every state of pred has a successor in cube. */
  ghost predicate StepsInto(nl: Netlist, pred: Cube, cube: Cube) {
    forall t :: nl.IsState(t) && CubeHolds(pred, t) ==>
      exists input :: nl.IsInput(input) && CubeHolds(cube, nl.Step(t, input))
  }

  ghost predicate LeadsToBad(nl: Netlist, cube: Cube, depth: nat) {
    forall t :: nl.IsState(t) && CubeHolds(cube, t) ==> nl.ReachesBad(t, depth)
  }

  ghost predicate MeetsFrame(nl: Netlist, f: Frames, level: nat, cube: Cube) {
    exists s :: InFrame(nl, f, level, s) && CubeHolds(cube, s)
  }

  /** A nonempty-when-possible selection of the cube's literals. */
  ghost predicate SubCube(sub: Cube, cube: Cube) {
    Distinct(sub) && LitSet(sub) <= LitSet(cube) && (cube != [] ==> sub != [])
  }

  // ---------- Pure helpers ----------

  /** The full cube of a state: one literal per latch. */
  function ExtractState(s: Vector): (r: Cube)
    ensures |r| == |s| && forall k :: 0 <= k < |s| ==> r[k] == Lit(k, s[k])
  {
    seq(|s|, k requires 0 <= k < |s| => Lit(k, s[k]))
  }

  lemma ExtractedCube(s: Vector, t: Vector)
    requires |t| == |s|
    ensures Proper(ExtractState(s), |s|)
    ensures CubeHolds(ExtractState(s), t) <==> t == s
  {
    var c := ExtractState(s);
    if CubeHolds(c, t) {
      forall k | 0 <= k < |s| ensures t[k] == s[k] {
        assert c[k] in c;
      }
    }
  }

  /** The literals whose next-state signal is worth assuming. */
  function Assumable(nl: Netlist, cube: Cube): (r: Cube)
    requires InRange(cube, nl.Latches())
    ensures forall l :: l in r <==> l in cube && !nl.ToNext(l).IsTrue()
    ensures Distinct(cube) ==> Distinct(r)
  {
    if cube == [] then []
    else
      assert forall l :: l in cube <==> l == cube[0] || l in cube[1..];
      assert Distinct(cube) ==> Distinct(cube[1..]) && cube[0] !in cube[1..];
      if nl.ToNext(cube[0]).IsTrue() then Assumable(nl, cube[1..])
      else [cube[0]] + Assumable(nl, cube[1..])
  }

  function NextSignals(nl: Netlist, cube: Cube): (r: seq<Signal>)
    requires InRange(cube, nl.Latches())
    ensures |r| == |cube|
  {
    seq(|cube|, k requires 0 <= k < |cube| => nl.ToNext(cube[k]))
  }

  function NegatedSignals(nl: Netlist, cube: Cube): (r: seq<Signal>)
    requires InRange(cube, nl.Latches())
    ensures |r| == |cube|
  {
    seq(|cube|, k requires 0 <= k < |cube| => nl.ToNext(cube[k]).Not())
  }

  /** The literals of lits at the chosen positions, in order. */
  function Selected(lits: Cube, chosen: set<nat>): (r: Cube)
    ensures forall l :: l in r ==> l in lits
    ensures forall k :: k in chosen && k < |lits| ==> lits[k] in r
    ensures Distinct(lits) ==> Distinct(r)
  {
    if lits == [] then []
    else
      var last := |lits| - 1;
      var r := Selected(lits[..last], chosen);
      assert forall l :: l in r ==> l in lits[..last];
      assert Distinct(lits) ==> Distinct(lits[..last]) && lits[last] !in lits[..last];
      if last in chosen then r + [lits[last]] else r
  }

  /** The literals of a that also occur in b, in order. */
  function Joined(a: Cube, b: Cube): (r: Cube)
    ensures forall l :: l in r <==> l in a && l in b
    ensures Distinct(a) ==> Distinct(r)
    ensures |r| <= |a|
  {
    if a == [] then []
    else
      assert forall l :: l in a <==> l == a[0] || l in a[1..];
      assert Distinct(a) ==> Distinct(a[1..]) && a[0] !in a[1..];
      if a[0] in b then [a[0]] + Joined(a[1..], b) else Joined(a[1..], b)
  }

  lemma NextSignalsMeaning(nl: Netlist, cube: Cube, s: Vector, input: Vector)
    requires InRange(cube, nl.Latches())
    ensures AllTrue(NextSignals(nl, cube), s, input) <==> CubeHolds(cube, nl.Step(s, input))
  {
    var t := nl.Step(s, input);
    var n := NextSignals(nl, cube);
    forall k | 0 <= k < |cube| ensures n[k].Eval(s, input) == cube[k].Holds(t) && cube[k] in cube {
    }
    if CubeHolds(cube, t) {
      assert forall k :: 0 <= k < |n| ==> cube[k] in cube;
    }
    if AllTrue(n, s, input) {
      forall l | l in cube ensures l.Holds(t) {
        var k :| 0 <= k < |cube| && cube[k] == l;
        assert n[k].Eval(s, input);
      }
    }
  }

  lemma NegatedSignalsMeaning(nl: Netlist, cube: Cube, s: Vector, input: Vector)
    requires InRange(cube, nl.Latches())
    ensures NoneTrue(NegatedSignals(nl, cube), s, input) <==> CubeHolds(cube, nl.Step(s, input))
  {
    var t := nl.Step(s, input);
    var n := NegatedSignals(nl, cube);
    forall k | 0 <= k < |cube| ensures n[k].Eval(s, input) == !cube[k].Holds(t) && cube[k] in cube {
    }
    if NoneTrue(n, s, input) {
      forall l | l in cube ensures l.Holds(t) {
        var k :| 0 <= k < |cube| && cube[k] == l;
        assert !n[k].Eval(s, input);
      }
    }
  }

  /** Literals whose next-state signal is constantly true restrict nothing. */
  lemma AssumableMeaning(nl: Netlist, cube: Cube, t: Vector, s: Vector, input: Vector)
    requires InRange(cube, nl.Latches()) && t == nl.Step(s, input)
    ensures CubeHolds(Assumable(nl, cube), t) <==> CubeHolds(cube, t)
  {
    forall l | l in cube && l !in Assumable(nl, cube) ensures l.Holds(t) {
      assert nl.ToNext(l).Eval(s, input);
    }
  }

  lemma SubsetHolds(sub: Cube, cube: Cube, s: Vector)
    requires LitSet(sub) <= LitSet(cube) && CubeHolds(cube, s)
    ensures CubeHolds(sub, s)
  {
    forall l | l in sub ensures l.Holds(s) {
      assert l in LitSet(sub);
    }
  }

  lemma SubRange(sub: Cube, cube: Cube, n: nat)
    requires LitSet(sub) <= LitSet(cube) && InRange(cube, n)
    ensures InRange(sub, n)
  {
    forall l | l in sub ensures l.latch < n {
      assert l in LitSet(sub);
    }
  }

  /** An unsatisfiable query's conflict yields a core that F_level cannot step into. */
  lemma CoreExcludes(nl: Netlist, f: Frames, level: nat, solver: SatSolver, cube: Cube, conflict: set<nat>)
    requires SolverMatches(nl, f, level, solver) && InRange(cube, nl.Latches())
    requires Refutes(nl, solver.Add(Negate(cube)), NextSignals(nl, Assumable(nl, cube)), conflict)
    ensures Excludes(nl, f, level, cube, Selected(Assumable(nl, cube), conflict))
    ensures Selected(Assumable(nl, cube), conflict) == [] ==> RelativelyInductive(nl, f, level, cube)
  {
    var lits := Assumable(nl, cube);
    var core := Selected(lits, conflict);
    forall s, input | InFrame(nl, f, level, s) && !CubeHolds(cube, s) && nl.IsInput(input)
      ensures core != [] && !CubeHolds(core, nl.Step(s, input))
    {
      NegateMeaning(cube, s);
      AddHolds(nl, solver, Negate(cube), s);
      var k :| k in conflict && k < |lits| && !NextSignals(nl, lits)[k].Eval(s, input);
      assert lits[k] in core;
    }
  }

  lemma ExcludesGivesInduction(nl: Netlist, f: Frames, level: nat, cube: Cube, core: Cube, repaired: Cube)
    requires Excludes(nl, f, level, cube, core)
    requires LitSet(core) <= LitSet(repaired) <= LitSet(cube)
    ensures RelativelyInductive(nl, f, level, repaired)
  {
    forall s, input | InFrame(nl, f, level, s) && !CubeHolds(repaired, s) && nl.IsInput(input)
      ensures !CubeHolds(repaired, nl.Step(s, input))
    {
      if CubeHolds(cube, s) { SubsetHolds(repaired, cube, s); }
      if CubeHolds(repaired, nl.Step(s, input)) { SubsetHolds(core, repaired, nl.Step(s, input)); }
    }
  }

  // ---------- The solver object ----------

  /** One unit of activity for every literal of the cube; single-precision counters stop growing at 2^24. */
  function Bumped(activity: seq<nat>, cube: Cube): (r: seq<nat>)
    requires InRange(cube, |activity|)
    ensures |r| == |activity|
    decreases cube
  {
    if cube == [] then activity
    else
      var l := cube[0].latch;
      Bumped(activity[l := if activity[l] < ACTIVITY_MAX then activity[l] + 1 else activity[l]], cube[1..])
  }

  /** c is the clause of an entry of frames[from..to]. */
  ghost predicate Listed(frames: Frames, from: nat, to: nat, c: Clause)
    requires to <= |frames|
  {
    exists m, fc :: from <= m < to && fc in frames[m] && fc.clause == c
  }

  method AddFrame(solver: SatSolver, frame: seq<FrameClause>) returns (more: SatSolver)
    ensures more.withInit == solver.withInit
    ensures forall c :: c in more.clauses <==> c in solver.clauses || exists fc :: fc in frame && fc.clause == c
  {
    more := solver;
    var k := 0;
    while k < |frame|
      invariant 0 <= k <= |frame| && more.withInit == solver.withInit
      invariant forall c :: c in more.clauses <==> c in solver.clauses || exists i :: 0 <= i < k && frame[i].clause == c
    {
      more := more.Add(frame[k].clause);
      k := k + 1;
    }
  }

  /** A solver with the clauses of the frame at the given level and of all later ones. */
  method BuildSolver(frames: Frames, level: nat) returns (solver: SatSolver)
    requires level < |frames|
    ensures solver.withInit == (level == 0)
    ensures forall c :: c in solver.clauses <==> Listed(frames, level, |frames|, c)
  {
    solver := SatSolver(level == 0, []);
    var j := level;
    while j < |frames|
      invariant level <= j <= |frames| && solver.withInit == (level == 0)
      invariant forall c :: c in solver.clauses <==> Listed(frames, level, j, c)
    {
      ListedNext(frames, level, j);
      solver := AddFrame(solver, frames[j]);
      j := j + 1;
    }
  }

  lemma ListedNext(frames: Frames, from: nat, to: nat)
    requires from <= to < |frames|
    ensures forall c :: Listed(frames, from, to + 1, c) <==>
      Listed(frames, from, to, c) || exists fc :: fc in frames[to] && fc.clause == c
  {
    forall c | Listed(frames, from, to, c) ensures Listed(frames, from, to + 1, c) {
      var m, fc :| from <= m < to && fc in frames[m] && fc.clause == c;
      assert m < to + 1;
    }
    forall fc | fc in frames[to] ensures Listed(frames, from, to + 1, fc.clause) {
      assert from <= to < to + 1;
    }
  }

  lemma BuiltMatches(nl: Netlist, frames: Frames, level: nat, solver: SatSolver)
    requires level < |frames| && solver.withInit == (level == 0)
    requires forall c :: c in solver.clauses <==> Listed(frames, level, |frames|, c)
    ensures SolverMatches(nl, frames, level, solver)
  {
    forall s | nl.IsState(s) ensures SolverHolds(nl, solver, s) <==> InFrame(nl, frames, level, s) {
      if SolverHolds(nl, solver, s) {
        forall m, fc | level <= m < |frames| && fc in frames[m] ensures ClauseHolds(fc.clause, s) {
          assert Listed(frames, level, |frames|, fc.clause);
        }
      }
    }
  }

  class Ic3Solver {
    const nl: Netlist

    var core: Cube
    var initValues: seq<InitValue>
    var initIsUniqueState: bool
    var frameClauses: Frames
    var frameSolvers: seq<SolverSlot>
    var litActivity: seq<nat>

    ghost predicate Valid()
      reads this
    {
      && |frameClauses| >= 1
      && FrameInvariant(nl, frameClauses)
      && SolversMatch(nl, frameClauses, frameSolvers)
      && InitKnowledge(nl, initValues, initIsUniqueState)
      && |litActivity| == nl.Latches()
    }

    /** Finds the latches whose initial value is forced and starts with the empty F_0. */
    constructor (netlist: Netlist)
      ensures nl == netlist
      ensures Valid() && frameClauses == [[]] && frameSolvers == []
    {
      nl := netlist;
      core := [];
      litActivity := seq(netlist.Latches(), _ => 0);
      var values := seq(netlist.Latches(), _ => Unknown);
      var unique := false;
      var found, model := SolveInit(netlist, []);
      if found {
        unique := true;
        var i := 0;
        while i < netlist.Latches()
          invariant 0 <= i <= netlist.Latches() == |values|
          invariant forall k, s :: 0 <= k < |values| && values[k].Forced? && netlist.IsInit(s) ==>
            s[k] == values[k].value
          invariant unique ==> forall k :: 0 <= k < i ==> values[k].Forced?
        {
          var differs, _ := SolveInit(netlist, [Lit(i, !model[i])]);
          if !differs {
            forall s | netlist.IsInit(s) ensures s[i] == model[i] {
              assert !CubeHolds([Lit(i, !model[i])], s);
            }
            values := values[i := Forced(model[i])];
          } else {
            unique := false;
          }
          i := i + 1;
        }
      }
      initValues := values;
      initIsUniqueState := unique;
      frameClauses := [[]];
      frameSolvers := [];
    }

    // ---------- Initial states ----------

    method InitialStateIsBad() returns (bad: bool)
      requires Valid()
      ensures bad <==> nl.HasCounterexample(1)
    {
      var r := SolveWith(nl, SatSolver(true, []), [nl.prop.Not()]);
      if r.Sat? {
        assert [nl.prop.Not()][0].Eval(r.state, r.input);
        assert nl.IsCounterexample([r.state], [r.input]);
        return true;
      }
      forall states, stimuli | |states| == 1 && nl.IsRun(states, stimuli)
        ensures nl.prop.Eval(states[0], stimuli[0])
      {
        OneAssumption(nl, SatSolver(true, []), nl.prop.Not(), r.conflict, states[0], stimuli[0]);
      }
      return false;
    }

    /** Exactly whether some initial state lies in the cube, by forced values first. */
    method InitIntersects(cube: Cube) returns (r: bool)
      requires Valid() && InRange(cube, nl.Latches())
      ensures r <==> !AvoidsInit(nl, cube)
    {
      var allBitsKnown := initIsUniqueState;
      var i := 0;
      while i < |cube|
        invariant 0 <= i <= |cube|
        invariant allBitsKnown ==> initIsUniqueState
        invariant allBitsKnown ==> forall k :: 0 <= k < i ==>
          initValues[cube[k].latch] == Forced(cube[k].positive)
      {
        var l := cube[i];
        assert l in cube;
        var v := initValues[l.latch];
        if v.Unknown? {
          allBitsKnown := false;
        } else if v.value != l.positive {
          forall s | nl.IsInit(s) ensures !CubeHolds(cube, s) {
            assert s[l.latch] == v.value;
          }
          return false;
        }
        i := i + 1;
      }
      if allBitsKnown {
        var s :| nl.IsInit(s);
        forall l | l in cube ensures l.Holds(s) {
          var k :| 0 <= k < |cube| && cube[k] == l;
          assert initValues[l.latch] == Forced(l.positive);
        }
        assert CubeHolds(cube, s);
        return true;
      }
      var model;
      r, model := SolveInit(nl, cube);
    }

    /** Puts literals of the cube back into the core until it avoids the initial states. */
    method RepairInit(cube: Cube)
      requires Valid() && Proper(cube, nl.Latches()) && AvoidsInit(nl, cube)
      requires SubCube(core, cube)
      modifies this`core
      ensures SubCube(core, cube) && LitSet(old(core)) <= LitSet(core) && AvoidsInit(nl, core)
    {
      SubRange(core, cube, nl.Latches());
      var meets := InitIntersects(core);
      if !meets { return; }
      var inReduced := LitSet(core);
      var i := 0;
      while i < |cube|
        invariant 0 <= i <= |cube|
        invariant SubCube(core, cube) && inReduced <= LitSet(core)
        invariant forall l :: l in core ==> l in inReduced || l in cube[..i]
        invariant forall k :: 0 <= k < i ==> cube[k] in core
        invariant !AvoidsInit(nl, core)
      {
        var l := cube[i];
        if l !in inReduced {
          assert l !in core by {
            assert forall k :: 0 <= k < i ==> cube[k] != cube[i];
          }
          ghost var before := core;
          core := core + [l];
          assert LitSet(core) == LitSet(before) + {l};
          SubRange(core, cube, nl.Latches());
          meets := InitIntersects(core);
          if !meets { return; }
        } else {
          assert l in LitSet(core);
        }
        i := i + 1;
      }
      CoveredMeetsInit(nl, core, cube);
      assert false;
    }

    // ---------- Frames ----------

    method NewFrame()
      requires Valid()
      modifies this`frameClauses
      ensures Valid() && frameClauses == old(frameClauses) + [[]]
    {
      ghost var f := frameClauses;
      frameClauses := frameClauses + [[]];
      ghost var g := frameClauses;
      forall i: nat, s ensures InFrame(nl, g, i, s) <==> InFrame(nl, f, i, s) {
        assert forall j, fc :: 0 <= j < |g| && fc in g[j] ==> j < |f| && fc in f[j];
        assert forall j, fc :: 0 <= j < |f| && fc in f[j] ==> fc in g[j];
      }
      forall i: nat, s, input | i + 1 < |g| && InFrame(nl, g, i, s) && nl.IsInput(input)
        ensures InFrame(nl, g, i + 1, nl.Step(s, input))
      {
        if i + 1 == |f| {
          assert InFrame(nl, f, i + 1, nl.Step(s, input));
        }
      }
    }

    /** The solver of a level, built from the clauses of all levels above on first use. */
    method GetSolver(level: nat) returns (solver: SatSolver)
      requires Valid() && level < |frameClauses|
      modifies this`frameSolvers
      ensures Valid() && SolverMatches(nl, frameClauses, level, solver)
      ensures level < |frameSolvers| && frameSolvers[level] == Built(solver)
    {
      while |frameSolvers| <= level
        invariant SolversMatch(nl, frameClauses, frameSolvers)
        decreases level - |frameSolvers|
      {
        frameSolvers := frameSolvers + [NotBuilt];
      }
      if frameSolvers[level].NotBuilt? {
        solver := BuildSolver(frameClauses, level);
        BuiltMatches(nl, frameClauses, level, solver);
        frameSolvers := frameSolvers[level := Built(solver)];
      }
      solver := frameSolvers[level].solver;
    }

    /** Does a clause at the level or above subsume fc? */
    method SubsumedFrom(fc: FrameClause, level: nat) returns (r: bool)
      requires Valid() && fc.Valid(nl.Latches())
      ensures r <==> Subsumed(frameClauses, level, fc.Lits())
    {
      var j := level;
      while j < |frameClauses|
        invariant level <= j
        invariant forall m, c :: level <= m < j && m < |frameClauses| && c in frameClauses[m] ==>
          !(c.Lits() <= fc.Lits())
      {
        var k := 0;
        while k < |frameClauses[j]|
          invariant 0 <= k <= |frameClauses[j]|
          invariant forall m :: 0 <= m < k ==> !(frameClauses[j][m].Lits() <= fc.Lits())
        {
          assert frameClauses[j][k] in frameClauses[j];
          var sub := Subsumes(frameClauses[j][k], fc, nl.Latches());
          if sub { return true; }
          k := k + 1;
        }
        j := j + 1;
      }
      return false;
    }

    /** The signature-filtered search agrees with plain literal-set inclusion. */
    method IsBlocked(cube: Cube, level: nat) returns (r: bool)
      requires Valid() && Proper(cube, nl.Latches())
      ensures r <==> Subsumed(frameClauses, level, LitSet(Negate(cube)))
    {
      NegateProper(cube, nl.Latches());
      var negated := MakeFrameClause(Negate(cube));
      MakeFrameClauseValid(Negate(cube), nl.Latches());
      r := SubsumedFrom(negated, level);
    }

    method WithoutSubsumed(cls: seq<FrameClause>, fc: FrameClause) returns (r: seq<FrameClause>)
      requires fc.Valid(nl.Latches()) && forall c :: c in cls ==> c.Valid(nl.Latches())
      ensures r == RemoveSubsumed(cls, fc)
    {
      r := [];
      var k := |cls|;
      while k > 0
        invariant 0 <= k <= |cls|
        invariant r == RemoveSubsumed(cls[k..], fc)
      {
        k := k - 1;
        assert cls[k] in cls && cls[k..][1..] == cls[k + 1..];
        var sub := Subsumes(fc, cls[k], nl.Latches());
        if !sub { r := [cls[k]] + r; }
      }
      assert cls[0..] == cls;
    }

    /** Blocks the cube at the level: every frame up to the level loses exactly the cube's states,
        all solvers keep matching their frames, and the frame invariants survive. */
    method AddClause(level: nat, clause: Clause, ghost cube: Cube)
      requires Valid() && level < |frameClauses|
      requires Proper(cube, nl.Latches()) && clause == Negate(cube)
      requires AvoidsInit(nl, cube)
      requires level > 0 ==> RelativelyInductive(nl, frameClauses, level - 1, cube)
      modifies this`frameClauses, this`frameSolvers
      ensures Valid() && Grows(nl, old(frameClauses), frameClauses)
      ensures Subsumed(frameClauses, level, LitSet(clause))
      ensures LosesCube(nl, old(frameClauses), frameClauses, level, cube)
    {
      NegateProper(cube, nl.Latches());
      var newClause := MakeFrameClause(clause);
      MakeFrameClauseValid(clause, nl.Latches());
      ghost var f := frameClauses;
      var redundant := SubsumedFrom(newClause, level);
      if redundant {
        RedundantMeaning(nl, f, level, newClause, clause, cube);
        return;
      }
      InstallClause(level, newClause, clause, cube);
    }

    /** The branch for a clause that no stored clause subsumes. */
    method InstallClause(level: nat, fc: FrameClause, ghost clause: Clause, ghost cube: Cube)
      requires Valid() && level < |frameClauses| && fc.Valid(nl.Latches())
      requires InRange(cube, nl.Latches()) && clause == Negate(cube) && fc.Lits() == LitSet(clause)
      requires AvoidsInit(nl, cube)
      requires level > 0 ==> RelativelyInductive(nl, frameClauses, level - 1, cube)
      modifies this`frameClauses, this`frameSolvers
      ensures Valid() && Grows(nl, old(frameClauses), frameClauses)
      ensures Subsumed(frameClauses, level, LitSet(clause))
      ensures LosesCube(nl, old(frameClauses), frameClauses, level, cube)
    {
      ghost var f := frameClauses;
      StoreClause(level, fc);
      AddToSolvers(level, fc, f);
      ClauseInstalled(nl, f, frameClauses, level, fc, clause, cube);
    }

    /** Drops what fc subsumes at the levels it is active on and stores it at its level. */
    method StoreClause(level: nat, fc: FrameClause)
      requires level < |frameClauses| && ProperFrames(nl, frameClauses) && fc.Valid(nl.Latches())
      modifies this`frameClauses
      ensures frameClauses == Installed(old(frameClauses), level, fc)
    {
      ghost var f := frameClauses;
      var j := 0;
      while j <= level
        invariant 0 <= j <= level + 1 && |frameClauses| == |f|
        invariant forall m :: 0 <= m < j ==> frameClauses[m] == RemoveSubsumed(f[m], fc)
        invariant forall m :: j <= m < |f| ==> frameClauses[m] == f[m]
      {
        var kept := WithoutSubsumed(frameClauses[j], fc);
        frameClauses := frameClauses[j := kept];
        j := j + 1;
      }
      ghost var kept := frameClauses;
      frameClauses := frameClauses[level := frameClauses[level] + [fc]];
      IsInstalled(f, kept, level, fc);
    }

    method AddToSolvers(level: nat, fc: FrameClause, ghost f: Frames)
      requires level < |f| && frameClauses == Installed(f, level, fc)
      requires SolversMatch(nl, f, frameSolvers)
      modifies this`frameSolvers
      ensures SolversMatch(nl, frameClauses, frameSolvers)
    {
      var i := 0;
      ghost var slots := frameSolvers;
      while i <= level && i < |frameSolvers|
        invariant 0 <= i <= level + 1 && |frameSolvers| == |slots|
        invariant forall m :: i <= m < |slots| ==> frameSolvers[m] == slots[m]
        invariant forall m :: 0 <= m < i && m < |slots| && frameSolvers[m].Built? ==>
          SolverMatches(nl, frameClauses, m, frameSolvers[m].solver)
      {
        if frameSolvers[i].Built? {
          ghost var before := frameSolvers[i].solver;
          frameSolvers := frameSolvers[i := Built(frameSolvers[i].solver.Add(fc.clause))];
          forall s | nl.IsState(s)
            ensures SolverHolds(nl, frameSolvers[i].solver, s) <==> InFrame(nl, frameClauses, i, s)
          {
            AddHolds(nl, before, fc.clause, s);
            InstalledMeaning(nl, f, level, fc, i, s);
          }
        }
        i := i + 1;
      }
      forall m | level < m < |slots| && slots[m].Built?
        ensures SolverMatches(nl, frameClauses, m, slots[m].solver)
      {
        forall s | nl.IsState(s)
          ensures SolverHolds(nl, slots[m].solver, s) <==> InFrame(nl, frameClauses, m, s)
        {
          InstalledMeaning(nl, f, level, fc, m, s);
        }
      }
    }

    // ---------- Queries ----------

    /** Shrinks a state to the literals that force the target false under the input. */
    method Lift(ghost s: Vector, input: Vector, fullState: Cube, target: seq<Signal>) returns (result: Cube)
      requires nl.IsState(s) && fullState == ExtractState(s) && NoneTrue(target, s, input)
      ensures SubCube(result, fullState)
      ensures forall t :: nl.IsState(t) && CubeHolds(result, t) ==> NoneTrue(target, t, input)
    {
      ExtractedCube(s, s);
      forall t | nl.IsState(t) && CubeHolds(fullState, t) ensures t == s {
        ExtractedCube(s, t);
      }
      if exists k :: 0 <= k < |target| && target[k].IsTrue() {
        return fullState;
      }
      result := [];
      var r := SolveLift(nl, target, input, fullState);
      if r.LiftUnsat? {
        result := Selected(fullState, r.conflict);
        forall t | nl.IsState(t) && CubeHolds(result, t) ensures NoneTrue(target, t, input) {
          assert forall k :: k in r.conflict && k < |fullState| ==> fullState[k] in result;
        }
      }
      if result == [] { result := fullState; }
    }

    /** Asks whether cube can be entered from F_level outside the cube. If not, core becomes a
        part of the cube that avoids the initial states and is inductive relative to F_level. */
    method RelativeInduction(level: nat, cube: Cube, mode: PredecessorMode) returns (unsat: bool, predecessor: Cube)
      requires Valid() && level < |frameClauses|
      requires Proper(cube, nl.Latches()) && AvoidsInit(nl, cube)
      modifies this`core, this`frameSolvers
      ensures Valid()
      ensures unsat ==>
        SubCube(core, cube) && AvoidsInit(nl, core) && RelativelyInductive(nl, frameClauses, level, core)
      ensures !unsat && mode != NoPredecessor ==>
        && Proper(predecessor, nl.Latches())
        && MeetsFrame(nl, frameClauses, level, predecessor) && StepsInto(nl, predecessor, cube)
    {
      predecessor := [];
      var k := 0;
      while k < |cube|
        invariant 0 <= k <= |cube|
      {
        var l := cube[k];
        assert l in cube;
        if nl.ToNext(l).IsFalse() {
          core := [l];
          ConstantFalseExcludes(nl, frameClauses, level, cube, l);
          RepairInit(cube);
          ExcludesGivesInduction(nl, frameClauses, level, cube, [l], core);
          return true, [];
        }
        k := k + 1;
      }
      var solver := GetSolver(level);
      var r := SolveWith(nl, solver.Add(Negate(cube)), NextSignals(nl, Assumable(nl, cube)));
      unsat := r.Unsat?;
      if unsat {
        core := Selected(Assumable(nl, cube), r.conflict);
        CoreExcludes(nl, frameClauses, level, solver, cube, r.conflict);
        if core == [] {
          core := cube;
        } else {
          ghost var found := core;
          RepairInit(cube);
          ExcludesGivesInduction(nl, frameClauses, level, cube, found, core);
        }
      } else if mode != NoPredecessor {
        predecessor := PredecessorCube(level, cube, mode, solver, r.state, r.input);
      }
    }

    method PredecessorCube(level: nat, cube: Cube, mode: PredecessorMode, ghost solver: SatSolver,
                           s: Vector, input: Vector) returns (predecessor: Cube)
      requires Valid() && InRange(cube, nl.Latches()) && SolverMatches(nl, frameClauses, level, solver)
      requires nl.IsState(s) && nl.IsInput(input) && SolverHolds(nl, solver.Add(Negate(cube)), s)
      requires AllTrue(NextSignals(nl, Assumable(nl, cube)), s, input)
      ensures Proper(predecessor, nl.Latches())
      ensures MeetsFrame(nl, frameClauses, level, predecessor) && StepsInto(nl, predecessor, cube)
    {
      AddHolds(nl, solver, Negate(cube), s);
      NextSignalsMeaning(nl, Assumable(nl, cube), s, input);
      AssumableMeaning(nl, cube, nl.Step(s, input), s, input);
      var fullState := ExtractState(s);
      ExtractedCube(s, s);
      if mode == Lifted {
        NegatedSignalsMeaning(nl, cube, s, input);
        predecessor := Lift(s, input, fullState, NegatedSignals(nl, cube));
        SubRange(predecessor, fullState, nl.Latches());
        SubsetHolds(predecessor, fullState, s);
        forall t | nl.IsState(t) && CubeHolds(predecessor, t) ensures CubeHolds(cube, nl.Step(t, input)) {
          NegatedSignalsMeaning(nl, cube, t, input);
        }
      } else {
        predecessor := fullState;
        forall t | nl.IsState(t) && CubeHolds(predecessor, t) ensures CubeHolds(cube, nl.Step(t, input)) {
          ExtractedCube(s, t);
        }
      }
    }

    method SolveRelative(level: nat, cube: Cube) returns (blocked: bool, predecessor: Cube)
      requires Valid() && level < |frameClauses|
      requires Proper(cube, nl.Latches()) && AvoidsInit(nl, cube)
      modifies this`core, this`frameSolvers
      ensures Valid()
      ensures blocked ==>
        SubCube(core, cube) && AvoidsInit(nl, core) && RelativelyInductive(nl, frameClauses, level, core)
      ensures !blocked ==>
        && Proper(predecessor, nl.Latches())
        && MeetsFrame(nl, frameClauses, level, predecessor) && StepsInto(nl, predecessor, cube)
    {
      blocked, predecessor := RelativeInduction(level, cube, Lifted);
    }

    /** A cube of F_level states that violate the property under some input, if there is one. */
    method SolveBad(level: nat) returns (found: bool, bad: Cube)
      requires Valid() && level < |frameClauses|
      modifies this`frameSolvers
      ensures Valid()
      ensures found ==>
        && Proper(bad, nl.Latches())
        && MeetsFrame(nl, frameClauses, level, bad) && LeadsToBad(nl, bad, 0)
      ensures !found ==> forall s, input :: InFrame(nl, frameClauses, level, s) && nl.IsInput(input) ==>
        nl.prop.Eval(s, input)
    {
      bad := [];
      if nl.prop.IsTrue() { return false, []; }
      var solver := GetSolver(level);
      var assumptions := if nl.prop.IsFalse() then [] else [nl.prop.Not()];
      var r := SolveWith(nl, solver, assumptions);
      found := r.Sat?;
      if found {
        assert !nl.prop.Eval(r.state, r.input) by {
          assert assumptions == [] || assumptions[0].Eval(r.state, r.input);
        }
        var fullState := ExtractState(r.state);
        ExtractedCube(r.state, r.state);
        bad := Lift(r.state, r.input, fullState, [nl.prop]);
        SubRange(bad, fullState, nl.Latches());
        SubsetHolds(bad, fullState, r.state);
        forall t | nl.IsState(t) && CubeHolds(bad, t) ensures nl.ReachesBad(t, 0) {
          assert !([nl.prop][0]).Eval(t, r.input);
        }
      } else {
        forall s, input | InFrame(nl, frameClauses, level, s) && nl.IsInput(input)
          ensures nl.prop.Eval(s, input)
        {
          var k :| k in r.conflict && k < |assumptions| && !assumptions[k].Eval(s, input);
        }
      }
    }

    // ---------- Generalization ----------

    /** Blocks a counterexample to generalization if it is inductive relative to the frame itself. */
    method TryBlock(level: nat, predecessor: Cube) returns (blocked: bool)
      requires Valid() && 0 < level < |frameClauses| && Proper(predecessor, nl.Latches())
      modifies this`core, this`frameClauses, this`frameSolvers
      ensures Valid() && Grows(nl, old(frameClauses), frameClauses)
    {
      var meets := InitIntersects(predecessor);
      if meets { return false; }
      var unsat, _ := RelativeInduction(level, predecessor, NoPredecessor);
      if unsat { BlockCounterexample(level, predecessor); }
      return unsat;
    }

    /** Tries to make the candidate inductive relative to F_level, joining it with predecessors
        and, within the budget, blocking counterexamples to generalization. */
    method CtgDown(level: nat, start: Cube, startBudget: nat) returns (ok: bool, cand: Cube, budget: nat)
      requires Valid() && level < |frameClauses| && Proper(start, nl.Latches()) && start != []
      modifies this`core, this`frameClauses, this`frameSolvers
      ensures Valid() && Grows(nl, old(frameClauses), frameClauses)
      ensures ok ==>
        SubCube(cand, start) && AvoidsInit(nl, cand) && RelativelyInductive(nl, frameClauses, level, cand)
    {
      cand, budget := start, startBudget;
      var joins := 0;
      while true
        invariant Valid() && Grows(nl, old(frameClauses), frameClauses)
        invariant SubCube(cand, start) && joins <= JOIN_MAX
        decreases budget, JOIN_MAX - joins
      {
        SubRange(cand, start, nl.Latches());
        var meets := InitIntersects(cand);
        if meets { return false, cand, budget; }
        var unsat, predecessor := RelativeInduction(level, cand, FullState);
        if unsat {
          return true, core, budget;
        }
        if budget > 0 && level > 0 {
          var blocked := TryBlock(level, predecessor);
          if blocked {
            budget := budget - 1;
            continue;
          }
        }
        joins := joins + 1;
        if joins > JOIN_MAX { return false, cand, budget; }
        var joined := Joined(cand, predecessor);
        if joined == [] || |joined| >= |cand| { return false, cand, budget; }
        cand := joined;
      }
    }

    method BlockCounterexample(level: nat, ghost predecessor: Cube)
      requires Valid() && 0 < level < |frameClauses| && Proper(predecessor, nl.Latches())
      requires SubCube(core, predecessor) && AvoidsInit(nl, core)
      requires RelativelyInductive(nl, frameClauses, level, core)
      modifies this`frameClauses, this`frameSolvers
      ensures Valid() && Grows(nl, old(frameClauses), frameClauses)
    {
      SubRange(core, predecessor, nl.Latches());
      var target := if level + 1 < |frameClauses| - 1 then level + 1 else |frameClauses| - 1;
      forall s, input | InFrame(nl, frameClauses, target - 1, s) && !CubeHolds(core, s) && nl.IsInput(input)
        ensures !CubeHolds(core, nl.Step(s, input))
      {
        FrameMonotone(nl, frameClauses, target - 1, level, s);
      }
      AddClause(target, Negate(core), core);
    }

    /** Drops literals from an inductive cube, least active first, while it stays inductive. */
    method Generalize(level: nat, start: Cube) returns (cube: Cube)
      requires Valid() && level < |frameClauses| && Proper(start, nl.Latches())
      requires AvoidsInit(nl, start) && RelativelyInductive(nl, frameClauses, level, start)
      modifies this`core, this`frameClauses, this`frameSolvers, this`litActivity
      ensures Valid() && Grows(nl, old(frameClauses), frameClauses)
      ensures SubCube(cube, start) && AvoidsInit(nl, cube) && RelativelyInductive(nl, frameClauses, level, cube)
    {
      var ctgBudget := CTG_MAX;
      cube := SortByActivity(start, litActivity);
      SameLitsMeaning(nl, frameClauses, level, start, cube);
      var i, consecutiveFails := 0, 0;
      while |cube| > 1 && i < |cube| && consecutiveFails < MIC_FAIL_MAX
        invariant Valid() && Grows(nl, old(frameClauses), frameClauses)
        invariant SubCube(cube, start) && AvoidsInit(nl, cube)
        invariant RelativelyInductive(nl, frameClauses, level, cube)
        decreases |cube| - i
      {
        var cand := cube[..i] + cube[i + 1..];
        DroppedCube(cube, i, nl.Latches(), start);
        ghost var before := frameClauses;
        var ok, smaller, left := CtgDown(level, cand, ctgBudget);
        ctgBudget := left;
        GrowsTransitive(nl, old(frameClauses), before, frameClauses);
        if ok {
          DistinctLength(smaller, cand);
          cube := smaller;
          consecutiveFails := 0;
        } else {
          GrowsKeepsInduction(nl, before, frameClauses, level, cube);
          i := i + 1;
          consecutiveFails := consecutiveFails + 1;
        }
      }
      SubRange(cube, start, nl.Latches());
      BumpActivity(cube);
    }

    method BumpActivity(cube: Cube)
      requires InRange(cube, nl.Latches()) && |litActivity| == nl.Latches()
      modifies this`litActivity
      ensures litActivity == Bumped(old(litActivity), cube)
    {
      var k := 0;
      while k < |cube|
        invariant 0 <= k <= |cube| && |litActivity| == nl.Latches()
        invariant Bumped(litActivity, cube[k..]) == Bumped(old(litActivity), cube)
      {
        assert cube[k] in cube;
        assert cube[k..][1..] == cube[k + 1..];
        var a := litActivity[cube[k].latch];
        litActivity := litActivity[cube[k].latch := if a < ACTIVITY_MAX then a + 1 else a];
        k := k + 1;
      }
    }

    // ---------- Propagation ----------

    /** Exactly whether every successor of F_level satisfies the clause. */
    method CanPush(level: nat, fc: FrameClause) returns (r: bool)
      requires Valid() && level < |frameClauses| && fc.Valid(nl.Latches())
      modifies this`frameSolvers
      ensures Valid()
      ensures r <==> PushHolds(nl, frameClauses, level, fc.clause)
    {
      var solver := GetSolver(level);
      var cube := Negate(fc.clause);
      StrictlySortedDistinct(fc.clause);
      NegateProper(fc.clause, nl.Latches());
      NegateTwice(fc.clause);
      if exists l :: l in cube && nl.ToNext(l).IsFalse() {
        ghost var l :| l in cube && nl.ToNext(l).IsFalse();
        forall s, input | InFrame(nl, frameClauses, level, s) && nl.IsInput(input)
          ensures ClauseHolds(fc.clause, nl.Step(s, input))
        {
          assert !l.Holds(nl.Step(s, input)) by { assert !nl.ToNext(l).Eval(s, input); }
          NegateMeaning(cube, nl.Step(s, input));
        }
        return true;
      }
      var result := SolveWith(nl, solver, NextSignals(nl, Assumable(nl, cube)));
      r := result.Unsat?;
      if r {
        PushRefuted(nl, frameClauses, level, solver, fc, result.conflict);
      } else {
        var s, input := result.state, result.input;
        NextSignalsMeaning(nl, Assumable(nl, cube), s, input);
        AssumableMeaning(nl, cube, nl.Step(s, input), s, input);
        NegateMeaning(cube, nl.Step(s, input));
        assert InFrame(nl, frameClauses, level, s);
      }
    }

    method Push(i: nat, fc: FrameClause)
      requires Valid() && i + 1 < |frameClauses| && fc.Valid(nl.Latches())
      requires HoldsInFrame(nl, frameClauses, i, fc.clause) && PushHolds(nl, frameClauses, i, fc.clause)
      modifies this`frameClauses, this`frameSolvers
      ensures Valid() && frameClauses == Pushed(old(frameClauses), i, fc)
    {
      PushedKeepsInvariant(nl, frameClauses, i, fc);
      PushedSlotsMatch(nl, frameClauses, i, fc, frameSolvers);
      frameSolvers := PushedSlots(frameSolvers, i, fc);
      frameClauses := Pushed(frameClauses, i, fc);
    }

    /** Pushes one clause of frame i, or leaves it with those that are stuck there. */
    method PropagateClause(i: nat, fc: FrameClause, ghost f: Frames, ghost rest: seq<FrameClause>, ghost stuck: seq<FrameClause>)
      returns (ghost more: seq<FrameClause>)
      requires Valid() && i + 1 < |frameClauses| && FrameInvariant(nl, f) && |f| == |frameClauses| && fc in f[i]
      requires OnlyShrinks(nl, f, frameClauses, i + 1)
      requires Remaining(frameClauses[i], [fc] + rest, stuck) && AllStuck(nl, f, i, stuck)
      modifies this`frameClauses, this`frameSolvers
      ensures Valid() && OnlyShrinks(nl, f, frameClauses, i + 1)
      ensures Remaining(frameClauses[i], rest, more) && AllStuck(nl, f, i, more)
    {
      more := stuck;
      OwnClauseHolds(nl, f, i, fc);
      OthersUnchanged(nl, f, frameClauses, i + 1, i, fc.clause);
      var pushable := CanPush(i, fc);
      if pushable {
        ghost var frame := frameClauses[i];
        PushedOnlyShrinks(nl, f, frameClauses, i, i + 1, fc);
        Push(i, fc);
        RemainingPushed(frame, fc, rest, stuck);
      } else {
        more := stuck + [fc];
      }
    }

    /** Pushes what it can of one level; a clause that stays behind has a witness. */
    method PropagateLevel(i: nat)
      requires Valid() && 1 <= i && i + 1 < |frameClauses|
      modifies this`frameClauses, this`frameSolvers
      ensures Valid() && OnlyShrinks(nl, old(frameClauses), frameClauses, i + 1)
      ensures AllStuck(nl, frameClauses, i, frameClauses[i])
    {
      ghost var f := frameClauses;
      var clauses := frameClauses[i];
      ghost var stuck: seq<FrameClause> := [];
      var c := 0;
      while c < |clauses|
        invariant 0 <= c <= |clauses|
        invariant Valid() && OnlyShrinks(nl, f, frameClauses, i + 1)
        invariant Remaining(frameClauses[i], clauses[c..], stuck) && AllStuck(nl, f, i, stuck)
      {
        assert clauses[c..] == [clauses[c]] + clauses[c + 1..];
        stuck := PropagateClause(i, clauses[c], f, clauses[c + 1..], stuck);
        c := c + 1;
      }
      RemainingStuck(nl, f, frameClauses, i, clauses[c..], stuck);
    }

    /** Either finds an empty delta or leaves every frame strictly inside the next. */
    method Propagate() returns (converged: bool)
      requires Valid()
      modifies this`frameClauses, this`frameSolvers
      ensures Valid() && |frameClauses| == |old(frameClauses)|
      ensures forall m: nat, s :: InFrame(nl, frameClauses, m, s) ==> InFrame(nl, old(frameClauses), m, s)
      ensures converged ==> exists i :: 1 <= i && i + 1 < |frameClauses| && frameClauses[i] == []
      ensures !converged ==> StrictlyGrowing(nl, frameClauses)
    {
      var i := 1;
      while i + 1 < |frameClauses|
        invariant 1 <= i && Valid() && |frameClauses| == |old(frameClauses)|
        invariant forall m: nat, s :: InFrame(nl, frameClauses, m, s) ==> InFrame(nl, old(frameClauses), m, s)
        invariant forall m: nat :: 1 <= m < i && m + 1 < |frameClauses| ==> StrictStep(nl, frameClauses, m)
        decreases |frameClauses| - i
      {
        ghost var g := frameClauses;
        PropagateLevel(i);
        forall m: nat | 1 <= m < i && m + 1 < |frameClauses| ensures StrictStep(nl, frameClauses, m) {
          StrictStepKept(nl, g, frameClauses, i + 1, m);
        }
        if frameClauses[i] == [] {
          return true;
        }
        StuckSeparates(nl, frameClauses, i);
        i := i + 1;
      }
      return false;
    }

    // ---------- The main loop ----------

    /** Handles the obligation at the top of the queue. Unless the property is refuted, either a
        clause that was open is now blocked, or the frames are the same and the queue has fewer
        blocked obligations or a lower top; an unblocked obligation never just disappears. */
    method Discharge(queue: seq<Obligation>, k: nat) returns (refuted: bool, length: nat, queue': seq<Obligation>)
      requires Valid() && k == |frameClauses| - 1 && queue != []
      requires forall o :: o in queue ==> ValidObligation(nl, o, k)
      modifies this`core, this`frameClauses, this`frameSolvers, this`litActivity
      ensures Valid() && Grows(nl, old(frameClauses), frameClauses)
      ensures refuted ==> nl.HasCounterexample(length)
      ensures !refuted ==> forall o :: o in queue' ==> ValidObligation(nl, o, k)
      ensures !refuted ==>
        || OpenFrom(frameClauses, 0, nl.Latches()) < OpenFrom(old(frameClauses), 0, nl.Latches())
        || (frameClauses == old(frameClauses) && SmallerQueue(frameClauses, queue, queue'))
    {
      length := 0;
      var top, rest, at := PopTop(queue);
      assert top in queue;
      RestMembers(queue, at, rest);
      var cube, level, depth := top.cube, top.level, top.depth;
      var blocked := IsBlocked(cube, level);
      if blocked {
        CountSplit(frameClauses, queue, at, rest);
        return false, 0, rest;
      }
      var meets := InitIntersects(cube);
      if meets {
        var s :| nl.IsInit(s) && CubeHolds(cube, s);
        nl.BadFromInit(s, depth);
        return true, depth + 1, [];
      }
      if level == 0 {
        BlockAtInit(cube);
        return false, 0, rest;
      }
      queue' := BlockOrDescend(queue, k, top, rest, at);
      return false, 0, queue';
    }

    method BlockAtInit(cube: Cube)
      requires Valid() && Proper(cube, nl.Latches()) && AvoidsInit(nl, cube)
      requires !Subsumed(frameClauses, 0, LitSet(Negate(cube)))
      modifies this`frameClauses, this`frameSolvers
      ensures Valid() && Grows(nl, old(frameClauses), frameClauses)
      ensures OpenFrom(frameClauses, 0, nl.Latches()) < OpenFrom(old(frameClauses), 0, nl.Latches())
    {
      ghost var f := frameClauses;
      AddClause(0, Negate(cube), cube);
      NegationInRange(cube, nl.Latches());
      OpenFromDrops(nl, f, frameClauses, 0, 0, LitSet(Negate(cube)));
    }

    /** An unblocked obligation above F_0: queue a predecessor one level down, or block the cube
        and requeue it one level up. */
    method BlockOrDescend(ghost queue: seq<Obligation>, k: nat, top: Obligation, rest: seq<Obligation>, ghost at: nat)
      returns (queue': seq<Obligation>)
      requires Valid() && k == |frameClauses| - 1 && top.level > 0
      requires forall o :: o in queue ==> ValidObligation(nl, o, k)
      requires at < |queue| && top == queue[at] && rest == queue[..at] + queue[at + 1..]
      requires forall o :: o in queue ==> top.level <= o.level
      requires !Blocked(frameClauses, top) && AvoidsInit(nl, top.cube)
      modifies this`core, this`frameClauses, this`frameSolvers, this`litActivity
      ensures Valid() && Grows(nl, old(frameClauses), frameClauses)
      ensures forall o :: o in queue' ==> ValidObligation(nl, o, k)
      ensures
        || OpenFrom(frameClauses, 0, nl.Latches()) < OpenFrom(old(frameClauses), 0, nl.Latches())
        || (frameClauses == old(frameClauses) && SmallerQueue(frameClauses, queue, queue'))
      ensures if Blocked(frameClauses, top) then Requeued(rest, top, k, queue') else Descended(rest, top, queue')
    {
      assert top in queue;
      var cube, level, depth := top.cube, top.level, top.depth;
      var excluded, predecessor := SolveRelative(level - 1, cube);
      if !excluded {
        var pred := Obligation(predecessor, level - 1, depth + 1);
        queue' := rest + [pred] + [top];
        DescendStep(nl, frameClauses, queue, k, at, top, rest, pred, queue');
        return;
      }
      BlockInductive(level, cube);
      queue' := if level + 1 <= k then rest + [Obligation(cube, level + 1, depth)] else rest;
      RequeueStep(nl, queue, k, at, top, rest, queue');
    }

    /** Generalizes the core just found and blocks it, and with it the cube, at the level. */
    method BlockInductive(level: nat, ghost cube: Cube)
      requires Valid() && 1 <= level < |frameClauses| && Proper(cube, nl.Latches())
      requires !Subsumed(frameClauses, level, LitSet(Negate(cube)))
      requires SubCube(core, cube) && AvoidsInit(nl, core)
      requires RelativelyInductive(nl, frameClauses, level - 1, core)
      modifies this`core, this`frameClauses, this`frameSolvers, this`litActivity
      ensures Valid() && Grows(nl, old(frameClauses), frameClauses)
      ensures OpenFrom(frameClauses, 0, nl.Latches()) < OpenFrom(old(frameClauses), 0, nl.Latches())
      ensures Subsumed(frameClauses, level, LitSet(Negate(cube)))
    {
      ghost var f, start := frameClauses, core;
      SubRange(core, cube, nl.Latches());
      var generalized := Generalize(level - 1, core);
      ghost var g := frameClauses;
      SubRange(generalized, start, nl.Latches());
      AddClause(level, Negate(generalized), generalized);
      GrowsTransitive(nl, f, g, frameClauses);
      NegateSubset(generalized, cube);
      SubsumedWider(frameClauses, level, LitSet(Negate(generalized)), LitSet(Negate(cube)));
      NegationInRange(cube, nl.Latches());
      OpenFromDrops(nl, f, frameClauses, 0, level, LitSet(Negate(cube)));
    }

    /** Works the queue down from one bad cube. */
    method BlockObligations(bad: Cube, k: nat) returns (refuted: bool, length: nat)
      requires Valid() && k == |frameClauses| - 1 && Proper(bad, nl.Latches())
      requires MeetsFrame(nl, frameClauses, k, bad) && LeadsToBad(nl, bad, 0)
      modifies this`core, this`frameClauses, this`frameSolvers, this`litActivity
      ensures Valid() && Grows(nl, old(frameClauses), frameClauses)
      ensures refuted ==> nl.HasCounterexample(length)
      ensures !refuted ==>
        OpenFrom(frameClauses, 0, nl.Latches()) < OpenFrom(old(frameClauses), 0, nl.Latches())
    {
      var queue := [Obligation(bad, k, 0)];
      ghost var f := frameClauses;
      PredecessorUnblocked(nl, f, k, bad);
      assert queue[0] in queue;
      while queue != []
        invariant Valid() && |frameClauses| == |f| && Grows(nl, f, frameClauses)
        invariant forall o :: o in queue ==> ValidObligation(nl, o, k)
        invariant
          || OpenFrom(frameClauses, 0, nl.Latches()) < OpenFrom(f, 0, nl.Latches())
          || (frameClauses == f && HasUnblocked(f, queue))
        decreases OpenFrom(frameClauses, 0, nl.Latches()), CountBlocked(frameClauses, queue), MinLevel(queue)
      {
        ghost var g := frameClauses;
        refuted, length, queue := Discharge(queue, k);
        GrowsTransitive(nl, f, g, frameClauses);
        if refuted { return; }
      }
      return false, 0;
    }

    /** Blocks bad cubes at level k until F_k lies inside the property. */
    method BlockingPhase(k: nat) returns (refuted: bool, length: nat)
      requires Valid() && k == |frameClauses| - 1
      modifies this`core, this`frameClauses, this`frameSolvers, this`litActivity
      ensures Valid() && |frameClauses| == |old(frameClauses)|
      ensures refuted ==> nl.HasCounterexample(length)
      ensures !refuted ==> forall s, input :: InFrame(nl, frameClauses, k, s) && nl.IsInput(input) ==>
        nl.prop.Eval(s, input)
    {
      while true
        invariant Valid() && |frameClauses| == |old(frameClauses)|
        decreases OpenFrom(frameClauses, 0, nl.Latches())
      {
        var found, bad := SolveBad(k);
        if !found { return false, 0; }
        refuted, length := BlockObligations(bad, k);
        if refuted { return; }
      }
    }

    /** Decides the property: PROVED means no run violates it, REFUTED means a run with exactly
        the reported number of states does. */
    method Solve() returns (r: Outcome)
      requires Valid()
      modifies this
      ensures Valid()
      ensures r.Proved? ==> nl.Safe()
      ensures r.Refuted? ==> nl.HasCounterexample(r.length)
    {
      var bad := InitialStateIsBad();
      if bad { return Refuted(1); }
      while true
        invariant Valid()
        decreases Pow2(nl.Latches()) + 3 - |frameClauses|
      {
        NewFrame();
        var k := |frameClauses| - 1;
        var refuted, length := BlockingPhase(k);
        if refuted { return Refuted(length); }
        var converged := Propagate();
        if converged {
          ghost var i :| 1 <= i && i + 1 < |frameClauses| && frameClauses[i] == [];
          ConvergenceProves(nl, frameClauses, i, k);
          return Proved;
        }
        FrameBound(nl, frameClauses);
      }
    }
  }

  // ---------- The obligation queue ----------

  ghost predicate ValidObligation(nl: Netlist, o: Obligation, k: nat) {
    Proper(o.cube, nl.Latches()) && o.level <= k && LeadsToBad(nl, o.cube, o.depth)
  }

  ghost predicate Blocked(f: Frames, o: Obligation) {
    Subsumed(f, o.level, LitSet(Negate(o.cube)))
  }

  ghost predicate HasUnblocked(f: Frames, queue: seq<Obligation>) {
    exists o :: o in queue && !Blocked(f, o)
  }

  ghost function CountBlocked(f: Frames, queue: seq<Obligation>): nat {
    if queue == [] then 0
    else CountBlocked(f, queue[..|queue| - 1]) + (if Blocked(f, queue[|queue| - 1]) then 1 else 0)
  }

  /** The level of the top of the queue. */
  ghost function MinLevel(queue: seq<Obligation>): (r: nat)
    ensures queue != [] ==> exists o :: o in queue && o.level == r
    ensures forall o :: o in queue ==> r <= o.level
  {
    if queue == [] then 0
    else
      var last := queue[|queue| - 1];
      assert queue == queue[..|queue| - 1] + [last];
      if |queue| == 1 then last.level
      else
        var m := MinLevel(queue[..|queue| - 1]);
        if last.level < m then last.level else m
  }

  /** One step of progress on unchanged frames. */
  ghost predicate SmallerQueue(f: Frames, queue: seq<Obligation>, queue': seq<Obligation>) {
    && (HasUnblocked(f, queue) ==> HasUnblocked(f, queue'))
    && (CountBlocked(f, queue') < CountBlocked(f, queue)
        || (CountBlocked(f, queue') == CountBlocked(f, queue) && MinLevel(queue') < MinLevel(queue)))
  }

  /** Removes an obligation of minimal level. */
  method PopTop(queue: seq<Obligation>) returns (top: Obligation, rest: seq<Obligation>, ghost at: nat)
    requires queue != []
    ensures at < |queue| && top == queue[at] && rest == queue[..at] + queue[at + 1..]
    ensures forall o :: o in queue ==> top.level <= o.level
  {
    var best, i := 0, 1;
    while i < |queue|
      invariant 1 <= i <= |queue| && best < |queue|
      invariant forall m :: 0 <= m < i ==> queue[best].level <= queue[m].level
    {
      if queue[i].level < queue[best].level { best := i; }
      i := i + 1;
    }
    return queue[best], queue[..best] + queue[best + 1..], best;
  }

  lemma RestMembers(queue: seq<Obligation>, at: nat, rest: seq<Obligation>)
    requires at < |queue| && rest == queue[..at] + queue[at + 1..]
    ensures forall o :: o in rest ==> o in queue
    ensures forall o :: o in queue ==> o == queue[at] || o in rest
  {
    forall o | o in queue ensures o == queue[at] || o in rest {
      var m :| 0 <= m < |queue| && queue[m] == o;
      if m < at { assert rest[m] == o; }
      if m > at { assert rest[m - 1] == o; }
    }
  }

  lemma {:induction false} CountConcat(f: Frames, a: seq<Obligation>, b: seq<Obligation>)
    ensures CountBlocked(f, a + b) == CountBlocked(f, a) + CountBlocked(f, b)
  {
    if b == [] {
      assert a + b == a;
    } else {
      var last := |b| - 1;
      assert (a + b)[..|a + b| - 1] == a + b[..last];
      CountConcat(f, a, b[..last]);
    }
  }

  lemma CountOne(f: Frames, o: Obligation)
    ensures CountBlocked(f, [o]) == if Blocked(f, o) then 1 else 0
  {
    assert [o][..0] == [];
    assert CountBlocked(f, []) == 0;
  }

  lemma CountRest(f: Frames, queue: seq<Obligation>, at: nat, rest: seq<Obligation>)
    requires at < |queue| && rest == queue[..at] + queue[at + 1..]
    ensures CountBlocked(f, queue) == CountBlocked(f, rest) + if Blocked(f, queue[at]) then 1 else 0
  {
    assert queue == queue[..at] + ([queue[at]] + queue[at + 1..]);
    CountConcat(f, queue[..at], [queue[at]] + queue[at + 1..]);
    CountConcat(f, [queue[at]], queue[at + 1..]);
    CountConcat(f, queue[..at], queue[at + 1..]);
    CountOne(f, queue[at]);
  }

  lemma CountSplit(f: Frames, queue: seq<Obligation>, at: nat, rest: seq<Obligation>)
    requires at < |queue| && rest == queue[..at] + queue[at + 1..] && Blocked(f, queue[at])
    ensures SmallerQueue(f, queue, rest)
  {
    CountRest(f, queue, at, rest);
    RestMembers(queue, at, rest);
  }

  /** Queueing an unblocked predecessor one level down lowers the top of the queue. */
  lemma RequeueShrinks(f: Frames, queue: seq<Obligation>, at: nat, rest: seq<Obligation>, pred: Obligation)
    requires at < |queue| && rest == queue[..at] + queue[at + 1..]
    requires forall o :: o in queue ==> queue[at].level <= o.level
    requires !Blocked(f, queue[at]) && !Blocked(f, pred) && pred.level < queue[at].level
    ensures SmallerQueue(f, queue, rest + [pred] + [queue[at]])
  {
    var queue' := rest + [pred] + [queue[at]];
    CountRest(f, queue, at, rest);
    CountConcat(f, rest + [pred], [queue[at]]);
    CountConcat(f, rest, [pred]);
    CountOne(f, pred);
    CountOne(f, queue[at]);
    assert pred in queue' && queue[at] in queue';
  }

  /** A blocked cube is looked at again one level up, if there is one. */
  ghost predicate Requeued(rest: seq<Obligation>, top: Obligation, k: nat, queue: seq<Obligation>) {
    queue == if top.level < k then rest + [Obligation(top.cube, top.level + 1, top.depth)] else rest
  }

  /** A predecessor has to be blocked first, one level down and one step further from the violation. */
  ghost predicate Descended(rest: seq<Obligation>, top: Obligation, queue: seq<Obligation>)
    requires top.level > 0
  {
    exists pred: Obligation :: queue == rest + [pred] + [top] && pred.level == top.level - 1 && pred.depth == top.depth + 1
  }

  lemma DescendStep(nl: Netlist, f: Frames, queue: seq<Obligation>, k: nat, at: nat, top: Obligation, rest: seq<Obligation>,
                    pred: Obligation, queue': seq<Obligation>)
    requires at < |queue| && top == queue[at] && rest == queue[..at] + queue[at + 1..] && queue' == rest + [pred] + [top]
    requires forall o :: o in queue ==> ValidObligation(nl, o, k)
    requires forall o :: o in queue ==> top.level <= o.level
    requires pred.level + 1 == top.level && pred.depth == top.depth + 1
    requires Proper(pred.cube, nl.Latches()) && StepsInto(nl, pred.cube, top.cube)
    requires MeetsFrame(nl, f, pred.level, pred.cube) && !Blocked(f, top)
    ensures Descended(rest, top, queue') && SmallerQueue(f, queue, queue')
    ensures forall o :: o in queue' ==> ValidObligation(nl, o, k)
  {
    assert top in queue;
    PredecessorValid(nl, top, k, pred);
    DescendValid(nl, queue, k, at, rest, pred);
    PredecessorUnblocked(nl, f, pred.level, pred.cube);
    RequeueShrinks(f, queue, at, rest, pred);
  }

  lemma RequeueStep(nl: Netlist, queue: seq<Obligation>, k: nat, at: nat, top: Obligation, rest: seq<Obligation>,
                    queue': seq<Obligation>)
    requires at < |queue| && top == queue[at] && rest == queue[..at] + queue[at + 1..] && Requeued(rest, top, k, queue')
    requires forall o :: o in queue ==> ValidObligation(nl, o, k)
    ensures forall o :: o in queue' ==> ValidObligation(nl, o, k)
  {
    RestMembers(queue, at, rest);
    assert top in queue;
  }

  lemma DescendValid(nl: Netlist, queue: seq<Obligation>, k: nat, at: nat, rest: seq<Obligation>, pred: Obligation)
    requires forall o :: o in queue ==> ValidObligation(nl, o, k)
    requires at < |queue| && rest == queue[..at] + queue[at + 1..] && ValidObligation(nl, pred, k)
    ensures forall o :: o in rest + [pred] + [queue[at]] ==> ValidObligation(nl, o, k)
  {
    RestMembers(queue, at, rest);
    assert queue[at] in queue;
  }

  lemma PredecessorValid(nl: Netlist, top: Obligation, k: nat, pred: Obligation)
    requires ValidObligation(nl, top, k) && top.level == pred.level + 1 && pred.depth == top.depth + 1
    requires Proper(pred.cube, nl.Latches()) && StepsInto(nl, pred.cube, top.cube)
    ensures ValidObligation(nl, pred, k)
  {
    PredecessorLeads(nl, pred.cube, top.cube, top.depth);
  }

  lemma PredecessorLeads(nl: Netlist, pred: Cube, cube: Cube, depth: nat)
    requires StepsInto(nl, pred, cube) && LeadsToBad(nl, cube, depth)
    ensures LeadsToBad(nl, pred, depth + 1)
  {
    forall t | nl.IsState(t) && CubeHolds(pred, t) ensures nl.ReachesBad(t, depth + 1) {
      var input :| nl.IsInput(input) && CubeHolds(cube, nl.Step(t, input));
      assert nl.ReachesBad(nl.Step(t, input), depth);
    }
  }

  lemma PredecessorUnblocked(nl: Netlist, f: Frames, level: nat, cube: Cube)
    requires InRange(cube, nl.Latches()) && MeetsFrame(nl, f, level, cube)
    ensures !Subsumed(f, level, LitSet(Negate(cube)))
  {
    var s :| InFrame(nl, f, level, s) && CubeHolds(cube, s);
    MemberNotBlocked(nl, f, level, cube, s);
  }

  lemma SubsumedWider(f: Frames, level: nat, a: set<Lit>, b: set<Lit>)
    requires Subsumed(f, level, a) && a <= b
    ensures Subsumed(f, level, b)
  {
    var j, fc :| level <= j < |f| && fc in f[j] && fc.Lits() <= a;
  }

  function ActivityOf(l: Lit, activity: seq<nat>): nat {
    if l.latch < |activity| then activity[l.latch] else 0
  }

  predicate ByActivity(c: Cube, activity: seq<nat>) {
    forall i, j :: 0 <= i < j < |c| ==> ActivityOf(c[i], activity) <= ActivityOf(c[j], activity)
  }

  function InsertByActivity(l: Lit, c: Cube, activity: seq<nat>): (r: Cube)
    requires ByActivity(c, activity)
    ensures forall x :: x in r <==> x == l || x in c
    ensures ByActivity(r, activity)
    ensures Distinct(c) && l !in c ==> Distinct(r)
  {
    if c == [] then [l]
    else if ActivityOf(l, activity) <= ActivityOf(c[0], activity) then [l] + c
    else
      assert forall x :: x in c <==> x == c[0] || x in c[1..];
      assert Distinct(c) ==> Distinct(c[1..]) && c[0] !in c[1..];
      var rest := InsertByActivity(l, c[1..], activity);
      assert forall x :: x in rest ==> ActivityOf(c[0], activity) <= ActivityOf(x, activity);
      [c[0]] + rest
  }

  /** The cube with its least active literals first. */
  function SortByActivity(c: Cube, activity: seq<nat>): (r: Cube)
    ensures ByActivity(r, activity)
    ensures forall x :: x in r <==> x in c
    ensures Distinct(c) ==> Distinct(r)
  {
    if c == [] then []
    else
      assert forall x :: x in c <==> x == c[0] || x in c[1..];
      assert Distinct(c) ==> Distinct(c[1..]) && c[0] !in c[1..];
      InsertByActivity(c[0], SortByActivity(c[1..], activity), activity)
  }

  lemma SameLitsMeaning(nl: Netlist, f: Frames, level: nat, a: Cube, b: Cube)
    requires LitSet(a) == LitSet(b)
    ensures AvoidsInit(nl, a) ==> AvoidsInit(nl, b)
    ensures RelativelyInductive(nl, f, level, a) ==> RelativelyInductive(nl, f, level, b)
    ensures a != [] ==> b != []
  {
    forall s ensures CubeHolds(a, s) <==> CubeHolds(b, s) {
      if CubeHolds(a, s) { SubsetHolds(b, a, s); }
      if CubeHolds(b, s) { SubsetHolds(a, b, s); }
    }
    if a != [] { assert a[0] in LitSet(a); }
  }

  lemma DroppedCube(cube: Cube, i: nat, n: nat, start: Cube)
    requires i < |cube| && |cube| > 1 && SubCube(cube, start) && InRange(start, n)
    ensures var cand := cube[..i] + cube[i + 1..];
      Proper(cand, n) && cand != [] && LitSet(cand) <= LitSet(cube)
  {
    SubRange(cube, start, n);
  }

  lemma ConstantFalseExcludes(nl: Netlist, f: Frames, level: nat, cube: Cube, l: Lit)
    requires InRange(cube, nl.Latches()) && l in cube && nl.ToNext(l).IsFalse()
    ensures Excludes(nl, f, level, cube, [l])
  {
    forall s, input | InFrame(nl, f, level, s) && !CubeHolds(cube, s) && nl.IsInput(input)
      ensures !CubeHolds([l], nl.Step(s, input))
    {
      assert !nl.ToNext(l).Eval(s, input);
      assert l in [l];
    }
  }

  lemma PushRefuted(nl: Netlist, f: Frames, level: nat, solver: SatSolver, fc: FrameClause, conflict: set<nat>)
    requires SolverMatches(nl, f, level, solver) && InRange(Negate(fc.clause), nl.Latches())
    requires Refutes(nl, solver, NextSignals(nl, Assumable(nl, Negate(fc.clause))), conflict)
    ensures PushHolds(nl, f, level, fc.clause)
  {
    var cube := Negate(fc.clause);
    var lits := Assumable(nl, cube);
    NegateTwice(fc.clause);
    forall s, input | InFrame(nl, f, level, s) && nl.IsInput(input)
      ensures ClauseHolds(fc.clause, nl.Step(s, input))
    {
      var k :| k in conflict && k < |lits| && !NextSignals(nl, lits)[k].Eval(s, input);
      assert lits[k] in lits && lits[k] in cube;
      NegateMeaning(cube, nl.Step(s, input));
    }
  }

  lemma PushedSolver(nl: Netlist, f: Frames, i: nat, fc: FrameClause, m: nat, solver: SatSolver)
    requires i + 1 < |f| && HoldsInFrame(nl, f, i, fc.clause) && SolverMatches(nl, f, m, solver)
    ensures SolverMatches(nl, Pushed(f, i, fc), m, if m == i + 1 then solver.Add(fc.clause) else solver)
  {
    forall s | nl.IsState(s)
      ensures SolverHolds(nl, if m == i + 1 then solver.Add(fc.clause) else solver, s) <==>
        InFrame(nl, Pushed(f, i, fc), m, s)
    {
      PushedMeaning(nl, f, i, fc, m, s);
      AddHolds(nl, solver, fc.clause, s);
    }
  }

  /** Only the solver of the level above needs to learn a pushed clause. */
  function PushedSlots(slots: seq<SolverSlot>, i: nat, fc: FrameClause): (r: seq<SolverSlot>)
    ensures |r| == |slots|
  {
    if i + 1 < |slots| && slots[i + 1].Built? then slots[i + 1 := Built(slots[i + 1].solver.Add(fc.clause))]
    else slots
  }

  lemma PushedSlotsMatch(nl: Netlist, f: Frames, i: nat, fc: FrameClause, slots: seq<SolverSlot>)
    requires i + 1 < |f| && HoldsInFrame(nl, f, i, fc.clause) && SolversMatch(nl, f, slots)
    ensures SolversMatch(nl, Pushed(f, i, fc), PushedSlots(slots, i, fc))
  {
    var r := PushedSlots(slots, i, fc);
    forall m | 0 <= m < |r| && r[m].Built? ensures SolverMatches(nl, Pushed(f, i, fc), m, r[m].solver) {
      PushedSolver(nl, f, i, fc, m, slots[m].solver);
    }
  }

  /** What is left of a frame is still to be tried or stuck. */
  ghost predicate Remaining(frame: seq<FrameClause>, rest: seq<FrameClause>, stuck: seq<FrameClause>) {
    multiset(frame) <= multiset(rest) + multiset(stuck)
  }

  ghost predicate AllStuck(nl: Netlist, f: Frames, i: nat, stuck: seq<FrameClause>) {
    forall fc :: fc in stuck ==> !PushHolds(nl, f, i, fc.clause)
  }

  lemma RemainingPushed(frame: seq<FrameClause>, fc: FrameClause, rest: seq<FrameClause>, stuck: seq<FrameClause>)
    requires Remaining(frame, [fc] + rest, stuck)
    ensures Remaining(RemoveFirst(frame, fc), rest, stuck)
  {
  }

  lemma RemainingStuck(nl: Netlist, f: Frames, g: Frames, i: nat, rest: seq<FrameClause>, stuck: seq<FrameClause>)
    requires i + 1 < |g| && OnlyShrinks(nl, f, g, i + 1) && rest == []
    requires Remaining(g[i], rest, stuck) && AllStuck(nl, f, i, stuck)
    ensures AllStuck(nl, g, i, g[i])
  {
    forall fc | fc in g[i] ensures !PushHolds(nl, g, i, fc.clause) {
      assert fc in multiset(g[i]) && fc in stuck;
      OthersUnchanged(nl, f, g, i + 1, i, fc.clause);
    }
  }

  lemma OwnClauseHolds(nl: Netlist, f: Frames, i: nat, fc: FrameClause)
    requires FrameInvariant(nl, f) && i < |f| && fc in f[i]
    ensures fc.Valid(nl.Latches()) && HoldsInFrame(nl, f, i, fc.clause)
  {
  }

  lemma StrictStepKept(nl: Netlist, f: Frames, g: Frames, k: nat, m: nat)
    requires OnlyShrinks(nl, f, g, k) && m + 1 < k && StrictStep(nl, f, m)
    ensures StrictStep(nl, g, m)
  {
  }

  lemma StuckSeparates(nl: Netlist, f: Frames, i: nat)
    requires FrameInvariant(nl, f) && i + 1 < |f| && f[i] != []
    requires AllStuck(nl, f, i, f[i])
    ensures StrictStep(nl, f, i)
  {
    var fc := f[i][0];
    assert fc in f[i];
    var s, input :| InFrame(nl, f, i, s) && nl.IsInput(input) && !ClauseHolds(fc.clause, nl.Step(s, input));
    UnpushedSeparates(nl, f, i, fc, s, input);
  }

  lemma CoveredMeetsInit(nl: Netlist, core: Cube, cube: Cube)
    requires !AvoidsInit(nl, core) && forall k :: 0 <= k < |cube| ==> cube[k] in core
    ensures !AvoidsInit(nl, cube)
  {
    var s :| nl.IsInit(s) && CubeHolds(core, s);
    assert CubeHolds(cube, s);
  }

  /** The frames up to the level lose exactly the cube's states; the others lose nothing. */
  ghost predicate LosesCube(nl: Netlist, f: Frames, g: Frames, level: nat, cube: Cube) {
    forall i: nat, s :: InFrame(nl, g, i, s) <==> InFrame(nl, f, i, s) && (i <= level ==> !CubeHolds(cube, s))
  }

  lemma InstalledBlocks(nl: Netlist, f: Frames, level: nat, fc: FrameClause, cube: Cube)
    requires level < |f| && InRange(cube, nl.Latches()) && fc.Lits() == LitSet(Negate(cube))
    ensures LosesCube(nl, f, Installed(f, level, fc), level, cube)
  {
    forall i: nat, s ensures InFrame(nl, Installed(f, level, fc), i, s) <==>
      InFrame(nl, f, i, s) && (i <= level ==> !CubeHolds(cube, s))
    {
      InstalledMeaning(nl, f, level, fc, i, s);
      if nl.IsState(s) { CubeClause(nl, fc, cube, s); }
    }
  }

  lemma IsInstalled(f: Frames, kept: Frames, level: nat, fc: FrameClause)
    requires level < |f| == |kept|
    requires forall m :: 0 <= m < |f| ==> kept[m] == if m <= level then RemoveSubsumed(f[m], fc) else f[m]
    ensures kept[level := kept[level] + [fc]] == Installed(f, level, fc)
  {
  }

  /** What installing a clause does to the frames. */
  lemma ClauseInstalled(nl: Netlist, f: Frames, g: Frames, level: nat, fc: FrameClause, clause: Clause, cube: Cube)
    requires FrameInvariant(nl, f) && level < |f| && fc.Valid(nl.Latches()) && g == Installed(f, level, fc)
    requires InRange(cube, nl.Latches()) && fc.Lits() == LitSet(Negate(cube)) && clause == Negate(cube)
    requires AvoidsInit(nl, cube)
    requires level > 0 ==> RelativelyInductive(nl, f, level - 1, cube)
    ensures FrameInvariant(nl, g) && Grows(nl, f, g) && Subsumed(g, level, LitSet(clause))
    ensures LosesCube(nl, f, g, level, cube)
  {
    InstalledKeepsInvariant(nl, f, level, fc, cube);
    InstalledGrows(nl, f, level, fc);
    InstalledSubsumes(f, level, fc, level, LitSet(clause));
    InstalledBlocks(nl, f, level, fc, cube);
  }

  lemma RedundantMeaning(nl: Netlist, f: Frames, level: nat, fc: FrameClause, clause: Clause, cube: Cube)
    requires Subsumed(f, level, fc.Lits()) && InRange(cube, nl.Latches())
    requires fc.Lits() == LitSet(Negate(cube)) && clause == Negate(cube)
    ensures Grows(nl, f, f) && Subsumed(f, level, LitSet(clause))
    ensures LosesCube(nl, f, f, level, cube)
  {
    var j, c :| level <= j < |f| && c in f[j] && c.Lits() <= fc.Lits();
    forall i: nat, s | i <= level && InFrame(nl, f, i, s) ensures !CubeHolds(cube, s) {
      ClauseMonotone(c.clause, fc.clause, s);
      CubeClause(nl, fc, cube, s);
    }
  }
}
