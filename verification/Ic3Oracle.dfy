/** SAT calls as the IC3 solver sees them. Each search is an exhaustive one here; callers rely
    only on the contracts: a full model, or a set of assumptions that suffices for unsatisfiability. */
module Ic3Oracle {
  import opened Vectors
  import opened Ic3Clause
  import opened Ic3Netlist

  /** A frame solver: the transition relation, the initial condition when withInit, and clauses. */
  datatype SatSolver = SatSolver(withInit: bool, clauses: seq<Clause>) {
    function Add(c: Clause): SatSolver {
      SatSolver(withInit, clauses + [c])
    }
  }

  predicate SolverHolds(nl: Netlist, solver: SatSolver, s: Vector) {
    (solver.withInit ==> nl.init(s)) && forall c :: c in solver.clauses ==> ClauseHolds(c, s)
  }

  lemma AddHolds(nl: Netlist, solver: SatSolver, c: Clause, s: Vector)
    ensures SolverHolds(nl, solver.Add(c), s) <==> SolverHolds(nl, solver, s) && ClauseHolds(c, s)
  {
  }

  function Indices(n: nat): (r: set<nat>)
    ensures forall k: nat :: k in r <==> k < n
  {
    if n == 0 then {} else Indices(n - 1) + {n - 1}
  }

  datatype SatResult = Sat(state: Vector, input: Vector) | Unsat(conflict: set<nat>)

  predicate AllTrue(signals: seq<Signal>, s: Vector, input: Vector) {
    forall k :: 0 <= k < |signals| ==> signals[k].Eval(s, input)
  }

  predicate NoneTrue(signals: seq<Signal>, s: Vector, input: Vector) {
    forall k :: 0 <= k < |signals| ==> !signals[k].Eval(s, input)
  }

  /** The chosen assumptions alone cannot be met by any state of the solver. */
  ghost predicate Refutes(nl: Netlist, solver: SatSolver, assumptions: seq<Signal>, conflict: set<nat>) {
    forall s, input :: nl.IsState(s) && nl.IsInput(input) && SolverHolds(nl, solver, s) ==>
      exists k :: k in conflict && k < |assumptions| && !assumptions[k].Eval(s, input)
  }

  /** A single assumption that is refuted is false wherever the solver holds. */
  lemma OneAssumption(nl: Netlist, solver: SatSolver, x: Signal, conflict: set<nat>, s: Vector, input: Vector)
    requires Refutes(nl, solver, [x], conflict) && nl.IsState(s) && nl.IsInput(input) && SolverHolds(nl, solver, s)
    ensures !x.Eval(s, input)
  {
    var signals := [x];
    assert exists k :: k in conflict && k < |signals| && !signals[k].Eval(s, input);
  }

  method SolveWith(nl: Netlist, solver: SatSolver, assumptions: seq<Signal>) returns (r: SatResult)
    ensures r.Sat? ==>
      && nl.IsState(r.state) && nl.IsInput(r.input)
      && SolverHolds(nl, solver, r.state) && AllTrue(assumptions, r.state, r.input)
    ensures r.Unsat? ==> Refutes(nl, solver, assumptions, r.conflict)
  {
    if exists s, input ::
        && s in AllVectors(nl.Latches()) && input in AllVectors(nl.inputs)
        && SolverHolds(nl, solver, s) && AllTrue(assumptions, s, input)
    {
      var s, input :| s in AllVectors(nl.Latches()) && input in AllVectors(nl.inputs)
        && SolverHolds(nl, solver, s) && AllTrue(assumptions, s, input);
      AllVectorsMember(nl.Latches(), s);
      AllVectorsMember(nl.inputs, input);
      return Sat(s, input);
    }
    var all := Indices(|assumptions|);
    forall s, input | nl.IsState(s) && nl.IsInput(input) && SolverHolds(nl, solver, s)
      ensures exists k :: k in all && k < |assumptions| && !assumptions[k].Eval(s, input)
    {
      AllVectorsMember(nl.Latches(), s);
      AllVectorsMember(nl.inputs, input);
      assert !AllTrue(assumptions, s, input);
      var k :| 0 <= k < |assumptions| && !assumptions[k].Eval(s, input);
      assert k in all;
    }
    return Unsat(all);
  }

  /** The lifting query: can the target hold under this input while the chosen state literals do?
      Yields the state literals of a conflict, or None when the query is satisfiable. */
  datatype LiftResult = LiftSat | LiftUnsat(conflict: set<nat>)

  ghost predicate LiftRefutes(nl: Netlist, target: seq<Signal>, input: Vector, state: Cube, conflict: set<nat>) {
    forall s :: nl.IsState(s) && (forall k :: k in conflict && k < |state| ==> state[k].Holds(s)) ==>
      NoneTrue(target, s, input)
  }

  method SolveLift(nl: Netlist, target: seq<Signal>, input: Vector, state: Cube) returns (r: LiftResult)
    ensures r.LiftUnsat? ==> LiftRefutes(nl, target, input, state, r.conflict)
  {
    if exists s :: s in AllVectors(nl.Latches()) && CubeHolds(state, s) && !NoneTrue(target, s, input) {
      return LiftSat;
    }
    var all := Indices(|state|);
    forall s | nl.IsState(s) && forall k :: k in all && k < |state| ==> state[k].Holds(s)
      ensures NoneTrue(target, s, input)
    {
      AllVectorsMember(nl.Latches(), s);
      forall l | l in state ensures l.Holds(s) {
        var k :| 0 <= k < |state| && state[k] == l;
        assert k in all;
      }
      assert CubeHolds(state, s);
    }
    return LiftUnsat(all);
  }

  /** The initial-state solver: does some initial state lie in the cube? */
  method SolveInit(nl: Netlist, cube: Cube) returns (found: bool, model: Vector)
    ensures found ==> nl.IsInit(model) && CubeHolds(cube, model)
    ensures !found ==> forall s :: nl.IsInit(s) ==> !CubeHolds(cube, s)
  {
    if exists s :: s in AllVectors(nl.Latches()) && nl.init(s) && CubeHolds(cube, s) {
      var s :| s in AllVectors(nl.Latches()) && nl.init(s) && CubeHolds(cube, s);
      AllVectorsMember(nl.Latches(), s);
      return true, s;
    }
    forall s | nl.IsInit(s) ensures !CubeHolds(cube, s) {
      AllVectorsMember(nl.Latches(), s);
    }
    return false, [];
  }
}
