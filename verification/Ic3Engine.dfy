/** The engine around the IC3 solver: it visits the properties in turn and records verdicts. */
module Ic3Engine {
  import opened Ic3Netlist
  import opened PropertyStatus
  import Ic3Solver

  /** nl carries the dual safety property when the original property asks for a path (cover). */
  datatype Property = Property(status: Status, assumption: bool, supported: bool, existsPath: bool, nl: Netlist)
  {
    /** What the property claims. */
    ghost predicate Holds() {
      if existsPath then exists length: nat :: nl.HasCounterexample(length) else nl.Safe()
    }

    predicate Unfinished() {
      !assumption && (status.Unknown? || status.Unsupported? || status.Failure? || status.Inconclusive?)
    }
  }

  lemma CounterexampleRefutes(nl: Netlist)
    ensures nl.Safe() <==> !exists length: nat :: nl.HasCounterexample(length)
  {
    if length: nat :| nl.HasCounterexample(length) {
      var states, stimuli :| |states| == length && nl.IsCounterexample(states, stimuli);
    }
    if !nl.Safe() {
      var states, stimuli :| nl.IsRun(states, stimuli) && !nl.prop.Eval(states[|states| - 1], stimuli[|states| - 1]);
      assert nl.IsCounterexample(states, stimuli);
      assert nl.HasCounterexample(|states|);
    }
  }

  /** What the engine makes of one property: a definite verdict for every supported one it has to decide. */
  ghost predicate Decided(before: Property, after: Property) {
    && after == before.(status := after.status)
    && if !before.status.Unknown? then after.status == before.status
       else if !before.supported then after.status == Failure
       else if before.Holds() then after.status == Proved
       else after.status == Refuted
  }

  /** Something to decide: a property that is no assumption and has no final status. */
  ghost predicate SomeOpen(ps: seq<Property>) {
    exists i :: 0 <= i < |ps| && !ps[i].assumption && ps[i].status in {Unknown, Unsupported, Failure, Inconclusive}
  }

  ghost predicate SomeAssumed(ps: seq<Property>) {
    exists i :: 0 <= i < |ps| && ps[i].status == Assumed
  }

  /** Properties that are assumed are an error, unless there was nothing left to do; otherwise every unknown
      property is decided if something is open, so that none is left unknown that is not an assumption. */
  method NewIc3Engine(ps: array<Property>) returns (error: bool)
    modifies ps
    ensures error <==> SomeOpen(old(ps[..])) && SomeAssumed(old(ps[..]))
    ensures error || !SomeOpen(old(ps[..])) ==> ps[..] == old(ps[..])
    ensures !error && SomeOpen(old(ps[..])) ==> forall i :: 0 <= i < ps.Length ==> Decided(old(ps[i]), ps[i])
    ensures !error ==> forall i :: 0 <= i < ps.Length && ps[i].status == Unknown ==> ps[i].assumption
  {
    assert SomeOpen(ps[..]) <==> exists i :: 0 <= i < ps.Length && ps[i].Unfinished();
    if !exists i :: 0 <= i < ps.Length && ps[i].Unfinished() { return false; }
    if exists i :: 0 <= i < ps.Length && ps[i].status.Assumed? { return true; }
    var n := 0;
    while n < ps.Length
      invariant 0 <= n <= ps.Length
      invariant forall i :: 0 <= i < n ==> Decided(old(ps[i]), ps[i])
      invariant forall i :: n <= i < ps.Length ==> ps[i] == old(ps[i])
    {
      if ps[n].status.Unknown? {
        if !ps[n].supported {
          ps[n] := ps[n].(status := Failure);
        } else {
          var status := Check(ps[n]);
          ps[n] := ps[n].(status := status);
        }
      }
      n := n + 1;
    }
    return false;
  }

  /** Runs the solver; a refutation of the dual property is a witness for a path property. */
  method Check(p: Property) returns (status: Status)
    ensures status == if p.Holds() then Proved else Refuted
  {
    var solver := new Ic3Solver.Ic3Solver(p.nl);
    var outcome := solver.Solve();
    CounterexampleRefutes(p.nl);
    match outcome {
      case Proved => status := if p.existsPath then Status.Refuted else Status.Proved;
      case Refuted(_) => status := if p.existsPath then Status.Proved else Status.Refuted;
    }
  }
}
