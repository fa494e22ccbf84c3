/** Bounded model checking of many properties with one solver: separate assumptions against one
    constraint that is strengthened in every round. */
module BmcStrengthening {
  import opened Vectors
  import opened PropertyStatus

  /** A trace of the unwound system, as a satisfying assignment. */
  type Trace = Vector

  type Handle = Trace -> bool

  /** handles: the property in each timeframe. */
  datatype Property = Property(status: Status, existsPath: bool, handles: seq<Handle>)
  {
    /** What the property claims of a set of traces: a universal property that every handle is true along every
        trace, a path property that some handle is false along some trace (its handles are those of the negation). */
    ghost predicate Holds(models: set<Trace>) {
      if existsPath then exists t, i :: t in models && 0 <= i < |handles| && !handles[i](t)
      else forall t, i :: t in models && 0 <= i < |handles| ==> handles[i](t)
    }

    /** The trace falsifies the property in some timeframe. */
    predicate FalsifiedBy(t: Trace) {
      exists i :: 0 <= i < |handles| && !handles[i](t)
    }
  }

  datatype Answer = Sat(model: Trace) | Unsat | Error

  /** The decision procedure: a set of traces that shrinks with every constraint. failing says which
      calls end in an error. */
  class Solver {
    var models: set<Trace>
    var calls: nat
    const failing: nat -> bool

    constructor (models: set<Trace>, failing: nat -> bool)
      ensures this.models == models && calls == 0 && this.failing == failing
    {
      this.models, calls, this.failing := models, 0, failing;
    }

    method SetToTrue(constraint: Handle)
      modifies `models
      ensures models == set t | t in old(models) && constraint(t)
    {
      models := set t | t in models && constraint(t);
    }

    method Solve(assumption: Handle) returns (r: Answer)
      modifies `calls
      ensures calls == old(calls) + 1
      ensures r.Error? <==> failing(old(calls))
      ensures r.Sat? ==> r.model in models && assumption(r.model)
      ensures r.Unsat? ==> forall t :: t in models ==> !assumption(t)
    {
      calls := calls + 1;
      if failing(calls - 1) { return Error; }
      if t :| t in models && assumption(t) { return Sat(t); }
      return Unsat;
    }
  }

  /** Some trace makes a handle of the property false. */
  ghost predicate Falsified(p: Property, models: set<Trace>) {
    exists t, i :: t in models && 0 <= i < |p.handles| && !p.handles[i](t)
  }

  /** The status is the verdict on the property: proved where its claim holds and refuted where it does not,
      without a bound exactly where a trace decides it. */
  ghost predicate IsVerdict(p: Property, s: Status, models: set<Trace>, bound: nat) {
    && (if p.Holds(models) then s == Proved || s == ProvedWithBound(bound) else s == Refuted || s == RefutedWithBound(bound))
    && (Falsified(p, models) <==> s == Proved || s == Refuted)
  }

  lemma FalsifiedIff(p: Property, models: set<Trace>)
    ensures Falsified(p, models) <==> exists t :: t in models && p.FalsifiedBy(t)
    ensures Falsified(p, models) <==> p.Holds(models) == p.existsPath
  {
    if t, i :| t in models && 0 <= i < |p.handles| && !p.handles[i](t) { assert p.FalsifiedBy(t); }
  }

  lemma TraceDecides(p: Property, models: set<Trace>, bound: nat)
    requires Falsified(p, models)
    ensures IsVerdict(p, if p.existsPath then Proved else Refuted, models, bound)
  {
    FalsifiedIff(p, models);
  }

  lemma NoTraceDecides(p: Property, models: set<Trace>, bound: nat)
    requires !Falsified(p, models)
    ensures IsVerdict(p, if p.existsPath then RefutedWithBound(bound) else ProvedWithBound(bound), models, bound)
  {
    FalsifiedIff(p, models);
  }

  predicate Skipped(s: Status) {
    s.Disabled? || s.Failure? || s.Assumed?
  }

  /** A property checked by itself: disabled, failed and assumed ones are passed over. */
  ghost predicate CheckedAlone(before: Property, after: Property, solver: Solver, models: set<Trace>, bound: nat) {
    if before.status in {Disabled, Failure, Assumed} then after == before
    else
      || HasVerdict(before, after, models, bound)
      || (after == before.(status := Failure) && exists call :: solver.failing(call))
  }

  /** What an answer to the question for a trace that falsifies the property says about it. */
  lemma CheckDecides(p: Property, answer: Answer, models: set<Trace>, bound: nat)
    requires answer.Sat? ==> answer.model in models && p.FalsifiedBy(answer.model)
    requires answer.Unsat? ==> forall t :: t in models ==> !p.FalsifiedBy(t)
    ensures answer.Sat? ==> IsVerdict(p, if p.existsPath then Proved else Refuted, models, bound)
    ensures answer.Unsat? ==> IsVerdict(p, if p.existsPath then RefutedWithBound(bound) else ProvedWithBound(bound), models, bound)
  {
    FalsifiedIff(p, models);
    if answer.Sat? { TraceDecides(p, models, bound); }
    if answer.Unsat? { NoTraceDecides(p, models, bound); }
  }

  /** Every property by itself. */
  method BmcWithAssumptions(ps: array<Property>, solver: Solver, bound: nat)
    modifies ps, solver`calls
    ensures forall i :: 0 <= i < ps.Length ==> CheckedAlone(old(ps[i]), ps[i], solver, solver.models, bound)
  {
    var n := 0;
    while n < ps.Length
      invariant 0 <= n <= ps.Length
      invariant forall i :: n <= i < ps.Length ==> ps[i] == old(ps[i])
      invariant forall i :: 0 <= i < n ==> CheckedAlone(old(ps[i]), ps[i], solver, solver.models, bound)
    {
      var p := ps[n];
      if !Skipped(p.status) {
        var answer := solver.Solve(t => p.FalsifiedBy(t));
        CheckDecides(p, answer, solver.models, bound);
        match answer {
          case Sat(_) => ps[n] := p.(status := if p.existsPath then Proved else Refuted);
          case Unsat => ps[n] := p.(status := if p.existsPath then RefutedWithBound(bound) else ProvedWithBound(bound));
          case Error => ps[n] := p.(status := Failure);
        }
      }
      n := n + 1;
    }
  }

  // ---------- Iterative constraint strengthening ----------

  /** Some property that is still unknown is falsified. */
  predicate SomeUnknownFalsified(ps: seq<Property>, t: Trace) {
    exists i :: 0 <= i < |ps| && ps[i].status.Unknown? && ps[i].FalsifiedBy(t)
  }

  function Unknowns(ps: seq<Property>): nat {
    if ps == [] then 0 else Unknowns(ps[..|ps| - 1]) + if ps[|ps| - 1].status.Unknown? then 1 else 0
  }

  /** after is before with the decided properties given their final status. */
  ghost predicate Decided(before: seq<Property>, after: seq<Property>, models: set<Trace>, bound: nat) {
    && |before| == |after|
    && forall i :: 0 <= i < |before| ==> PropertyDecided(before[i], after[i], models, bound)
  }

  ghost predicate PropertyDecided(before: Property, after: Property, models: set<Trace>, bound: nat) {
    || after == before
    || (before.status.Unknown? && Falsified(before, models) && HasVerdict(before, after, models, bound))
  }

  ghost predicate HasVerdict(before: Property, after: Property, models: set<Trace>, bound: nat) {
    after == before.(status := after.status) && IsVerdict(before, after.status, models, bound)
  }

  /** Every property unknown so far has the verdict it would get by itself. */
  ghost predicate AllDecided(before: seq<Property>, after: seq<Property>, models: set<Trace>, bound: nat) {
    && |before| == |after|
    && forall i :: 0 <= i < |before| ==>
      if before[i].status.Unknown? then HasVerdict(before[i], after[i], models, bound) else after[i] == before[i]
  }

  /** After an error: what was decided stays, the rest has failed. */
  ghost predicate CutOff(before: seq<Property>, after: seq<Property>, models: set<Trace>, bound: nat) {
    && |before| == |after|
    && forall i :: 0 <= i < |before| ==>
      PropertyDecided(before[i], after[i], models, bound) ||
      (before[i].status.Unknown? && after[i] == before[i].(status := Failure))
  }

  lemma {:induction false} FewerUnknowns(before: seq<Property>, after: seq<Property>)
    requires |before| == |after| && forall i :: 0 <= i < |before| ==> (after[i].status.Unknown? ==> before[i].status.Unknown?)
    ensures Unknowns(after) <= Unknowns(before)
    ensures (exists i :: 0 <= i < |before| && before[i].status.Unknown? && !after[i].status.Unknown?) ==>
              Unknowns(after) < Unknowns(before)
  {
    if before != [] {
      var n := |before| - 1;
      FewerUnknowns(before[..n], after[..n]);
      if i :| 0 <= i < |before| && before[i].status.Unknown? && !after[i].status.Unknown? && i < n {
        assert before[..n][i].status.Unknown? && !after[..n][i].status.Unknown?;
      }
    }
  }

  /** No property that the trace falsifies is left unknown. */
  ghost predicate TraceRecorded(now: seq<Property>, after: seq<Property>, model: Trace) {
    && |now| == |after|
    && forall i :: 0 <= i < |now| && now[i].status.Unknown? && now[i].FalsifiedBy(model) ==> !after[i].status.Unknown?
  }

  /** All unknown properties that the trace falsifies are decided. */
  method RecordTrace(ps: array<Property>, model: Trace, ghost now: seq<Property>, ghost models: set<Trace>, bound: nat)
    requires model in models && now == ps[..]
    modifies ps
    ensures Decided(now, ps[..], models, bound) && TraceRecorded(now, ps[..], model)
  {
    var n := 0;
    while n < ps.Length
      invariant 0 <= n <= ps.Length
      invariant forall i :: n <= i < ps.Length ==> ps[i] == now[i]
      invariant forall i :: 0 <= i < n ==> PropertyDecided(now[i], ps[i], models, bound)
      invariant forall i :: 0 <= i < n && now[i].status.Unknown? && now[i].FalsifiedBy(model) ==> !ps[i].status.Unknown?
    {
      if ps[n].status.Unknown? && ps[n].FalsifiedBy(model) {
        FalsifiedIff(ps[n], models);
        TraceDecides(ps[n], models, bound);
        ps[n] := ps[n].(status := if ps[n].existsPath then Proved else Refuted);
      }
      n := n + 1;
    }
  }

  /** An unknown property has the verdict of one that no trace falsifies. */
  ghost predicate Finished(before: Property, after: Property, bound: nat) {
    after == if !before.status.Unknown? then before
             else before.(status := if before.existsPath then RefutedWithBound(bound) else ProvedWithBound(bound))
  }

  method FinishUnknown(ps: array<Property>, bound: nat)
    modifies ps
    ensures forall i :: 0 <= i < ps.Length ==>
              Finished(old(ps[i]), ps[i], bound)
  {
    var n := 0;
    while n < ps.Length
      invariant 0 <= n <= ps.Length
      invariant forall i :: n <= i < ps.Length ==> ps[i] == old(ps[i])
      invariant forall i :: 0 <= i < n ==>
                  Finished(old(ps[i]), ps[i], bound)
    {
      if ps[n].status.Unknown? {
        ps[n] := ps[n].(status := if ps[n].existsPath then RefutedWithBound(bound) else ProvedWithBound(bound));
      }
      n := n + 1;
    }
  }

  method FailUnknown(ps: array<Property>)
    modifies ps
    ensures forall i :: 0 <= i < ps.Length ==>
              ps[i] == if old(ps[i]).status.Unknown? then old(ps[i]).(status := Failure) else old(ps[i])
  {
    var n := 0;
    while n < ps.Length
      invariant 0 <= n <= ps.Length
      invariant forall i :: n <= i < ps.Length ==> ps[i] == old(ps[i])
      invariant forall i :: 0 <= i < n ==>
                  ps[i] == if old(ps[i]).status.Unknown? then old(ps[i]).(status := Failure) else old(ps[i])
    {
      if ps[n].status.Unknown? { ps[n] := ps[n].(status := Failure); }
      n := n + 1;
    }
  }

  /** The solver holds exactly the traces that all the constraints so far allow. */
  ghost predicate Constrained(models: set<Trace>, space: set<Trace>, earlier: seq<Property>) {
    forall t :: t in models <==> t in space && SomeUnknownFalsified(earlier, t)
  }

  /** Every new constraint implies the earlier ones. */
  lemma ConstraintImpliesEarlier(earlier: seq<Property>, later: seq<Property>, models: set<Trace>, bound: nat, t: Trace)
    requires Decided(earlier, later, models, bound) && SomeUnknownFalsified(later, t)
    ensures SomeUnknownFalsified(earlier, t)
  {
    var i :| 0 <= i < |later| && later[i].status.Unknown? && later[i].FalsifiedBy(t);
    assert PropertyDecided(earlier[i], later[i], models, bound);
  }

  lemma DecidedTransitive(a: seq<Property>, b: seq<Property>, c: seq<Property>, models: set<Trace>, bound: nat)
    requires Decided(a, b, models, bound) && Decided(b, c, models, bound)
    ensures Decided(a, c, models, bound)
  {
    forall i | 0 <= i < |a| ensures PropertyDecided(a[i], c[i], models, bound) {
      assert PropertyDecided(a[i], b[i], models, bound) && PropertyDecided(b[i], c[i], models, bound);
    }
  }

  lemma NothingLeft(before: seq<Property>, now: seq<Property>, after: seq<Property>, space: set<Trace>, bound: nat)
    requires Decided(before, now, space, bound)
    requires forall t :: t in space ==> !SomeUnknownFalsified(now, t)
    requires |after| == |now| && forall i :: 0 <= i < |now| ==> Finished(now[i], after[i], bound)
    ensures AllDecided(before, after, space, bound)
  {
    forall i | 0 <= i < |before|
      ensures if before[i].status.Unknown? then HasVerdict(before[i], after[i], space, bound) else after[i] == before[i]
    {
      assert PropertyDecided(before[i], now[i], space, bound) && Finished(now[i], after[i], bound);
      if now[i].status.Unknown? {
        UnknownNotFalsified(now, space, i);
        NoTraceDecides(now[i], space, bound);
      }
    }
  }

  lemma UnknownNotFalsified(ps: seq<Property>, space: set<Trace>, i: nat)
    requires i < |ps| && ps[i].status.Unknown? && forall t :: t in space ==> !SomeUnknownFalsified(ps, t)
    ensures !Falsified(ps[i], space)
  {
    FalsifiedIff(ps[i], space);
    forall t | t in space ensures !ps[i].FalsifiedBy(t) { assert !SomeUnknownFalsified(ps, t); }
  }

  lemma RestFailed(before: seq<Property>, now: seq<Property>, after: seq<Property>, space: set<Trace>, bound: nat)
    requires Decided(before, now, space, bound) && |after| == |now|
    requires forall i :: 0 <= i < |now| ==>
      after[i] == if now[i].status.Unknown? then now[i].(status := Failure) else now[i]
    ensures CutOff(before, after, space, bound)
  {
    forall i | 0 <= i < |before|
      ensures PropertyDecided(before[i], after[i], space, bound) ||
              (before[i].status.Unknown? && after[i] == before[i].(status := Failure))
    {
      assert PropertyDecided(before[i], now[i], space, bound);
    }
  }

  /** One solver, one constraint per round: the verdicts are those of checking every unknown property by
      itself, with at most one call more than there are unknown properties. */
  method BmcWithStrengthening(ps: array<Property>, solver: Solver, bound: nat)
    modifies ps, solver
    ensures (forall i :: !solver.failing(i)) ==> AllDecided(old(ps[..]), ps[..], old(solver.models), bound)
    ensures solver.calls <= old(solver.calls) + Unknowns(old(ps[..])) + 1
    ensures AllDecided(old(ps[..]), ps[..], old(solver.models), bound) ||
            CutOff(old(ps[..]), ps[..], old(solver.models), bound)
  {
    ghost var space := solver.models;
    ghost var first := true;
    ghost var earlier := ps[..];
    while true
      invariant Decided(old(ps[..]), ps[..], space, bound) && Decided(earlier, ps[..], space, bound)
      invariant if first then solver.models == space else Constrained(solver.models, space, earlier)
      invariant solver.calls + Unknowns(ps[..]) <= old(solver.calls) + Unknowns(old(ps[..]))
      decreases Unknowns(ps[..])
    {
      var now := ps[..];
      solver.SetToTrue(Disjunction(now));
      if !first {
        forall t | SomeUnknownFalsified(now, t) ensures SomeUnknownFalsified(earlier, t) {
          ConstraintImpliesEarlier(earlier, now, space, bound, t);
        }
      }
      assert Constrained(solver.models, space, now);
      first, earlier := false, now;
      var answer := solver.Solve(t => true);
      match answer {
        case Sat(model) =>
          assert model in space && SomeUnknownFalsified(now, model);
          RecordTrace(ps, model, now, space, bound);
          ghost var after := ps[..];
          DecidedTransitive(old(ps[..]), now, after, space, bound);
          RoundDecides(now, after, model, space, bound);
        case Unsat =>
          forall t | t in space ensures !SomeUnknownFalsified(now, t) { assert t !in solver.models; }
          FinishUnknown(ps, bound);
          NothingLeft(old(ps[..]), now, ps[..], space, bound);
          return;
        case Error =>
          FailUnknown(ps);
          RestFailed(old(ps[..]), now, ps[..], space, bound);
          return;
      }
    }
  }

  function Disjunction(ps: seq<Property>): Handle {
    t => SomeUnknownFalsified(ps, t)
  }

  lemma RoundDecides(now: seq<Property>, after: seq<Property>, model: Trace, space: set<Trace>, bound: nat)
    requires Decided(now, after, space, bound) && SomeUnknownFalsified(now, model)
    requires TraceRecorded(now, after, model)
    ensures Unknowns(after) < Unknowns(now)
  {
    forall i | 0 <= i < |now| ensures after[i].status.Unknown? ==> now[i].status.Unknown? {
      assert PropertyDecided(now[i], after[i], space, bound);
    }
    FewerUnknowns(now, after);
  }

  // ---------- The two modes ----------

  /** A property that neither mode skips already carries the verdict of a separate check. */
  ghost predicate AlreadyRight(p: Property, models: set<Trace>, bound: nat) {
    p.status in {Disabled, Failure, Assumed, Unknown} || IsVerdict(p, p.status, models, bound)
  }

  /** With a decision procedure that never fails, the two modes end in the same statuses exactly when
      every property that starts out decided was decided rightly; from unknown properties always. */
  lemma ModesAgreeIff(before: seq<Property>, alone: seq<Property>, together: seq<Property>, solver: Solver,
                      models: set<Trace>, bound: nat)
    requires |alone| == |before| && forall call :: !solver.failing(call)
    requires forall i :: 0 <= i < |before| ==> CheckedAlone(before[i], alone[i], solver, models, bound)
    requires AllDecided(before, together, models, bound)
    ensures alone == together <==> forall i :: 0 <= i < |before| ==> AlreadyRight(before[i], models, bound)
  {
    forall i | 0 <= i < |before| ensures alone[i] == together[i] <==> AlreadyRight(before[i], models, bound) {
      assert CheckedAlone(before[i], alone[i], solver, models, bound);
    }
  }
}
