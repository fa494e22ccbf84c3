/** And-inverter graphs over literals: literal 2v is variable v, 2v + 1 its negation, 0 the constant
    false. What a graph computes, when it is cyclic, and what its canonical numbering is. */
module AigerNetwork {
  datatype And = And(lhs: nat, rhs0: nat, rhs1: nat)

  datatype Latch = Latch(lit: nat, next: nat, reset: nat)

  datatype Network = Network(inputs: seq<nat>, latches: seq<Latch>, outputs: seq<nat>, bad: seq<nat>,
                             constraints: seq<nat>, justice: seq<seq<nat>>, fairness: seq<nat>, ands: seq<And>)

  function Var(lit: nat): nat {
    lit / 2
  }

  function Lit(v: nat): nat {
    2 * v
  }

  // ---------- The graph ----------

  predicate IsGate(ands: seq<And>, v: nat) {
    exists k :: 0 <= k < |ands| && ands[k].lhs == Lit(v)
  }

  /** v is a gate with input variable c; constants are not edges. */
  predicate Feeds(ands: seq<And>, v: nat, c: nat) {
    c != 0 && exists k :: 0 <= k < |ands| && ands[k].lhs == Lit(v) && (c == Var(ands[k].rhs0) || c == Var(ands[k].rhs1))
  }

  ghost predicate IsPath(ands: seq<And>, path: seq<nat>) {
    forall i :: 0 <= i < |path| - 1 ==> Feeds(ands, path[i], path[i + 1])
  }

  ghost predicate IsCycle(ands: seq<And>, path: seq<nat>) {
    |path| >= 2 && path[0] == path[|path| - 1] && IsPath(ands, path)
  }

  ghost predicate OnCycle(ands: seq<And>, v: nat) {
    exists path :: IsCycle(ands, path) && path[0] == v
  }

  ghost predicate Cyclic(ands: seq<And>) {
    exists v :: OnCycle(ands, v)
  }

  ghost predicate Ranked(ands: seq<And>, rank: nat -> nat) {
    forall v, c :: Feeds(ands, v, c) ==> rank(c) < rank(v)
  }

  ghost predicate Rankable(ands: seq<And>) {
    exists rank :: Ranked(ands, rank)
  }

  lemma {:induction false} RankFalls(ands: seq<And>, rank: nat -> nat, path: seq<nat>, i: nat)
    requires Ranked(ands, rank) && i < |path|
    requires IsPath(ands, path)
    ensures rank(path[i]) + i <= rank(path[0])
  {
    if i > 0 {
      RankFalls(ands, rank, path, i - 1);
      assert Feeds(ands, path[i - 1], path[i - 1 + 1]);
    }
  }

  /** A rank that falls along every edge rules out cycles. */
  lemma RankedAcyclic(ands: seq<And>)
    requires Rankable(ands)
    ensures !Cyclic(ands)
  {
    var rank :| Ranked(ands, rank);
    if Cyclic(ands) {
      var v :| OnCycle(ands, v);
      var path :| IsCycle(ands, path) && path[0] == v;
      RankFalls(ands, rank, path, |path| - 1);
    }
  }

  // ---------- Finishing orders ----------

  /** Every gate below order[k] comes before it. */
  ghost predicate FinishOrder(ands: seq<And>, order: seq<nat>) {
    forall k, c :: 0 <= k < |order| && Feeds(ands, order[k], c) && IsGate(ands, c) ==> c in order[..k]
  }

  /** One more than the first position of v, or 0. */
  function Position(order: seq<nat>, v: nat): (r: nat)
    ensures r <= |order| && (r == 0 <==> v !in order)
    ensures r > 0 ==> order[r - 1] == v
    ensures forall i :: 0 <= i < |order| && order[i] == v ==> r <= i + 1
  {
    if order == [] then 0
    else
      var last := |order| - 1;
      assert order == order[..last] + [order[last]];
      var before := Position(order[..last], v);
      assert forall i :: 0 <= i < last ==> order[..last][i] == order[i];
      if before > 0 then before
      else if order[last] == v then |order| else 0
  }

  lemma PositionBefore(order: seq<nat>, k: nat, c: nat)
    requires k <= |order| && c in order[..k]
    ensures 0 < Position(order, c) <= k
  {
    var i :| 0 <= i < k && order[..k][i] == c;
    assert order[i] == c;
  }

  /** A finishing order that covers all gates ranks the graph. */
  lemma FinishedRanks(ands: seq<And>, order: seq<nat>)
    requires FinishOrder(ands, order)
    requires forall v :: IsGate(ands, v) <==> v in order
    ensures Rankable(ands)
  {
    var rank: nat -> nat := v => Position(order, v);
    forall v, c | Feeds(ands, v, c) ensures rank(c) < rank(v) {
      assert IsGate(ands, v);
      var r := Position(order, v);
      if IsGate(ands, c) {
        assert Feeds(ands, order[r - 1], c);
        PositionBefore(order, r - 1, c);
      }
    }
    assert Ranked(ands, rank);
  }

  // ---------- What a network computes ----------

  type Valuation = nat -> bool

  predicate LitValue(v: Valuation, lit: nat) {
    v(Var(lit)) != (lit % 2 == 1)
  }

  ghost predicate Consistent(ands: seq<And>, v: Valuation) {
    && !v(0)
    && forall k :: 0 <= k < |ands| ==> GateHolds(ands[k], v)
  }

  predicate GateHolds(gate: And, v: Valuation) {
    v(Var(gate.lhs)) == (LitValue(v, gate.rhs0) && LitValue(v, gate.rhs1))
  }

  /** Left-hand sides are even, positive and defined once. */
  predicate WellDefined(ands: seq<And>) {
    && (forall k :: 0 <= k < |ands| ==> ands[k].lhs % 2 == 0 && ands[k].lhs >= 2)
    && (forall i, j :: 0 <= i < j < |ands| ==> ands[i].lhs != ands[j].lhs)
  }

  /** The value of a variable of a ranked graph, given values for all that is not a gate. */
  ghost function Eval(ands: seq<And>, rank: nat -> nat, env: Valuation, v: nat): bool
    requires Ranked(ands, rank) && WellDefined(ands)
    decreases rank(v)
  {
    if v == 0 then false
    else if k: nat :| k < |ands| && ands[k].lhs == Lit(v) then
      var c0, c1 := Var(ands[k].rhs0), Var(ands[k].rhs1);
      assert c0 != 0 ==> Feeds(ands, v, c0);
      assert c1 != 0 ==> Feeds(ands, v, c1);
      ((if c0 == 0 then false else Eval(ands, rank, env, c0)) != (ands[k].rhs0 % 2 == 1)) &&
      ((if c1 == 0 then false else Eval(ands, rank, env, c1)) != (ands[k].rhs1 % 2 == 1))
    else env(v)
  }

  /** An acyclic graph has a valuation for every choice of the other variables. */
  lemma ValuationExists(ands: seq<And>, rank: nat -> nat, env: Valuation) returns (v: Valuation)
    requires Ranked(ands, rank) && WellDefined(ands)
    ensures Consistent(ands, v)
    ensures forall u :: u > 0 && !IsGate(ands, u) ==> v(u) == env(u)
  {
    v := (u: nat) => Eval(ands, rank, env, u);
  }

  /** ... and only one: it is determined by the values of whatever else the gates read. */
  lemma {:induction false} ValuationUnique(ands: seq<And>, rank: nat -> nat, v: Valuation, w: Valuation, u: nat)
    requires Ranked(ands, rank) && Consistent(ands, v) && Consistent(ands, w)
    requires forall g, c :: Feeds(ands, g, c) && !IsGate(ands, c) ==> v(c) == w(c)
    requires IsGate(ands, u)
    ensures v(u) == w(u)
    decreases rank(u)
  {
    var k :| 0 <= k < |ands| && ands[k].lhs == Lit(u);
    assert GateHolds(ands[k], v) && GateHolds(ands[k], w);
    forall c | Feeds(ands, u, c) ensures v(c) == w(c) {
      if IsGate(ands, c) { ValuationUnique(ands, rank, v, w, c); }
    }
    LitUnique(ands, u, k, ands[k].rhs0, v, w);
    LitUnique(ands, u, k, ands[k].rhs1, v, w);
  }

  lemma LitUnique(ands: seq<And>, u: nat, k: nat, lit: nat, v: Valuation, w: Valuation)
    requires k < |ands| && ands[k].lhs == Lit(u) && (lit == ands[k].rhs0 || lit == ands[k].rhs1)
    requires v(0) == w(0) && forall c :: Feeds(ands, u, c) ==> v(c) == w(c)
    ensures LitValue(v, lit) == LitValue(w, lit)
  {
    if Var(lit) != 0 { assert Feeds(ands, u, Var(lit)); }
  }

  function LeafCount(net: Network): nat {
    |net.inputs| + |net.latches|
  }

  predicate SameValues(v: Valuation, lits: seq<nat>, w: Valuation, mapped: seq<nat>) {
    |lits| == |mapped| && forall i :: 0 <= i < |lits| ==> LitValue(v, lits[i]) == LitValue(w, mapped[i])
  }

  function LatchLits(latches: seq<Latch>): (r: seq<nat>)
    ensures |r| == |latches|
  {
    seq(|latches|, i requires 0 <= i < |latches| => latches[i].lit)
  }

  function NextLits(latches: seq<Latch>): (r: seq<nat>)
    ensures |r| == |latches|
  {
    seq(|latches|, i requires 0 <= i < |latches| => latches[i].next)
  }

  function ResetLits(latches: seq<Latch>): (r: seq<nat>)
    ensures |r| == |latches|
  {
    seq(|latches|, i requires 0 <= i < |latches| => latches[i].reset)
  }

  /** The networks compute the same next states, resets, outputs and properties from the same inputs
      and latches. */
  ghost predicate SameBehaviour(a: Network, b: Network) {
    forall v: Valuation, w: Valuation ::
      Consistent(a.ands, v) && Consistent(b.ands, w) &&
      SameValues(v, a.inputs, w, b.inputs) && SameValues(v, LatchLits(a.latches), w, LatchLits(b.latches)) ==>
      SameRoots(a, v, b, w)
  }

  ghost predicate SameRoots(a: Network, v: Valuation, b: Network, w: Valuation) {
    && SameValues(v, NextLits(a.latches), w, NextLits(b.latches))
    && SameValues(v, ResetLits(a.latches), w, ResetLits(b.latches))
    && SameValues(v, a.outputs, w, b.outputs)
    && SameValues(v, a.bad, w, b.bad)
    && SameValues(v, a.constraints, w, b.constraints)
    && |a.justice| == |b.justice|
    && (forall i :: 0 <= i < |a.justice| ==> SameValues(v, a.justice[i], w, b.justice[i]))
    && SameValues(v, a.fairness, w, b.fairness)
  }

  // ---------- Canonical numbering ----------

  /** Inputs, then latches, then gates are numbered consecutively, and every gate is above its inputs. */
  predicate Canonical(net: Network) {
    var leaves := |net.inputs| + |net.latches|;
    && (forall i :: 0 <= i < |net.inputs| ==> net.inputs[i] == Lit(i + 1))
    && (forall i :: 0 <= i < |net.latches| ==> net.latches[i].lit == Lit(|net.inputs| + i + 1))
    && forall k :: 0 <= k < |net.ands| ==>
      net.ands[k].lhs == Lit(leaves + k + 1) && net.ands[k].lhs > net.ands[k].rhs0 >= net.ands[k].rhs1
  }
}
