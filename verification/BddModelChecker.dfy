/** The BDD-based CTL operators. A BDD over n current and n next variables is the set of assignments
    that satisfy it, a vector of width 2n. */
module BddModelChecker {
  import opened Sequences
  import opened Vectors
  import opened CtlSemantics

  type Bdd = set<Vector>

  // ---------- The operations of the BDD library ----------

  function Substitute(n: nat, b: Bdd, v: nat, w: nat): Bdd
    requires v < 2 * n && w < 2 * n
  {
    set a | a in AllVectors(2 * n) && HasWidth(a, 2 * n) && a[v := a[w]] in b
  }

  function Exists(n: nat, b: Bdd, v: nat): Bdd
    requires v < 2 * n
  {
    set a | a in AllVectors(2 * n) && HasWidth(a, 2 * n) && (a[v := false] in b || a[v := true] in b)
  }

  predicate HasWidth(a: Vector, w: nat) {
    |a| == w
  }

  lemma Width(n: nat, a: Vector)
    ensures a in AllVectors(n) <==> HasWidth(a, n)
  {
    AllVectorsMember(n, a);
  }

  // ---------- Sequences of quantifications and substitutions ----------

  /** a with the first k current variables replaced by the next ones. */
  function Moved(n: nat, a: Vector, k: nat): (r: Vector)
    requires |a| == 2 * n && k <= n
    ensures |r| == 2 * n && forall v :: 0 <= v < 2 * n ==> r[v] == if v < k then a[n + v] else a[v]
  {
    seq(2 * n, v requires 0 <= v < 2 * n => if v < k then a[n + v] else a[v])
  }

  /** a and b agree on all variables that are not quantified. */
  predicate AgreeOutside(n: nat, quantified: set<nat>, a: Vector, b: Vector) {
    |a| == |b| == 2 * n && forall v :: 0 <= v < 2 * n && v !in quantified ==> a[v] == b[v]
  }

  predicate SomeAgrees(n: nat, quantified: set<nat>, a: Vector, x: Bdd) {
    exists b :: b in x && AgreeOutside(n, quantified, a, b)
  }

  /** tmp is x with some variables quantified existentially. */
  ghost predicate Quantified(n: nat, q: set<nat>, x: Bdd, tmp: Bdd) {
    forall a: Vector :: a in tmp <==> HasWidth(a, 2 * n) && SomeAgrees(n, q, a, x)
  }

  lemma NothingQuantified(n: nat, x: Bdd)
    requires x <= AllVectors(2 * n)
    ensures Quantified(n, {}, x, x)
  {
    forall a: Vector ensures a in x <==> HasWidth(a, 2 * n) && SomeAgrees(n, {}, a, x) {
      Width(2 * n, a);
      if a in x { assert AgreeOutside(n, {}, a, a); }
      if SomeAgrees(n, {}, a, x) {
        var b :| b in x && AgreeOutside(n, {}, a, b);
        assert a == b;
      }
    }
  }

  /** One more quantified variable. */
  lemma OneMoreQuantified(n: nat, q: set<nat>, x: Bdd, tmp: Bdd, v: nat)
    requires v < 2 * n && v !in q && Quantified(n, q, x, tmp)
    ensures Quantified(n, q + {v}, x, Exists(n, tmp, v))
  {
    var r := Exists(n, tmp, v);
    forall a: Vector ensures a in r <==> HasWidth(a, 2 * n) && SomeAgrees(n, q + {v}, a, x) {
      Width(2 * n, a);
      if HasWidth(a, 2 * n) {
        if a[v := false] in tmp { AgreesMore(n, q, x, v, a, false); }
        if a[v := true] in tmp { AgreesMore(n, q, x, v, a, true); }
        if SomeAgrees(n, q + {v}, a, x) {
          var b :| b in x && AgreeOutside(n, q + {v}, a, b);
          assert AgreeOutside(n, q, a[v := b[v]], b);
          assert HasWidth(a[v := b[v]], 2 * n);
        }
      }
    }
  }

  lemma AgreesMore(n: nat, q: set<nat>, x: Bdd, v: nat, a: Vector, c: bool)
    requires v < |a| == 2 * n && SomeAgrees(n, q, a[v := c], x)
    ensures SomeAgrees(n, q + {v}, a, x)
  {
    var b :| b in x && AgreeOutside(n, q, a[v := c], b);
    assert AgreeOutside(n, q + {v}, a, b);
  }

  /** b with the first k current variables replaced by the next ones. */
  function Replaced(n: nat, k: nat, b: Bdd): Bdd
    requires k <= n
  {
    set a | a in AllVectors(2 * n) && HasWidth(a, 2 * n) && Moved(n, a, k) in b
  }

  lemma NothingReplaced(n: nat, b: Bdd)
    requires b <= AllVectors(2 * n)
    ensures Replaced(n, 0, b) == b
  {
    forall a: Vector ensures a in b <==> a in Replaced(n, 0, b) {
      Width(2 * n, a);
      if HasWidth(a, 2 * n) { assert Moved(n, a, 0) == a; }
    }
  }

  lemma OneMoreReplaced(n: nat, k: nat, b: Bdd)
    requires k < n
    ensures Substitute(n, Replaced(n, k, b), k, n + k) == Replaced(n, k + 1, b)
  {
    var tmp := Replaced(n, k, b);
    var s, r := Substitute(n, tmp, k, n + k), Replaced(n, k + 1, b);
    forall a: Vector ensures a in s <==> a in r {
      Width(2 * n, a);
      if HasWidth(a, 2 * n) {
        var a' := a[k := a[n + k]];
        Width(2 * n, a');
        assert Moved(n, a', k) == Moved(n, a, k + 1);
      }
    }
  }

  /** The next variables of the first k current ones. */
  function NextVars(n: nat, k: nat): (r: set<nat>)
    ensures forall u :: u in r <==> n <= u < n + k
  {
    if k == 0 then {} else NextVars(n, k - 1) + {n + k - 1}
  }

  /** The inputs among the first k current variables. */
  function InputVars(isInput: seq<bool>, k: nat): (r: set<nat>)
    requires k <= |isInput|
    ensures forall u :: u in r <==> 0 <= u < k && isInput[u]
  {
    if k == 0 then {} else InputVars(isInput, k - 1) + if isInput[k - 1] then {k - 1} else {}
  }

  // ---------- The model checker ----------

  class BddModelChecker {
    const n: nat
    const isInput: seq<bool>
    const transitionConjuncts: seq<Bdd>
    const constraintConjuncts: seq<Bdd>

    /** Every BDD is over the 2n variables, the constraints over the current ones. */
    ghost predicate Valid() {
      && |isInput| == n
      && forall c :: c in constraintConjuncts ==> OnCurrent(c)
    }

    constructor (n: nat, isInput: seq<bool>, transitionConjuncts: seq<Bdd>, constraintConjuncts: seq<Bdd>)
      ensures this.n == n && this.isInput == isInput
      ensures this.transitionConjuncts == transitionConjuncts && this.constraintConjuncts == constraintConjuncts
    {
      this.n, this.isInput := n, isInput;
      this.transitionConjuncts, this.constraintConjuncts := transitionConjuncts, constraintConjuncts;
    }

    /** The BDD of a set of points, i.e. of assignments to the current variables. */
    function Lift(f: Points): Bdd {
      set a | a in AllVectors(2 * n) && HasWidth(a, 2 * n) && a[..n] in f
    }

    ghost predicate OnCurrent(b: Bdd) {
      forall a, a' :: HasWidth(a, 2 * n) && HasWidth(a', 2 * n) && a[..n] == a'[..n] ==> (a in b <==> a' in b)
    }

    function AllPoints(): Points {
      AllVectors(n)
    }

    // ---------- The structure that EX sees ----------

    predicate InAll(a: Vector, conjuncts: seq<Bdd>) {
      forall i :: 0 <= i < |conjuncts| ==> a in conjuncts[i]
    }

    predicate SameState(x: Vector, y: Vector)
      requires |isInput| == n
    {
      |x| == |y| == n && forall v :: 0 <= v < n && !isInput[v] ==> x[v] == y[v]
    }

    /** Some choice of inputs in the state of x leads to y, respecting the constraints at both ends. */
    ghost predicate Edge(x: Vector, y: Vector)
      requires |isInput| == n
    {
      |y| == n && InAll(y + y, constraintConjuncts) && exists x' :: EdgeVia(x, x', y)
    }

    predicate EdgeVia(x: Vector, x': Vector, y: Vector)
      requires |isInput| == n
    {
      SameState(x, x') && InAll(x' + y, transitionConjuncts) && InAll(x' + y, constraintConjuncts)
    }

    ghost function Structure(): Kripke
      requires |isInput| == n
    {
      Kripke(AllPoints(), (x, y) => Edge(x, y))
    }

    // ---------- The steps of the system ----------

    /** The point itself, as an assignment in which the next variables repeat the current ones. */
    predicate SatisfiesAll(x: Vector, conjuncts: seq<Bdd>) {
      InAll(x + x, conjuncts)
    }

    function CurrentPoints(conjuncts: seq<Bdd>): Points {
      set x | x in AllPoints() && SatisfiesAll(x, conjuncts)
    }

    lemma ConditionsLift(conjuncts: seq<Bdd>, a: Vector)
      requires Valid() && HasWidth(a, 2 * n) && forall c :: c in conjuncts ==> OnCurrent(c)
      ensures InAll(a, conjuncts) <==> a[..n] in CurrentPoints(conjuncts)
    {
      var x := a[..n];
      Width(n, x);
      assert HasWidth(x + x, 2 * n) && (x + x)[..n] == x;
      forall i | 0 <= i < |conjuncts| ensures a in conjuncts[i] <==> x + x in conjuncts[i] {
        assert OnCurrent(conjuncts[i]);
      }
    }

    lemma ConstraintAnywhere(x: Vector, y: Vector)
      requires Valid() && |x| == |y| == n
      ensures InAll(x + y, constraintConjuncts) <==> x in CurrentPoints(constraintConjuncts)
    {
      ConditionsLift(constraintConjuncts, x + y);
      assert (x + y)[..n] == x;
    }

    /** A step of the system to y from a point with the state of x: x' and y satisfy the constraints, and the
        transition conditions lead from x' to y. */
    ghost predicate Step(x: Vector, x': Vector, y: Vector)
      requires |isInput| == n
    {
      && |x| == |x'| == |y| == n && (forall v :: 0 <= v < n && !isInput[v] ==> x[v] == x'[v])
      && x' in CurrentPoints(constraintConjuncts) && y in CurrentPoints(constraintConjuncts)
      && InAll(x' + y, transitionConjuncts)
    }

    ghost predicate HasStepInto(x: Vector, f: Points)
      requires |isInput| == n
    {
      exists x', y :: Step(x, x', y) && y in f
    }

    lemma EdgeViaIff(x: Vector, x': Vector, y: Vector)
      requires Valid() && |x| == |y| == n
      ensures EdgeVia(x, x', y) && InAll(y + y, constraintConjuncts) <==> Step(x, x', y)
    {
      Width(n, y);
      Width(n, x');
      if |x'| == n { ConstraintAnywhere(x', y); }
    }

    /** The edges of the structure are the steps of the system, with the inputs of the first point chosen anew. */
    lemma EdgeIff(x: Vector, y: Vector)
      requires Valid() && |x| == |y| == n
      ensures Edge(x, y) <==> exists x' :: Step(x, x', y)
    {
      if Edge(x, y) {
        var x' :| EdgeVia(x, x', y);
        EdgeViaIff(x, x', y);
      }
      if x' :| Step(x, x', y) { EdgeViaIff(x, x', y); }
    }

    /** The predecessors of a set are the points with a step into it. */
    lemma PreIff(points: Points)
      requires Valid() && points <= AllPoints()
      ensures Structure().Pre(points) == set x | x in AllPoints() && HasStepInto(x, points)
    {
      forall x | x in AllPoints() ensures x in Structure().Pre(points) <==> HasStepInto(x, points) {
        Width(n, x);
        if x in Structure().Pre(points) {
          var x', y := SuccessorVia(points, x);
          EdgeViaIff(x, x', y);
        }
        if HasStepInto(x, points) {
          var x', y :| Step(x, x', y) && y in points;
          EdgeIff(x, y);
          IsPredecessor(points, x, y);
        }
      }
    }

    // ---------- Image computation ----------

    method CurrentToNext(b: Bdd) returns (tmp: Bdd)
      requires b <= AllVectors(2 * n)
      ensures tmp == Replaced(n, n, b)
    {
      tmp := b;
      NothingReplaced(n, b);
      var v := 0;
      while v < n
        invariant 0 <= v <= n && tmp == Replaced(n, v, b)
      {
        tmp := NextToCurrent(b, tmp, v);
        v := v + 1;
      }
    }

    /** Current variable v becomes its next variable. */
    method NextToCurrent(ghost b: Bdd, before: Bdd, v: nat) returns (tmp: Bdd)
      requires v < n && before == Replaced(n, v, b)
      ensures tmp == Replaced(n, v + 1, b)
    {
      OneMoreReplaced(n, v, b);
      tmp := Substitute(n, before, v, n + v);
    }

    method ProjectNext(x: Bdd) returns (tmp: Bdd)
      requires x <= AllVectors(2 * n)
      ensures Quantified(n, NextVars(n, n), x, tmp)
    {
      tmp := x;
      NothingQuantified(n, x);
      var v := 0;
      while v < n
        invariant 0 <= v <= n && Quantified(n, NextVars(n, v), x, tmp)
      {
        OneMoreQuantified(n, NextVars(n, v), x, tmp, n + v);
        tmp := Exists(n, tmp, n + v);
        assert NextVars(n, v + 1) == NextVars(n, v) + {n + v};
        v := v + 1;
      }
    }

    method ProjectInputs(x: Bdd) returns (tmp: Bdd)
      requires Valid() && x <= AllVectors(2 * n)
      ensures Quantified(n, InputVars(isInput, n), x, tmp)
    {
      tmp := x;
      NothingQuantified(n, x);
      var v := 0;
      while v < n
        invariant 0 <= v <= n && Quantified(n, InputVars(isInput, v), x, tmp)
      {
        if isInput[v] {
          OneMoreQuantified(n, InputVars(isInput, v), x, tmp, v);
          tmp := Exists(n, tmp, v);
        }
        assert InputVars(isInput, v + 1) == InputVars(isInput, v) + if isInput[v] then {v} else {};
        v := v + 1;
      }
    }

    method Conjoin(f: Bdd, conjuncts: seq<Bdd>) returns (r: Bdd)
      ensures forall a: Vector :: a in r <==> a in f && InAll(a, conjuncts)
    {
      r := f;
      var i := 0;
      while i < |conjuncts|
        invariant 0 <= i <= |conjuncts|
        invariant forall a: Vector :: a in r <==> a in f && InAll(a, conjuncts[..i])
      {
        r := r * conjuncts[i];
        assert conjuncts[..i + 1] == conjuncts[..i] + [conjuncts[i]];
        i := i + 1;
      }
      assert conjuncts[..i] == conjuncts;
    }

    /** The assignments whose projection EX computes: an edge and a target in f. */
    ghost predicate Joined(f: Points, b: Vector) {
      && HasWidth(b, 2 * n) && b[n..] in f && InAll(b[n..] + b[n..], constraintConjuncts)
      && InAll(b, transitionConjuncts) && InAll(b, constraintConjuncts)
    }

    /** The predecessors of f: inputs are chosen afresh, constraints hold before and after the step. */
    method EX(f: Bdd, ghost points: Points) returns (r: Bdd)
      requires Valid() && points <= AllPoints() && f == Lift(points)
      ensures r == Lift(Structure().Pre(points)) == Lift(set x | x in AllPoints() && HasStepInto(x, points))
    {
      PreIff(points);
      var g := Conjoin(f, constraintConjuncts);
      var pNext := CurrentToNext(g);
      var c := Conjoin(pNext, transitionConjuncts);
      c := Conjoin(c, constraintConjuncts);
      forall b: Vector ensures b in c <==> Joined(points, b) {
        Width(2 * n, b);
        if HasWidth(b, 2 * n) {
          assert Moved(n, b, n) == b[n..] + b[n..];
          LiftMember(points, b[n..] + b[n..]);
        }
      }
      WithinAll(c, points);
      var p := ProjectNext(c);
      r := ExProjected(c, p, points);
    }

    lemma LiftMember(f: Points, a: Vector)
      ensures a in Lift(f) <==> HasWidth(a, 2 * n) && a[..n] in f
    {
      Width(2 * n, a);
    }

    lemma WithinAll(c: Bdd, points: Points)
      requires forall b: Vector :: b in c <==> Joined(points, b)
      ensures c <= AllVectors(2 * n)
    {
      forall b | b in c ensures b in AllVectors(2 * n) { Width(2 * n, b); }
    }

    method ExProjected(ghost c: Bdd, p: Bdd, ghost points: Points) returns (r: Bdd)
      requires Valid() && points <= AllPoints() && Quantified(n, NextVars(n, n), c, p)
      requires forall b: Vector :: b in c <==> Joined(points, b)
      ensures r == Lift(Structure().Pre(points))
    {
      forall b | b in p ensures b in AllVectors(2 * n) { Width(2 * n, b); }
      r := ProjectInputs(p);
      ghost var pre := Structure().Pre(points);
      forall a: Vector ensures a in r <==> a in Lift(pre) {
        LiftMember(pre, a);
        if a in r { PredecessorFound(c, p, points, a); }
        if a in Lift(pre) { PredecessorProjected(c, p, points, a); }
      }
    }

    lemma PredecessorFound(c: Bdd, p: Bdd, points: Points, a: Vector)
      requires Valid() && points <= AllPoints() && Quantified(n, NextVars(n, n), c, p)
      requires forall b: Vector :: b in c <==> Joined(points, b)
      requires HasWidth(a, 2 * n) && SomeAgrees(n, InputVars(isInput, n), a, p)
      ensures a[..n] in Structure().Pre(points)
    {
      var b1 :| b1 in p && AgreeOutside(n, InputVars(isInput, n), a, b1);
      var b :| b in c && AgreeOutside(n, NextVars(n, n), b1, b);
      SameStates(a, b1, b);
      JoinedEdge(points, a[..n], b);
      IsPredecessor(points, a[..n], b[n..]);
    }

    lemma SameStates(a: Vector, b1: Vector, b: Vector)
      requires |isInput| == n
      requires AgreeOutside(n, InputVars(isInput, n), a, b1) && AgreeOutside(n, NextVars(n, n), b1, b)
      ensures SameState(a[..n], b[..n])
    {
      forall v | 0 <= v < n && !isInput[v] ensures a[..n][v] == b[..n][v] {
        assert a[v] == b1[v];
        assert b1[v] == b[v];
      }
    }

    lemma JoinedEdge(points: Points, x: Vector, b: Vector)
      requires |isInput| == n && Joined(points, b) && SameState(x, b[..n])
      ensures Edge(x, b[n..])
    {
      assert b == b[..n] + b[n..];
      assert EdgeVia(x, b[..n], b[n..]);
    }

    lemma IsPredecessor(points: Points, x: Vector, y: Vector)
      requires |isInput| == n && points <= AllPoints() && y in points && |x| == n && Edge(x, y)
      ensures x in Structure().Pre(points)
    {
      Width(n, x);
      var k := Structure();
      assert k.HasSuccessor(x, points);
    }

    lemma PredecessorProjected(c: Bdd, p: Bdd, points: Points, a: Vector)
      requires Valid() && points <= AllPoints() && Quantified(n, NextVars(n, n), c, p)
      requires forall b: Vector :: b in c <==> Joined(points, b)
      requires HasWidth(a, 2 * n) && a[..n] in Structure().Pre(points)
      ensures SomeAgrees(n, InputVars(isInput, n), a, p)
    {
      var x', y := SuccessorVia(points, a[..n]);
      EdgeJoined(points, a[..n], x', y);
      NextForgotten(c, x', y, a);
      InputsForgotten(a, x');
      QuantifiedWitness(c, p, a, x' + a[n..]);
    }

    lemma SuccessorVia(points: Points, x: Vector) returns (x': Vector, y: Vector)
      requires Valid() && points <= AllPoints() && x in Structure().Pre(points)
      ensures y in points && |x'| == |y| == n && EdgeVia(x, x', y) && Edge(x, y)
    {
      assert Structure().HasSuccessor(x, points);
      y :| y in points && Structure().edge(x, y);
      x' :| EdgeVia(x, x', y);
    }

    lemma QuantifiedWitness(c: Bdd, p: Bdd, a: Vector, b: Vector)
      requires |isInput| == n && Quantified(n, NextVars(n, n), c, p)
      requires HasWidth(b, 2 * n) && SomeAgrees(n, NextVars(n, n), b, c) && AgreeOutside(n, InputVars(isInput, n), a, b)
      ensures SomeAgrees(n, InputVars(isInput, n), a, p)
    {
      assert b in p;
    }

    lemma EdgeJoined(points: Points, x: Vector, x': Vector, y: Vector)
      requires |isInput| == n && y in points && EdgeVia(x, x', y) && Edge(x, y)
      ensures Joined(points, x' + y)
    {
      assert (x' + y)[n..] == y;
    }

    lemma NextForgotten(c: Bdd, x': Vector, y: Vector, a: Vector)
      requires |x'| == |y| == n && HasWidth(a, 2 * n) && x' + y in c
      ensures HasWidth(x' + a[n..], 2 * n) && SomeAgrees(n, NextVars(n, n), x' + a[n..], c)
    {
      assert AgreeOutside(n, NextVars(n, n), x' + a[n..], x' + y);
    }

    lemma InputsForgotten(a: Vector, x': Vector)
      requires |isInput| == n && HasWidth(a, 2 * n) && SameState(a[..n], x')
      ensures AgreeOutside(n, InputVars(isInput, n), a, x' + a[n..])
    {
      var b := x' + a[n..];
      forall v | 0 <= v < 2 * n && v !in InputVars(isInput, n) ensures a[v] == b[v] {
        if v < n { assert a[..n][v] == x'[v]; }
      }
    }

    // ---------- Boolean operations on lifted sets ----------

    function Negation(f: Bdd): Bdd {
      AllVectors(2 * n) - f
    }

    lemma LiftNot(f: Points)
      ensures Negation(Lift(f)) == Lift(AllPoints() - f)
    {
      forall a | a in AllVectors(2 * n) ensures a in Negation(Lift(f)) <==> a in Lift(AllPoints() - f) {
        Width(2 * n, a);
        Width(n, a[..n]);
      }
    }

    lemma LiftOr(f: Points, g: Points)
      ensures Lift(f) + Lift(g) == Lift(f + g)
    {
    }

    lemma LiftAnd(f: Points, g: Points)
      ensures Lift(f) * Lift(g) == Lift(f * g)
    {
    }

    lemma LiftXor(f: Points, g: Points)
      ensures (Lift(f) + Lift(g)) - (Lift(f) * Lift(g)) == Lift((f + g) - (f * g))
    {
    }

    lemma LiftInjective(f: Points, g: Points)
      requires f <= AllPoints() && g <= AllPoints() && Lift(f) == Lift(g)
      ensures f == g
    {
      forall x | x in AllPoints() ensures x in f <==> x in g {
        Width(n, x);
        LiftMember(f, x + x);
        LiftMember(g, x + x);
        assert (x + x)[..n] == x;
      }
    }

    // ---------- The operators ----------

    ghost predicate LiftedOperator(op: Operator, points: Operator) {
      match op
      case Reach => points.Reach?
      case Stay => points.Stay?
      case ExistsUntil(f1, f2) => points.ExistsUntil? && f1 == Lift(points.f1) && f2 == Lift(points.f2)
      case ForallUntil(f1, f2) => points.ForallUntil? && f1 == Lift(points.f1) && f2 == Lift(points.f2)
    }

    ghost predicate OperatorWithin(op: Operator) {
      (op.ExistsUntil? || op.ForallUntil?) ==> op.f1 <= AllPoints() && op.f2 <= AllPoints()
    }

    /** The function whose fixpoint an operator computes. */
    method Tau(op: Operator, x: Bdd, ghost pointOp: Operator, ghost points: Points) returns (r: Bdd)
      requires Valid() && points <= AllPoints() && x == Lift(points)
      requires LiftedOperator(op, pointOp) && OperatorWithin(pointOp)
      ensures r == Lift(Structure().Tau(pointOp, points))
    {
      ghost var k := Structure();
      ghost var pre := k.Pre(points);
      match op {
        case Reach =>
          r := EX(x, points);
          LiftOr(points, pre);
          r := x + r;
        case Stay =>
          r := EX(x, points);
          LiftAnd(points, pre);
          r := x * r;
        case ExistsUntil(f1, f2) =>
          r := EX(x, points);
          UntilLifted(points, pointOp.f1, pointOp.f2, pre);
          r := x + f2 + f1 * r;
        case ForallUntil(f1, f2) =>
          r := AX(x, points);
          UntilLifted(points, pointOp.f1, pointOp.f2, k.Not(k.Pre(k.Not(points))));
          r := x + f2 + f1 * r;
      }
    }

    lemma UntilLifted(points: Points, f1: Points, f2: Points, step: Points)
      ensures Lift(points) + Lift(f2) + Lift(f1) * Lift(step) == Lift(points + f2 + f1 * step)
    {
      LiftAnd(f1, step);
      LiftOr(points, f2);
      LiftOr(points + f2, f1 * step);
    }

    lemma TauWithin(op: Operator, points: Points)
      requires |isInput| == n && points <= AllPoints() && OperatorWithin(op)
      ensures Structure().Tau(op, points) <= AllPoints()
      ensures if op.Stay? then Structure().Tau(op, points) <= points else points <= Structure().Tau(op, points)
    {
    }

    /** x stands for the points at which iterating the operator comes to rest. */
    ghost predicate Settled(op: Operator, points: Points, x: Bdd)
      requires Valid()
    {
      exists rest :: Structure().Rests(op, points, rest) && rest <= AllPoints() && x == Lift(rest)
    }

    /** Iterates until nothing changes. */
    method Fixedpoint(op: Operator, start: Bdd, ghost pointOp: Operator, ghost points: Points) returns (x: Bdd, ghost rest: Points)
      requires Valid() && points <= AllPoints() && start == Lift(points)
      requires LiftedOperator(op, pointOp) && OperatorWithin(pointOp)
      ensures rest <= AllPoints() && x == Lift(rest) && Structure().Rests(pointOp, points, rest)
      ensures Settled(pointOp, points, x)
    {
      x, rest := start, points;
      ghost var k := Structure();
      ghost var i: nat := 0;
      while true
        invariant rest <= AllPoints() && x == Lift(rest) && rest == k.Iterate(pointOp, points, i)
        decreases Distance(op, rest)
      {
        ghost var next := k.Tau(pointOp, rest);
        var image := Tau(op, x, pointOp, rest);
        StepsCloser(op, pointOp, rest, next);
        if image == x {
          LiftInjective(next, rest);
          return;
        }
        x, rest, i := image, next, i + 1;
      }
    }

    ghost function Distance(op: Operator, points: Points): nat {
      if op.Stay? then |points| else |AllPoints() - points|
    }

    lemma StepsCloser(op: Operator, pointOp: Operator, before: Points, next: Points)
      requires |isInput| == n && before <= AllPoints() && OperatorWithin(pointOp) && LiftedOperator(op, pointOp)
      requires next == Structure().Tau(pointOp, before)
      ensures next <= AllPoints() && (next != before ==> Distance(op, next) < Distance(op, before))
    {
      TauWithin(pointOp, before);
      if next != before { Progress(before, next, AllPoints()); }
    }

    lemma Progress(before: Points, after: Points, all: Points)
      requires before <= all && after <= all && before != after
      ensures after <= before ==> |after| < |before|
      ensures before <= after ==> |all - after| < |all - before|
    {
      if after <= before {
        var x :| x in before && x !in after;
        ProperSubsetSize(after, before, x);
      }
      if before <= after {
        var x :| x in after && x !in before;
        ProperSubsetSize(all - after, all - before, x);
      }
    }

    // ---------- The operators mean what they say about paths ----------

    method EF(f: Bdd, ghost points: Points) returns (r: Bdd)
      requires Valid() && points <= AllPoints() && f == Lift(points)
      ensures r == Lift(Structure().ReachSet(points))
    {
      ghost var rest;
      r, rest := Fixedpoint(Reach, f, Reach, points);
      forall x | x in AllPoints() ensures x in rest <==> x in Structure().ReachSet(points) {
        ReachExact(Structure(), points, rest, x);
      }
      assert rest == Structure().ReachSet(points);
    }

    method EG(f: Bdd, ghost points: Points) returns (r: Bdd)
      requires Valid() && points <= AllPoints() && f == Lift(points)
      ensures r == Lift(Structure().StaySet(points))
    {
      ghost var rest;
      r, rest := Fixedpoint(Stay, f, Stay, points);
      forall x | x in AllPoints() ensures x in rest <==> x in Structure().StaySet(points) {
        StayExact(Structure(), points, rest, x);
      }
      assert rest == Structure().StaySet(points);
    }

    method EU(f1: Bdd, f2: Bdd, ghost points1: Points, ghost points2: Points) returns (r: Bdd)
      requires Valid() && points1 <= AllPoints() && points2 <= AllPoints() && f1 == Lift(points1) && f2 == Lift(points2)
      ensures r == Lift(Structure().UntilSet(points1, points2))
    {
      ghost var rest;
      r, rest := Fixedpoint(ExistsUntil(f1, f2), f2, ExistsUntil(points1, points2), points2);
      forall x | x in AllPoints() ensures x in rest <==> x in Structure().UntilSet(points1, points2) {
        ExistsUntilExact(Structure(), points1, points2, rest, x);
      }
      assert rest == Structure().UntilSet(points1, points2);
    }

    method AU(f1: Bdd, f2: Bdd, ghost points1: Points, ghost points2: Points) returns (r: Bdd)
      requires Valid() && points1 <= AllPoints() && points2 <= AllPoints() && f1 == Lift(points1) && f2 == Lift(points2)
      ensures r == Lift(Structure().AlwaysUntilSet(points1, points2))
    {
      ghost var rest;
      r, rest := Fixedpoint(ForallUntil(f1, f2), f2, ForallUntil(points1, points2), points2);
      forall x | x in AllPoints() ensures x in rest <==> x in Structure().AlwaysUntilSet(points1, points2) {
        ForallUntilExact(Structure(), points1, points2, rest, x);
      }
      assert rest == Structure().AlwaysUntilSet(points1, points2);
    }

    // ---------- The dual operators ----------

    method AX(f: Bdd, ghost points: Points) returns (r: Bdd)
      requires Valid() && points <= AllPoints() && f == Lift(points)
      ensures r == Lift(Structure().NextSet(points))
    {
      LiftNot(points);
      r := EX(Negation(f), AllPoints() - points);
      LiftNot(Structure().Pre(AllPoints() - points));
      r := Negation(r);
      NextIsDual(points);
    }

    lemma NextIsDual(points: Points)
      requires |isInput| == n
      ensures Structure().NextSet(points) == AllPoints() - Structure().Pre(AllPoints() - points)
    {
      forall x | x in AllPoints() ensures x in Structure().NextSet(points) <==> x !in Structure().Pre(AllPoints() - points) {
        AllSuccessorsDual(Structure(), x, points);
      }
    }

    method AF(f: Bdd, ghost points: Points) returns (r: Bdd)
      requires Valid() && points <= AllPoints() && f == Lift(points)
      ensures r == Lift(Structure().InevitableSet(points))
    {
      LiftNot(points);
      r := EG(Negation(f), AllPoints() - points);
      LiftNot(Structure().StaySet(AllPoints() - points));
      r := Negation(r);
      InevitableIsDual(points);
    }

    lemma InevitableIsDual(points: Points)
      requires |isInput| == n
      ensures Structure().InevitableSet(points) == AllPoints() - Structure().StaySet(AllPoints() - points)
    {
    }

    method AG(f: Bdd, ghost points: Points) returns (r: Bdd)
      requires Valid() && points <= AllPoints() && f == Lift(points)
      ensures r == Lift(Structure().AlwaysSet(points))
    {
      LiftNot(points);
      r := EF(Negation(f), AllPoints() - points);
      LiftNot(Structure().ReachSet(AllPoints() - points));
      r := Negation(r);
      AlwaysIsDual(points);
    }

    lemma AlwaysIsDual(points: Points)
      requires |isInput| == n
      ensures Structure().AlwaysSet(points) == AllPoints() - Structure().ReachSet(AllPoints() - points)
    {
      forall x | x in AllPoints() ensures x in Structure().AlwaysSet(points) <==> x !in Structure().ReachSet(AllPoints() - points) {
        OnAllPathsDual(Structure(), x, points);
      }
    }

    method ER(f1: Bdd, f2: Bdd, ghost points1: Points, ghost points2: Points) returns (r: Bdd)
      requires Valid() && points1 <= AllPoints() && points2 <= AllPoints() && f1 == Lift(points1) && f2 == Lift(points2)
      ensures r == Lift(Structure().SomeReleaseSet(points1, points2))
    {
      LiftNot(points1);
      LiftNot(points2);
      r := AU(Negation(f1), Negation(f2), AllPoints() - points1, AllPoints() - points2);
      LiftNot(Structure().AlwaysUntilSet(AllPoints() - points1, AllPoints() - points2));
      r := Negation(r);
      SomeReleaseIsDual(points1, points2);
    }

    lemma SomeReleaseIsDual(f1: Points, f2: Points)
      requires |isInput| == n && f1 <= AllPoints() && f2 <= AllPoints()
      ensures Structure().SomeReleaseSet(f1, f2) == AllPoints() - Structure().AlwaysUntilSet(AllPoints() - f1, AllPoints() - f2)
    {
      forall x | x in AllPoints()
        ensures x in Structure().SomeReleaseSet(f1, f2) <==> x !in Structure().AlwaysUntilSet(AllPoints() - f1, AllPoints() - f2)
      {
        SomeReleaseDual(Structure(), x, f1, f2);
      }
    }

    method AR(f1: Bdd, f2: Bdd, ghost points1: Points, ghost points2: Points) returns (r: Bdd)
      requires Valid() && points1 <= AllPoints() && points2 <= AllPoints() && f1 == Lift(points1) && f2 == Lift(points2)
      ensures r == Lift(Structure().ReleaseSet(points1, points2))
    {
      LiftNot(points1);
      LiftNot(points2);
      r := EU(Negation(f1), Negation(f2), AllPoints() - points1, AllPoints() - points2);
      LiftNot(Structure().UntilSet(AllPoints() - points1, AllPoints() - points2));
      r := Negation(r);
      ReleaseIsDual(points1, points2);
    }

    lemma ReleaseIsDual(f1: Points, f2: Points)
      requires |isInput| == n
      ensures Structure().ReleaseSet(f1, f2) == AllPoints() - Structure().UntilSet(AllPoints() - f1, AllPoints() - f2)
    {
      forall x | x in AllPoints() ensures x in Structure().ReleaseSet(f1, f2) <==> x !in Structure().UntilSet(AllPoints() - f1, AllPoints() - f2) {
        ReleasedDual(Structure(), x, f1, f2);
      }
    }

    /** AF f by duality is AU(true, f), whether or not every point has a successor. */
    lemma AlwaysEventuallyIsUntil(points: Points)
      requires |isInput| == n && points <= AllPoints()
      ensures Structure().InevitableSet(points) == Structure().AlwaysUntilSet(AllPoints(), points)
    {
      var k := Structure();
      assert k.Not(AllPoints()) * k.Not(points) == {};
      forall x | x in AllPoints() ensures k.AlwaysUntil(x, AllPoints(), points) <==> k.Inevitable(x, points) {
        assert !k.Until(x, k.Not(points), {});
      }
    }
  }
}
