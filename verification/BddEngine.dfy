/** The BDD engine: CTL formulas evaluated bottom-up, and the backward search for AG p. */
module BddEngine {
  import opened Vectors
  import opened CtlSemantics
  import opened BddModelChecker
  import opened PropertyStatus
  import opened Options

  datatype Formula =
    | True | False | Atom(name: string)
    | Not(f: Formula) | Implies(f: Formula, g: Formula) | And(fs: seq<Formula>) | Or(fs: seq<Formula>)
    | Equal(f: Formula, g: Formula)
    | EX(f: Formula) | EF(f: Formula) | EG(f: Formula) | AX(f: Formula) | AF(f: Formula) | AG(f: Formula)
    | EU(f: Formula, g: Formula) | AU(f: Formula, g: Formula) | ER(f: Formula, g: Formula) | AR(f: Formula, g: Formula)

  predicate IsUnary(f: Formula) {
    f.Not? || f.EX? || f.EF? || f.EG? || f.AX? || f.AF? || f.AG?
  }

  predicate IsBinary(f: Formula) {
    f.Implies? || f.Equal? || f.EU? || f.AU? || f.ER? || f.AR?
  }

  /** Every atom is a known atomic proposition. */
  predicate Known(atoms: set<string>, f: Formula) {
    if IsUnary(f) then Known(atoms, f.f)
    else if IsBinary(f) then Known(atoms, f.f) && Known(atoms, f.g)
    else
      match f
      case Atom(name) => name in atoms
      case And(fs) => forall i :: 0 <= i < |fs| ==> Known(atoms, fs[i])
      case Or(fs) => forall i :: 0 <= i < |fs| ==> Known(atoms, fs[i])
      case _ => true
  }

  // ---------- Meaning ----------

  /** The points of f when those of its operand are s, in terms of the paths of the structure. */
  ghost function UnaryPoints(k: Kripke, f: Formula, s: Points): (r: Points)
    requires IsUnary(f)
    ensures r <= k.points
  {
    match f
    case Not(_) => k.Not(s)
    case EX(_) => k.Pre(s)
    case EF(_) => k.ReachSet(s)
    case EG(_) => k.StaySet(s)
    case AX(_) => k.NextSet(s)
    case AF(_) => k.InevitableSet(s)
    case AG(_) => k.AlwaysSet(s)
  }

  /** The points of f when those of its operands are s and t. */
  ghost function BinaryPoints(k: Kripke, f: Formula, s: Points, t: Points): (r: Points)
    requires IsBinary(f)
    ensures r <= k.points
  {
    match f
    case Implies(_, _) => set x | x in k.points && (x in s ==> x in t)
    case Equal(_, _) => set x | x in k.points && (x in s <==> x in t)
    case EU(_, _) => k.UntilSet(s, t)
    case AU(_, _) => k.AlwaysUntilSet(s, t)
    case ER(_, _) => k.SomeReleaseSet(s, t)
    case AR(_, _) => k.ReleaseSet(s, t)
  }

  /** The points that satisfy a formula. */
  ghost function Sat(k: Kripke, atoms: map<string, Points>, f: Formula): (r: Points)
    requires Known(atoms.Keys, f)
    ensures r <= k.points
    decreases f
  {
    if IsUnary(f) then UnaryPoints(k, f, Sat(k, atoms, f.f))
    else if IsBinary(f) then BinaryPoints(k, f, Sat(k, atoms, f.f), Sat(k, atoms, f.g))
    else
      match f
      case True => k.points
      case False => {}
      case Atom(name) => k.points * atoms[name]
      case And(fs) => set x | x in k.points && forall i :: 0 <= i < |fs| ==> x in Sat(k, atoms, fs[i])
      case Or(fs) => set x | x in k.points && exists i :: 0 <= i < |fs| && x in Sat(k, atoms, fs[i])
  }

  // ---------- The engine ----------

  datatype Outcome = Outcome(status: Status, timeframes: Option<nat>)

  class BddEngine {
    const mc: BddModelChecker
    const atoms: map<string, Bdd>
    const initial: seq<Bdd>
    ghost const atomPoints: map<string, Points>

    constructor (mc: BddModelChecker, atoms: map<string, Bdd>, initial: seq<Bdd>,
                 ghost atomPoints: map<string, Points>)
      ensures this.mc == mc && this.atoms == atoms && this.initial == initial && this.atomPoints == atomPoints
    {
      this.mc, this.atoms, this.initial, this.atomPoints := mc, atoms, initial, atomPoints;
    }

    /** Atomic propositions and initial conditions are over the current variables. */
    ghost predicate Valid() {
      && mc.Valid() && atoms.Keys == atomPoints.Keys
      && (forall name :: name in atoms ==> atomPoints[name] <= mc.AllPoints() && atoms[name] == mc.Lift(atomPoints[name]))
      && forall i :: i in initial ==> mc.OnCurrent(i)
    }

    ghost function K(): Kripke
      requires mc.Valid()
    {
      mc.Structure()
    }

    ghost predicate Denotes(r: Option<Bdd>, f: Formula)
      requires Valid()
    {
      if Known(atoms.Keys, f) then r == Some(mc.Lift(Sat(K(), atomPoints, f))) else r == None
    }

    /** The points that satisfy a formula; None stands for the exception on an unknown atom. */
    method Evaluate(f: Formula) returns (r: Option<Bdd>)
      requires Valid()
      ensures Denotes(r, f)
      decreases f, 1
    {
      if IsUnary(f) {
        r := EvaluateUnary(f);
      } else if IsBinary(f) {
        r := EvaluateBinary(f);
      } else {
        match f {
          case True =>
            r := Some(AllVectors(2 * mc.n));
            SatTrue(f);
          case False =>
            r := Some({});
            assert mc.Lift({}) == {};
          case Atom(name) =>
            r := if name in atoms then Some(atoms[name]) else None;
            if name in atoms { assert Sat(K(), atomPoints, f) == atomPoints[name]; }
          case And(fs) => r := EvaluateAll(fs);
          case Or(fs) => r := EvaluateAny(fs);
        }
      }
    }

    lemma SatTrue(f: Formula)
      requires Valid() && f == True
      ensures AllVectors(2 * mc.n) == mc.Lift(Sat(K(), atomPoints, f))
    {
      assert Sat(K(), atomPoints, f) == mc.AllPoints();
      forall a | a in AllVectors(2 * mc.n) ensures a in mc.Lift(mc.AllPoints()) {
        Width(2 * mc.n, a);
        Width(mc.n, a[..mc.n]);
      }
    }

    method EvaluateUnary(f: Formula) returns (r: Option<Bdd>)
      requires Valid() && IsUnary(f)
      ensures Denotes(r, f)
      decreases f, 0
    {
      var a := Evaluate(f.f);
      if a.None? { return None; }
      var b := ComputeUnary(f, a.value, Sat(K(), atomPoints, f.f));
      r := Some(b);
    }

    method ComputeUnary(f: Formula, a: Bdd, ghost s: Points) returns (b: Bdd)
      requires Valid() && IsUnary(f) && s <= mc.AllPoints() && a == mc.Lift(s)
      ensures b == mc.Lift(UnaryPoints(K(), f, s))
    {
      match f {
        case Not(_) =>
          mc.LiftNot(s);
          b := mc.Negation(a);
        case EX(_) => b := mc.EX(a, s);
        case EF(_) => b := mc.EF(a, s);
        case EG(_) => b := mc.EG(a, s);
        case AX(_) => b := mc.AX(a, s);
        case AF(_) => b := mc.AF(a, s);
        case AG(_) => b := mc.AG(a, s);
      }
    }

    method EvaluateBinary(f: Formula) returns (r: Option<Bdd>)
      requires Valid() && IsBinary(f)
      ensures Denotes(r, f)
      decreases f, 0
    {
      var a := Evaluate(f.f);
      if a.None? { return None; }
      var b := Evaluate(f.g);
      if b.None? { return None; }
      var c := ComputeBinary(f, a.value, b.value, Sat(K(), atomPoints, f.f), Sat(K(), atomPoints, f.g));
      r := Some(c);
    }

    method ComputeBinary(f: Formula, a: Bdd, b: Bdd, ghost s: Points, ghost t: Points) returns (c: Bdd)
      requires Valid() && IsBinary(f) && s <= mc.AllPoints() && t <= mc.AllPoints() && a == mc.Lift(s) && b == mc.Lift(t)
      ensures c == mc.Lift(BinaryPoints(K(), f, s, t))
    {
      match f {
        case Implies(_, _) => c := Implication(a, b, s, t);
        case Equal(_, _) => c := Equivalence(a, b, s, t);
        case EU(_, _) => c := mc.EU(a, b, s, t);
        case AU(_, _) => c := mc.AU(a, b, s, t);
        case ER(_, _) => c := mc.ER(a, b, s, t);
        case AR(_, _) => c := mc.AR(a, b, s, t);
      }
    }

    method Implication(a: Bdd, b: Bdd, ghost s: Points, ghost t: Points) returns (c: Bdd)
      requires s <= mc.AllPoints() && t <= mc.AllPoints() && a == mc.Lift(s) && b == mc.Lift(t)
      ensures c == mc.Lift(set x | x in mc.AllPoints() && (x in s ==> x in t))
    {
      c := mc.Negation(a) + b;
      ghost var d := mc.AllPoints() - s;
      mc.LiftNot(s);
      mc.LiftOr(d, t);
      assert d + t == set x | x in mc.AllPoints() && (x in s ==> x in t);
    }

    /** Equality is the exclusive or with the negation. */
    method Equivalence(a: Bdd, b: Bdd, ghost s: Points, ghost t: Points) returns (c: Bdd)
      requires s <= mc.AllPoints() && t <= mc.AllPoints() && a == mc.Lift(s) && b == mc.Lift(t)
      ensures c == mc.Lift(set x | x in mc.AllPoints() && (x in s <==> x in t))
    {
      var e := mc.Negation(a);
      c := (e + b) - (e * b);
      ghost var d := mc.AllPoints() - s;
      mc.LiftNot(s);
      mc.LiftXor(d, t);
      assert (d + t) - (d * t) == set x | x in mc.AllPoints() && (x in s <==> x in t);
    }

    method EvaluateAll(fs: seq<Formula>) returns (r: Option<Bdd>)
      requires Valid()
      ensures Denotes(r, And(fs))
      decreases And(fs), 0
    {
      var result := AllVectors(2 * mc.n);
      SatTrue(True);
      ghost var points := mc.AllPoints();
      var i := 0;
      while i < |fs|
        invariant 0 <= i <= |fs| && points <= mc.AllPoints() && result == mc.Lift(points)
        invariant forall j :: 0 <= j < i ==> Known(atoms.Keys, fs[j])
        invariant forall x :: x in points <==> x in mc.AllPoints() && forall j :: 0 <= j < i ==> x in Sat(K(), atomPoints, fs[j])
      {
        var a := Evaluate(fs[i]);
        if a.None? { return None; }
        ghost var s := Sat(K(), atomPoints, fs[i]);
        mc.LiftAnd(points, s);
        result, points := result * a.value, points * s;
        i := i + 1;
      }
      assert points == Sat(K(), atomPoints, And(fs));
      r := Some(result);
    }

    /** The points of the first i disjuncts. */
    ghost function SomeSat(fs: seq<Formula>, i: nat): Points
      requires Valid() && i <= |fs| && forall j :: 0 <= j < i ==> Known(atoms.Keys, fs[j])
    {
      set x | x in mc.AllPoints() && exists j :: 0 <= j < i && x in Sat(K(), atomPoints, fs[j])
    }

    lemma OneMore(fs: seq<Formula>, i: nat)
      requires Valid() && i < |fs| && forall j :: 0 <= j <= i ==> Known(atoms.Keys, fs[j])
      ensures SomeSat(fs, i + 1) == SomeSat(fs, i) + Sat(K(), atomPoints, fs[i])
    {
    }

    method EvaluateAny(fs: seq<Formula>) returns (r: Option<Bdd>)
      requires Valid()
      ensures Denotes(r, Or(fs))
      decreases Or(fs), 0
    {
      var result := {};
      ghost var points: Points := {};
      assert mc.Lift(points) == {};
      var i := 0;
      while i < |fs|
        invariant 0 <= i <= |fs| && points <= mc.AllPoints() && result == mc.Lift(points)
        invariant forall j :: 0 <= j < i ==> Known(atoms.Keys, fs[j])
        invariant points == SomeSat(fs, i)
      {
        var a := Evaluate(fs[i]);
        if a.None? { return None; }
        ghost var s := Sat(K(), atomPoints, fs[i]);
        mc.LiftOr(points, s);
        OneMore(fs, i);
        result, points := result + a.value, points + s;
        i := i + 1;
      }
      assert points == Sat(K(), atomPoints, Or(fs));
      r := Some(result);
    }

    // ---------- Initial states and runs ----------

    /** Conjoining current-state conditions keeps the points that satisfy them. */
    method Restrict(f: Bdd, conjuncts: seq<Bdd>, ghost points: Points) returns (r: Bdd)
      requires Valid() && points <= mc.AllPoints() && f == mc.Lift(points)
      requires forall c :: c in conjuncts ==> mc.OnCurrent(c)
      ensures r == mc.Lift(points * mc.CurrentPoints(conjuncts))
    {
      r := mc.Conjoin(f, conjuncts);
      forall a: Vector ensures a in r <==> a in mc.Lift(points * mc.CurrentPoints(conjuncts)) {
        mc.LiftMember(points * mc.CurrentPoints(conjuncts), a);
        mc.LiftMember(points, a);
        if HasWidth(a, 2 * mc.n) { mc.ConditionsLift(conjuncts, a); }
      }
    }

    lemma LiftEmpty(points: Points)
      requires points <= mc.AllPoints()
      ensures mc.Lift(points) == {} <==> points == {}
    {
      if mc.Lift(points) == {} {
        assert mc.Lift({}) == {};
        mc.LiftInjective(points, {});
      }
    }

    /** A formula is proved exactly when every initial state that satisfies the constraints satisfies it. */
    method CheckCTL(f: Formula) returns (r: Option<Status>)
      requires Valid()
      ensures Known(atoms.Keys, f) ==>
              r == Some(if mc.CurrentPoints(initial) * mc.CurrentPoints(mc.constraintConjuncts) <= Sat(K(), atomPoints, f)
                        then Status.Proved else Status.Refuted)
      ensures !Known(atoms.Keys, f) ==> r == None
    {
      var b := Evaluate(f);
      if b.None? { return None; }
      ghost var s := Sat(K(), atomPoints, f);
      mc.LiftNot(s);
      var intersection := Restrict(mc.Negation(b.value), initial, mc.AllPoints() - s);
      ghost var first := (mc.AllPoints() - s) * mc.CurrentPoints(initial);
      intersection := Restrict(intersection, mc.constraintConjuncts, first);
      LiftEmpty(first * mc.CurrentPoints(mc.constraintConjuncts));
      NoneOutside(mc.AllPoints(), s, mc.CurrentPoints(initial), mc.CurrentPoints(mc.constraintConjuncts));
      r := Some(if intersection == {} then Status.Proved else Status.Refuted);
    }

    lemma NoneOutside(all: Points, s: Points, i: Points, c: Points)
      requires i <= all
      ensures (all - s) * i * c == {} <==> i * c <= s
    {
      forall x | x in i * c && x !in s ensures x in (all - s) * i * c {}
      forall x | x in (all - s) * i * c ensures x in i * c && x !in s {}
    }

    // ---------- Backward search ----------

    /** A run of the system: constraints and transitions hold, the first state is initial, the last one bad. */
    ghost predicate IsRun(xs: seq<Vector>, bad: Points) {
      && |xs| > 0 && (forall i :: 0 <= i < |xs| ==> xs[i] in mc.CurrentPoints(mc.constraintConjuncts))
      && xs[0] in mc.CurrentPoints(initial) && xs[|xs| - 1] in bad
      && forall i :: 0 <= i < |xs| - 1 ==> mc.InAll(xs[i] + xs[i + 1], mc.transitionConjuncts)
    }

    ghost predicate HasRun(length: nat, bad: Points) {
      exists xs :: IsRun(xs, bad) && |xs| == length
    }

    /** Initial conditions do not mention inputs, and transition conditions no next inputs. */
    ghost predicate InputFree()
      requires mc.Valid()
    {
      && (forall x, y :: mc.SameState(x, y) ==> (x in mc.CurrentPoints(initial) <==> y in mc.CurrentPoints(initial)))
      && (forall x, y, z :: mc.SameState(y, z) ==>
            (mc.InAll(x + y, mc.transitionConjuncts) <==> mc.InAll(x + z, mc.transitionConjuncts)))
    }

    /** What the search follows: a path from an initial point to a bad one that may choose the inputs of a
        state anew for leaving it. */
    ghost predicate IsTrail(p: seq<Vector>, bad: Points)
      requires mc.Valid()
    {
      K().UntilPath(p, mc.AllPoints(), Target(bad)) && p[0] in mc.CurrentPoints(initial)
    }

    ghost predicate HasTrail(length: nat, bad: Points)
      requires mc.Valid()
    {
      exists p :: IsTrail(p, bad) && |p| == length
    }

    function Target(bad: Points): Points {
      bad * mc.CurrentPoints(mc.constraintConjuncts)
    }

    lemma RunIsTrail(xs: seq<Vector>, bad: Points)
      requires Valid() && IsRun(xs, bad)
      ensures IsTrail(xs, bad)
    {
      forall i | 0 <= i < |xs| - 1 ensures K().PathStep(xs, i) {
        var x, y := xs[i], xs[i + 1];
        assert y in mc.CurrentPoints(mc.constraintConjuncts) && x in mc.CurrentPoints(mc.constraintConjuncts);
        Width(mc.n, x);
        Width(mc.n, y);
        mc.ConstraintAnywhere(x, y);
        assert mc.EdgeVia(x, x, y);
      }
    }

    /** xs takes steps of the system through the states of p. */
    ghost predicate Follows(xs: seq<Vector>, p: seq<Vector>)
      requires mc.Valid()
    {
      && |xs| == |p| && (forall i :: 0 <= i < |p| ==> mc.SameState(p[i], xs[i]))
      && (forall i :: 0 <= i < |xs| ==> xs[i] in mc.CurrentPoints(mc.constraintConjuncts))
      && forall i :: 0 <= i < |xs| - 1 ==> mc.InAll(xs[i] + xs[i + 1], mc.transitionConjuncts)
    }

    ghost predicate Followed(p: seq<Vector>)
      requires mc.Valid()
    {
      exists xs :: Follows(xs, p)
    }

    /** Every point of a path but the first satisfies the constraints. */
    lemma PathAdmitted(p: seq<Vector>, i: nat)
      requires Valid() && K().IsPath(p) && 0 < i < |p|
      ensures p[i] in mc.CurrentPoints(mc.constraintConjuncts)
    {
      Width(mc.n, p[i - 1]);
      Width(mc.n, p[i]);
      assert K().PathStep(p, i - 1);
      mc.EdgeIff(p[i - 1], p[i]);
    }

    /** Inputs can be chosen along a path of the structure so that it becomes a run. */
    lemma {:induction false} ChooseInputs(p: seq<Vector>) returns (xs: seq<Vector>)
      requires Valid() && InputFree() && K().IsPath(p) && p[|p| - 1] in mc.CurrentPoints(mc.constraintConjuncts)
      ensures Follows(xs, p) && xs[|xs| - 1] == p[|p| - 1]
      decreases |p|
    {
      Width(mc.n, p[0]);
      if |p| == 1 {
        xs := p;
      } else {
        PathRest(p);
        var rest := ChooseInputs(p[1..]);
        Width(mc.n, p[1]);
        mc.EdgeIff(p[0], p[1]);
        var x :| mc.Step(p[0], x, p[1]);
        xs := [x] + rest;
        ExtendRun(p, x, rest);
      }
    }

    lemma PathRest(p: seq<Vector>)
      requires Valid() && K().IsPath(p) && |p| > 1
      ensures K().IsPath(p[1..]) && p[1..][|p| - 2] == p[|p| - 1] && mc.Edge(p[0], p[1])
    {
      assert K().PathStep(p, 0);
      forall i | 0 <= i < |p[1..]| - 1 ensures K().PathStep(p[1..], i) { assert K().PathStep(p, i + 1); }
    }

    lemma ExtendRun(p: seq<Vector>, x: Vector, rest: seq<Vector>)
      requires Valid() && InputFree() && |p| > 1 && Follows(rest, p[1..]) && mc.Step(p[0], x, p[1])
      ensures Follows([x] + rest, p)
    {
      var xs := [x] + rest;
      forall i | 0 <= i < |p| ensures mc.SameState(p[i], xs[i]) {
        if i > 0 { assert mc.SameState(p[1..][i - 1], rest[i - 1]); }
      }
      forall i | 0 <= i < |xs| - 1 ensures mc.InAll(xs[i] + xs[i + 1], mc.transitionConjuncts) {
        if i > 0 {
          assert xs[i] == rest[i - 1] && xs[i + 1] == rest[i - 1 + 1];
        } else {
          assert mc.SameState(p[1..][0], rest[0]);
        }
      }
    }

    /** What paths are: the later points satisfy the constraints, and, where conditions do not mention the
        inputs that are chosen anew, a run of the system goes through the same states. */
    lemma PathIffFollowed(p: seq<Vector>)
      requires Valid() && |p| > 0 && forall i :: 0 <= i < |p| ==> p[i] in mc.AllPoints()
      requires p[|p| - 1] in mc.CurrentPoints(mc.constraintConjuncts)
      ensures InputFree() ==>
              (K().IsPath(p) <==> Followed(p) && forall i :: 0 < i < |p| ==> p[i] in mc.CurrentPoints(mc.constraintConjuncts))
    {
      if InputFree() && K().IsPath(p) {
        var xs := ChooseInputs(p);
        forall i | 0 < i < |p| ensures p[i] in mc.CurrentPoints(mc.constraintConjuncts) { PathAdmitted(p, i); }
      }
      if InputFree() && Followed(p) && forall i :: 0 < i < |p| ==> p[i] in mc.CurrentPoints(mc.constraintConjuncts) {
        var xs :| Follows(xs, p);
        forall i | 0 <= i < |p| - 1 ensures K().PathStep(p, i) { FollowedStep(xs, p, i, i + 1); }
      }
    }

    lemma FollowedStep(xs: seq<Vector>, p: seq<Vector>, i: nat, next: nat)
      requires Valid() && InputFree() && Follows(xs, p) && next == i + 1 < |p|
      requires p[next] in mc.CurrentPoints(mc.constraintConjuncts)
      ensures mc.Edge(p[i], p[next])
    {
      assert mc.SameState(p[i], xs[i]) && mc.SameState(p[next], xs[next]);
      assert mc.InAll(xs[i] + xs[i + 1], mc.transitionConjuncts);
      assert mc.Step(p[i], xs[i], p[next]);
      mc.EdgeIff(p[i], p[next]);
    }

    lemma TrailIsRun(p: seq<Vector>, bad: Points) returns (xs: seq<Vector>)
      requires Valid() && InputFree() && IsTrail(p, bad)
      ensures IsRun(xs, bad) && |xs| == |p|
    {
      xs := ChooseInputs(p);
      assert mc.SameState(p[0], xs[0]);
    }

    /** Every run is a trail; without conditions on inputs every trail can be made a run. */
    lemma RunsAndTrails(bad: Points, length: nat)
      requires Valid()
      ensures HasRun(length, bad) ==> HasTrail(length, bad)
      ensures InputFree() ==> (HasRun(length, bad) <==> HasTrail(length, bad))
    {
      if HasRun(length, bad) {
        var xs :| IsRun(xs, bad) && |xs| == length;
        RunIsTrail(xs, bad);
      }
      if InputFree() && HasTrail(length, bad) {
        var p :| IsTrail(p, bad) && |p| == length;
        var xs := TrailIsRun(p, bad);
      }
    }

    /** A trail of up to n + 1 points starts at a point n rounds away from the bad ones. */
    lemma TrailStartsInRound(bad: Points, n: nat, p: seq<Vector>)
      requires Valid() && IsTrail(p, bad) && |p| <= n + 1
      ensures p[0] in K().Iterate(Reach, Target(bad), n) * mc.CurrentPoints(initial)
    {
      WithinReaches(K(), Target(bad), n, p);
    }

    lemma InitialRound(bad: Points, n: nat) returns (length: nat)
      requires Valid() && K().Iterate(Reach, Target(bad), n) * mc.CurrentPoints(initial) != {} && bad <= mc.AllPoints()
      ensures length <= n + 1 && HasTrail(length, bad)
    {
      var x :| x in K().Iterate(Reach, Target(bad), n) * mc.CurrentPoints(initial);
      var p := ReachesWithin(K(), Target(bad), n, x);
      assert IsTrail(p, bad);
      length := |p|;
    }

    /** The number of states of a shortest trail to a bad state. */
    ghost predicate ShortestTrail(length: nat, bad: Points)
      requires mc.Valid()
    {
      HasTrail(length, bad) && NoTrailBelow(length, bad)
    }

    ghost predicate NoTrailBelow(length: nat, bad: Points)
      requires mc.Valid()
    {
      forall m: nat :: m < length ==> !HasTrail(m, bad)
    }

    ghost predicate NoTrail(bad: Points)
      requires mc.Valid()
    {
      forall m: nat :: !HasTrail(m, bad)
    }

    ghost predicate ShortestRun(length: nat, bad: Points) {
      HasRun(length, bad) && forall m: nat :: m < length ==> !HasRun(m, bad)
    }

    ghost predicate NoRun(bad: Points) {
      forall m: nat :: !HasRun(m, bad)
    }

    /** What the search says about trails it says about runs: always that there is none, and without
        conditions on inputs also that there is one and how long it is. */
    lemma TrailVerdict(bad: Points, length: nat)
      requires Valid()
      ensures NoTrail(bad) ==> NoRun(bad)
      ensures InputFree() && ShortestTrail(length, bad) ==> ShortestRun(length, bad)
    {
      forall m: nat ensures HasRun(m, bad) ==> HasTrail(m, bad) { RunsAndTrails(bad, m); }
      RunsAndTrails(bad, length);
    }

    /** A universal property is refuted, and an existential one proved, exactly when some trail reaches !f;
        the trace is then asked for with the length of a shortest one. A verdict without a trace is right
        for runs always, one with a trace when the conditions do not mention inputs. */
    method CheckAGp(f: Formula, existsPath: bool) returns (r: Option<Outcome>)
      requires Valid()
      ensures r == None <==> !Known(atoms.Keys, f)
      ensures r.Some? ==>
              var bad := mc.AllPoints() - Sat(K(), atomPoints, f);
              match r.value.timeframes
              case Some(length) =>
                && ShortestTrail(length, bad) && (InputFree() ==> ShortestRun(length, bad))
                && r.value.status == if existsPath then Status.Proved else Status.Refuted
              case None =>
                NoTrail(bad) && NoRun(bad) && r.value.status == if existsPath then Status.Refuted else Status.Proved
    {
      var p := Evaluate(f);
      if p.None? { return None; }
      ghost var bad := mc.AllPoints() - Sat(K(), atomPoints, f);
      mc.LiftNot(Sat(K(), atomPoints, f));
      var states := Restrict(mc.Negation(p.value), mc.constraintConjuncts, bad);
      var found, iteration := Backward(states, bad);
      TrailVerdict(bad, iteration);
      var proved := found == existsPath;
      r := Some(Outcome(if proved then Status.Proved else Status.Refuted, if found then Some(iteration) else None));
    }

    method Backward(start: Bdd, ghost bad: Points) returns (found: bool, iteration: nat)
      requires Valid() && bad <= mc.AllPoints() && start == mc.Lift(Target(bad))
      ensures found ==> ShortestTrail(iteration, bad)
      ensures !found ==> NoTrail(bad)
    {
      var states := start;
      ghost var points := Target(bad);
      iteration := 0;
      SearchStarts(bad);
      while true
        invariant Searched(states, points, bad, iteration)
        decreases |mc.AllPoints() - points|
      {
        var hit, union;
        ghost var next;
        hit, union, next := Round(states, points, bad, iteration);
        iteration := iteration + 1;
        if hit { return true, iteration; }
        if union == states { return false, iteration; }
        states, points := union, next;
      }
    }

    /** One round: an initial point among the states found so far, or their predecessors added. */
    method Round(states: Bdd, ghost points: Points, ghost bad: Points, ghost rounds: nat)
      returns (hit: bool, union: Bdd, ghost next: Points)
      requires Valid() && bad <= mc.AllPoints() && Searched(states, points, bad, rounds)
      ensures hit ==> ShortestTrail(rounds + 1, bad)
      ensures !hit && union == states ==> NoTrail(bad)
      ensures !hit && union != states ==>
              Searched(union, next, bad, rounds + 1) && |mc.AllPoints() - next| < |mc.AllPoints() - points|
    {
      union, next := states, points;
      hit := HitsInitial(states, points, bad, rounds);
      if hit {
        FirstHit(states, points, bad, rounds);
        return;
      }
      next := points + K().Pre(points);
      union := AddPredecessors(states, points, bad, rounds);
      if union == states {
        SearchRests(states, points, next, bad, rounds);
      } else {
        SearchGoesOn(states, points, next, union, bad, rounds);
      }
    }

    /** After some rounds: the points that many transitions before a bad one, and no trail so far. */
    ghost predicate Searched(states: Bdd, points: Points, bad: Points, rounds: nat)
      requires mc.Valid()
    {
      && points <= mc.AllPoints() && states == mc.Lift(points)
      && points == K().Iterate(Reach, Target(bad), rounds) && NoTrailBelow(rounds + 1, bad)
    }

    lemma SearchStarts(bad: Points)
      requires Valid() && bad <= mc.AllPoints()
      ensures Searched(mc.Lift(Target(bad)), Target(bad), bad, 0)
    {
      assert Target(bad) == K().Iterate(Reach, Target(bad), 0);
      forall m: nat | m < 1 ensures !HasTrail(m, bad) {}
    }

    /** The first round that hits an initial point is that of a shortest trail. */
    lemma FirstHit(states: Bdd, points: Points, bad: Points, n: nat)
      requires Valid() && bad <= mc.AllPoints() && Searched(states, points, bad, n) && points * mc.CurrentPoints(initial) != {}
      ensures ShortestTrail(n + 1, bad)
    {
      var length := InitialRound(bad, n);
      assert length >= n + 1;
    }

    lemma SearchGoesOn(states: Bdd, points: Points, next: Points, union: Bdd, bad: Points, rounds: nat)
      requires Valid() && bad <= mc.AllPoints() && Searched(states, points, bad, rounds)
      requires points * mc.CurrentPoints(initial) == {} && next == points + K().Pre(points)
      requires union == mc.Lift(next) && union != states
      ensures Searched(union, next, bad, rounds + 1) && |mc.AllPoints() - next| < |mc.AllPoints() - points|
    {
      NoTrailYet(bad, rounds);
      mc.Progress(points, next, mc.AllPoints());
    }

    lemma SearchRests(states: Bdd, points: Points, next: Points, bad: Points, rounds: nat)
      requires Valid() && bad <= mc.AllPoints() && Searched(states, points, bad, rounds)
      requires points * mc.CurrentPoints(initial) == {} && next == points + K().Pre(points) && mc.Lift(next) == states
      ensures NoTrail(bad)
    {
      mc.LiftInjective(next, points);
      NeverReached(bad, points, rounds);
    }

    method HitsInitial(states: Bdd, ghost points: Points, ghost bad: Points, ghost rounds: nat) returns (hit: bool)
      requires Valid() && Searched(states, points, bad, rounds)
      ensures hit <==> points * mc.CurrentPoints(initial) != {}
    {
      var intersection := Restrict(states, initial, points);
      LiftEmpty(points * mc.CurrentPoints(initial));
      hit := intersection != {};
    }

    method AddPredecessors(states: Bdd, ghost points: Points, ghost bad: Points, ghost rounds: nat) returns (union: Bdd)
      requires Valid() && Searched(states, points, bad, rounds)
      ensures union == mc.Lift(points + K().Pre(points))
    {
      var preImage := mc.EX(states, points);
      mc.LiftOr(points, K().Pre(points));
      union := states + preImage;
    }

    lemma NoTrailYet(bad: Points, n: nat)
      requires Valid() && bad <= mc.AllPoints()
      requires K().Iterate(Reach, Target(bad), n) * mc.CurrentPoints(initial) == {}
      ensures NoTrailBelow(n + 2, bad)
    {
      forall m: nat | m < n + 2 ensures !HasTrail(m, bad) {
        if p :| IsTrail(p, bad) && |p| == m { TrailStartsInRound(bad, n, p); }
      }
    }

    /** Once nothing is added any more, no trail of any length is left. */
    lemma NeverReached(bad: Points, points: Points, n: nat)
      requires Valid() && bad <= mc.AllPoints() && points == K().Iterate(Reach, Target(bad), n)
      requires points + K().Pre(points) == points && points * mc.CurrentPoints(initial) == {}
      ensures NoTrail(bad)
    {
      assert K().Rests(Reach, Target(bad), points);
      forall m: nat ensures !HasTrail(m, bad) {
        if p :| IsTrail(p, bad) && |p| == m {
          assert K().Reaches(p[0], Target(bad));
          ReachExact(K(), Target(bad), points, p[0]);
          assert p[0] in points * mc.CurrentPoints(initial);
        }
      }
    }
  }

  // ---------- Conditions on inputs ----------

  function ExampleTransition(): Bdd {
    set a | a in AllVectors(4) && HasWidth(a, 4) && !a[0] && !a[1] && a[2]
  }

  function ExampleInitial(): Bdd {
    set a | a in AllVectors(4) && HasWidth(a, 4) && !a[0] && a[1]
  }

  function ExampleBad(): Points {
    set x | x in AllVectors(2) && HasWidth(x, 2) && x[0]
  }

  /** One state variable s and one input i: s = 0 and i = 1 initially, and the only transitions leave
      s = 0, i = 0 for s = 1. */
  ghost predicate Example(e: BddEngine) {
    && e.mc.n == 2 && e.mc.isInput == [false, true] && e.mc.constraintConjuncts == []
    && e.mc.transitionConjuncts == [ExampleTransition()] && e.initial == [ExampleInitial()]
  }

  lemma ExampleConditions(e: BddEngine, x: Vector, y: Vector)
    requires Example(e) && |x| == |y| == 2
    ensures e.mc.InAll(x + y, e.mc.transitionConjuncts) <==> !x[0] && !x[1] && y[0]
    ensures x in e.mc.CurrentPoints(e.initial) <==> !x[0] && x[1]
    ensures x in e.mc.CurrentPoints(e.mc.constraintConjuncts)
  {
    Width(2, x);
    Width(4, x + y);
    Width(4, x + x);
    assert e.mc.transitionConjuncts[0] == ExampleTransition() && e.initial[0] == ExampleInitial();
  }

  /** No run reaches s = 1, but the search hits an initial state after one step back. */
  lemma InitialInputForgotten(e: BddEngine, bad: Points)
    requires e.Valid() && Example(e) && bad == ExampleBad()
    ensures e.HasTrail(2, bad) && e.NoRun(bad)
  {
    ExampleTrail(e, bad);
    forall xs ensures !e.IsRun(xs, bad) {
      if e.IsRun(xs, bad) { ExampleNoRun(e, bad, xs); }
    }
  }

  /** Such a system exists, and the search finds a violation in it. */
  method ForgottenInput() returns (e: BddEngine, found: bool, length: nat)
    ensures e.Valid() && Example(e) && found && e.NoRun(ExampleBad())
  {
    var mc := new BddModelChecker(2, [false, true], [ExampleTransition()], []);
    e := new BddEngine(mc, map[], [ExampleInitial()], map[]);
    var bad := ExampleBad();
    InitialOnCurrent(mc);
    InitialInputForgotten(e, bad);
    found, length := e.Backward(mc.Lift(e.Target(bad)), bad);
  }

  lemma InitialOnCurrent(mc: BddModelChecker)
    requires mc.n == 2
    ensures mc.OnCurrent(ExampleInitial())
  {
    forall a, a' | HasWidth(a, 4) && HasWidth(a', 4) && a[..2] == a'[..2]
      ensures a in ExampleInitial() <==> a' in ExampleInitial()
    {
      Width(4, a);
      Width(4, a');
      assert a[0] == a[..2][0] && a[1] == a[..2][1] && a'[0] == a'[..2][0] && a'[1] == a'[..2][1];
    }
  }

  lemma ExampleNoRun(e: BddEngine, bad: Points, xs: seq<Vector>)
    requires e.Valid() && Example(e) && bad == ExampleBad()
    ensures !e.IsRun(xs, bad)
  {
    if e.IsRun(xs, bad) {
      Width(2, xs[0]);
      ExampleConditions(e, xs[0], xs[0]);
      if |xs| > 1 {
        Width(2, xs[1]);
        assert e.mc.InAll(xs[0] + xs[0 + 1], e.mc.transitionConjuncts);
        ExampleConditions(e, xs[0], xs[1]);
      }
    }
  }

  lemma ExampleTrail(e: BddEngine, bad: Points)
    requires e.Valid() && Example(e) && bad == ExampleBad()
    ensures e.IsTrail([[false, true], [true, true]], bad)
  {
    var x, x', y: Vector := [false, true], [false, false], [true, true];
    Width(2, x);
    Width(2, y);
    ExampleConditions(e, x, y);
    ExampleConditions(e, x', y);
    ExampleConditions(e, y, y);
    ExampleEdge(e, x, x', y);
    ExampleTwoPoints(e, x, y, bad);
  }

  lemma ExampleEdge(e: BddEngine, x: Vector, x': Vector, y: Vector)
    requires e.Valid() && Example(e) && |x| == |x'| == |y| == 2 && x[0] == x'[0]
    requires e.mc.InAll(x' + y, e.mc.transitionConjuncts)
    ensures e.K().edge(x, y)
  {
    assert e.mc.EdgeVia(x, x', y);
  }

  lemma ExampleTwoPoints(e: BddEngine, x: Vector, y: Vector, bad: Points)
    requires e.Valid() && {x, y} <= e.mc.AllPoints() && e.K().edge(x, y)
    requires x in e.mc.CurrentPoints(e.initial) && y in e.Target(bad)
    ensures e.IsTrail([x, y], bad)
  {
    assert e.K().IsPath([x, y]);
  }
}
