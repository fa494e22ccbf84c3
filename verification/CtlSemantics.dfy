/** CTL over paths, and the fixpoint iterations that compute it. */
module CtlSemantics {
  import opened Vectors

  type Points = set<Vector>

  datatype Kripke = Kripke(points: Points, edge: (Vector, Vector) -> bool)
  {
    predicate HasSuccessor(x: Vector, f: Points) {
      exists y :: y in f && y in points && edge(x, y)
    }

    /** The points with a successor in f. */
    function Pre(f: Points): Points {
      set x | x in points && HasSuccessor(x, f)
    }

    function Not(f: Points): Points {
      points - f
    }

    ghost predicate IsPath(p: seq<Vector>) {
      && |p| > 0 && (forall i :: 0 <= i < |p| ==> p[i] in points)
      && forall i :: 0 <= i < |p| - 1 ==> PathStep(p, i)
    }

    predicate PathStep(p: seq<Vector>, i: nat)
      requires i < |p| - 1
    {
      edge(p[i], p[i + 1])
    }

    ghost predicate RunStep(sigma: nat -> Vector, n: nat) {
      sigma(n) in points && edge(sigma(n), sigma(n + 1))
    }

    ghost predicate IsRun(sigma: nat -> Vector) {
      forall n: nat :: RunStep(sigma, n)
    }

    // ---------- The meaning of the operators ----------

    /** Some path from x stays in f1 until it ends in f2. */
    ghost predicate Until(x: Vector, f1: Points, f2: Points) {
      exists p :: UntilPath(p, f1, f2) && p[0] == x
    }

    ghost predicate UntilPath(p: seq<Vector>, f1: Points, f2: Points) {
      IsPath(p) && p[|p| - 1] in f2 && forall i :: 0 <= i < |p| - 1 ==> p[i] in f1
    }

    ghost predicate Reaches(x: Vector, f: Points) {
      Until(x, points, f)
    }

    /** Some infinite run from x stays in f. */
    ghost predicate Stays(x: Vector, f: Points) {
      exists sigma: nat -> Vector :: StaysRun(sigma, x, f)
    }

    ghost predicate StaysRun(sigma: nat -> Vector, x: Vector, f: Points) {
      IsRun(sigma) && sigma(0) == x && forall n: nat :: sigma(n) in f
    }

    /** No run avoids f2 for ever, and none leaves f1 before f2: f1 until f2 on every maximal path. */
    ghost predicate AlwaysUntil(x: Vector, f1: Points, f2: Points) {
      !Stays(x, Not(f2)) && !Until(x, Not(f2), Not(f1) * Not(f2))
    }

    /** Every successor of x is in f. */
    ghost predicate AllSuccessors(x: Vector, f: Points) {
      forall y :: y in points && edge(x, y) ==> y in f
    }

    /** No infinite run from x avoids f. */
    ghost predicate Inevitable(x: Vector, f: Points) {
      !Stays(x, Not(f))
    }

    ghost predicate PathOutOf(p: seq<Vector>, x: Vector, f: Points) {
      IsPath(p) && p[0] == x && p[|p| - 1] !in f
    }

    /** The path ends outside f2 and has not met f1 before. */
    ghost predicate PathBreaking(p: seq<Vector>, x: Vector, f1: Points, f2: Points) {
      PathOutOf(p, x, f2) && forall i :: 0 <= i < |p| - 1 ==> p[i] !in f1
    }

    /** Every path from x ends in f: none ends outside. */
    ghost predicate OnAllPaths(x: Vector, f: Points) {
      !exists p :: PathOutOf(p, x, f)
    }

    /** f2 along every path from x up to and including the first f1. */
    ghost predicate Released(x: Vector, f1: Points, f2: Points) {
      !exists p :: PathBreaking(p, x, f1, f2)
    }

    /** Some infinite run from x stays in f2, or some path in f2 ends where f1 holds as well. */
    ghost predicate SomeRelease(x: Vector, f1: Points, f2: Points) {
      Stays(x, f2) || Until(x, f2, f1 * f2)
    }

    // ---------- The same as sets of points ----------

    ghost function ReachSet(f: Points): Points { set x | x in points && Reaches(x, f) }
    ghost function StaySet(f: Points): Points { set x | x in points && Stays(x, f) }
    ghost function UntilSet(f1: Points, f2: Points): Points { set x | x in points && Until(x, f1, f2) }
    ghost function AlwaysUntilSet(f1: Points, f2: Points): Points { set x | x in points && AlwaysUntil(x, f1, f2) }
    ghost function NextSet(f: Points): Points { set x | x in points && AllSuccessors(x, f) }
    ghost function InevitableSet(f: Points): Points { set x | x in points && Inevitable(x, f) }
    ghost function AlwaysSet(f: Points): Points { set x | x in points && OnAllPaths(x, f) }
    ghost function ReleaseSet(f1: Points, f2: Points): Points { set x | x in points && Released(x, f1, f2) }
    ghost function SomeReleaseSet(f1: Points, f2: Points): Points { set x | x in points && SomeRelease(x, f1, f2) }

    // ---------- One step of the iterations ----------

    function Tau(op: Operator, x: Points): Points {
      match op
      case Reach => x + Pre(x)
      case Stay => x * Pre(x)
      case ExistsUntil(f1, f2) => x + f2 + f1 * Pre(x)
      case ForallUntil(f1, f2) => x + f2 + f1 * Not(Pre(Not(x)))
    }

    function Iterate(op: Operator, x: Points, n: nat): Points {
      if n == 0 then x else Tau(op, Iterate(op, x, n - 1))
    }

    /** r is where the iteration from x comes to rest. */
    ghost predicate Rests(op: Operator, x: Points, r: Points) {
      Tau(op, r) == r && exists n :: r == Iterate(op, x, n)
    }
  }

  /** The functions whose fixpoint is computed. */
  datatype Operator = Reach | Stay | ExistsUntil(f1: Points, f2: Points) | ForallUntil(f1: Points, f2: Points)

  // ---------- Growing iterations ----------

  lemma {:induction false} IterateGrows(k: Kripke, op: Operator, x: Points, n: nat)
    requires !op.Stay?
    ensures x <= k.Iterate(op, x, n)
  {
    if n > 0 { IterateGrows(k, op, x, n - 1); }
  }

  lemma {:induction false} IterateShrinks(k: Kripke, x: Points, n: nat)
    ensures k.Iterate(Stay, x, n) <= x
  {
    if n > 0 { IterateShrinks(k, x, n - 1); }
  }

  // ---------- EF and EU ----------

  /** What the iteration adds has an until path. */
  lemma {:induction false} IterateUntil(k: Kripke, op: Operator, f1: Points, f2: Points, n: nat, x: Vector)
    requires f2 <= k.points && (op == ExistsUntil(f1, f2) || (op == Reach && f1 == k.points))
    requires x in k.Iterate(op, f2, n)
    ensures k.Until(x, f1, f2)
  {
    if x in f2 {
      PointPath(k, x, f1, f2);
    } else {
      var before := k.Iterate(op, f2, n - 1);
      if x in before {
        IterateUntil(k, op, f1, f2, n - 1, x);
      } else {
        assert x in f1 && k.HasSuccessor(x, before) && x in k.points;
        var y :| y in before && y in k.points && k.edge(x, y);
        IterateUntil(k, op, f1, f2, n - 1, y);
        var p :| k.UntilPath(p, f1, f2) && p[0] == y;
        UntilStep(k, x, p, f1, f2);
      }
    }
  }

  lemma PointPath(k: Kripke, x: Vector, f1: Points, f2: Points)
    requires x in k.points && x in f2
    ensures k.Until(x, f1, f2)
  {
    var p := [x];
    assert k.UntilPath(p, f1, f2) && p[0] == x;
  }

  lemma UntilStep(k: Kripke, x: Vector, p: seq<Vector>, f1: Points, f2: Points)
    requires k.UntilPath(p, f1, f2) && x in k.points && x in f1 && k.edge(x, p[0])
    ensures k.UntilPath([x] + p, f1, f2) && ([x] + p)[0] == x
    ensures k.Until(x, f1, f2)
  {
    var q := [x] + p;
    forall i | 0 <= i < |q| - 1 ensures k.PathStep(q, i) && q[i] in f1 {
      if i > 0 { assert k.PathStep(p, i - 1) && q[i] == p[i - 1] && q[i + 1] == p[i]; }
    }
    assert k.UntilPath(q, f1, f2);
  }

  /** A resting set contains the start of every until path. */
  lemma {:induction false} UntilInRest(k: Kripke, f1: Points, f2: Points, r: Points, p: seq<Vector>)
    requires f2 <= r && f1 * k.Pre(r) <= r && k.UntilPath(p, f1, f2)
    ensures p[0] in r
    decreases |p|
  {
    if |p| > 1 {
      var q := p[1..];
      assert k.UntilPath(q, f1, f2) by {
        forall i | 0 <= i < |q| - 1 ensures k.PathStep(q, i) && q[i] in f1 {
          assert k.PathStep(p, i + 1) && q[i] == p[i + 1] && q[i + 1] == p[i + 1 + 1];
        }
      }
      UntilInRest(k, f1, f2, r, q);
      assert k.PathStep(p, 0);
      assert k.HasSuccessor(p[0], r);
    }
  }

  lemma ExistsUntilExact(k: Kripke, f1: Points, f2: Points, r: Points, x: Vector)
    requires f2 <= k.points && k.Rests(ExistsUntil(f1, f2), f2, r)
    ensures x in r <==> k.Until(x, f1, f2)
  {
    var n :| r == k.Iterate(ExistsUntil(f1, f2), f2, n);
    if x in r { IterateUntil(k, ExistsUntil(f1, f2), f1, f2, n, x); }
    if k.Until(x, f1, f2) {
      var p :| k.UntilPath(p, f1, f2) && p[0] == x;
      UntilInRest(k, f1, f2, r, p);
    }
  }

  lemma ReachExact(k: Kripke, f: Points, r: Points, x: Vector)
    requires f <= k.points && k.Rests(Reach, f, r)
    ensures x in r <==> k.Reaches(x, f)
  {
    var n :| r == k.Iterate(Reach, f, n);
    if x in r { IterateUntil(k, Reach, k.points, f, n, x); }
    if k.Reaches(x, f) {
      var p :| k.UntilPath(p, k.points, f) && p[0] == x;
      IterateGrows(k, Reach, f, n);
      UntilInRest(k, k.points, f, r, p);
    }
  }

  /** n rounds reach back exactly n transitions. */
  lemma {:induction false} ReachesWithin(k: Kripke, f: Points, n: nat, x: Vector) returns (p: seq<Vector>)
    requires f <= k.points && x in k.Iterate(Reach, f, n)
    ensures k.UntilPath(p, k.points, f) && p[0] == x && |p| <= n + 1
  {
    if x in f {
      p := [x];
    } else if x in k.Iterate(Reach, f, n - 1) {
      p := ReachesWithin(k, f, n - 1, x);
    } else {
      assert k.HasSuccessor(x, k.Iterate(Reach, f, n - 1)) && x in k.points;
      var y :| y in k.Iterate(Reach, f, n - 1) && y in k.points && k.edge(x, y);
      p := ReachesWithin(k, f, n - 1, y);
      UntilStep(k, x, p, k.points, f);
      p := [x] + p;
    }
  }

  lemma {:induction false} WithinReaches(k: Kripke, f: Points, n: nat, p: seq<Vector>)
    requires f <= k.points && k.UntilPath(p, k.points, f) && |p| <= n + 1
    ensures p[0] in k.Iterate(Reach, f, n)
    decreases n
  {
    if |p| == 1 {
      IterateGrows(k, Reach, f, n);
    } else {
      PathTail(k, p, k.points, f);
      WithinReaches(k, f, n - 1, p[1..]);
      assert k.PathStep(p, 0);
      assert k.HasSuccessor(p[0], k.Iterate(Reach, f, n - 1));
    }
  }

  // ---------- EG ----------

  ghost predicate Closed(k: Kripke, s: Points) {
    s <= k.points && forall x {:trigger k.HasSuccessor(x, s)} :: x in s ==> k.HasSuccessor(x, s)
  }

  ghost function Successor(k: Kripke, s: Points, x: Vector): (y: Vector)
    requires Closed(k, s) && x in s
    ensures y in s && k.edge(x, y)
  {
    assert k.HasSuccessor(x, s);
    var y :| y in s && y in k.points && k.edge(x, y);
    y
  }

  ghost function Walk(k: Kripke, s: Points, x: Vector, n: nat): (y: Vector)
    requires Closed(k, s) && x in s
    ensures y in s
  {
    if n == 0 then x else Successor(k, s, Walk(k, s, x, n - 1))
  }

  lemma WalkStep(k: Kripke, s: Points, x: Vector, n: nat)
    requires Closed(k, s) && x in s
    ensures k.edge(Walk(k, s, x, n), Walk(k, s, x, n + 1)) && Walk(k, s, x, n) in k.points
  {
    assert Walk(k, s, x, n + 1) == Successor(k, s, Walk(k, s, x, n));
  }

  /** A set every point of which has a successor in it has infinite runs. */
  lemma ClosedStays(k: Kripke, s: Points, x: Vector)
    requires Closed(k, s) && x in s
    ensures k.Stays(x, s)
  {
    var sigma: nat -> Vector := (n: nat) => Walk(k, s, x, n);
    forall n: nat ensures k.RunStep(sigma, n) && sigma(n) in s {
      WalkStep(k, s, x, n);
    }
    assert k.StaysRun(sigma, x, s);
  }

  lemma StaysMonotone(k: Kripke, x: Vector, s: Points, f: Points)
    requires s <= f && k.Stays(x, s)
    ensures k.Stays(x, f)
  {
    var sigma :| k.StaysRun(sigma, x, s);
    assert k.StaysRun(sigma, x, f);
  }

  lemma {:induction false} RunInIterate(k: Kripke, f: Points, sigma: nat -> Vector, n: nat, m: nat)
    requires k.StaysRun(sigma, sigma(0), f)
    ensures sigma(m) in k.Iterate(Stay, f, n)
    decreases n
  {
    if n > 0 {
      RunInIterate(k, f, sigma, n - 1, m);
      RunInIterate(k, f, sigma, n - 1, m + 1);
      assert k.RunStep(sigma, m) && k.RunStep(sigma, m + 1);
      assert k.HasSuccessor(sigma(m), k.Iterate(Stay, f, n - 1));
    }
  }

  lemma StayExact(k: Kripke, f: Points, r: Points, x: Vector)
    requires f <= k.points && k.Rests(Stay, f, r)
    ensures x in r <==> k.Stays(x, f)
  {
    var n :| r == k.Iterate(Stay, f, n);
    IterateShrinks(k, f, n);
    if x in r {
      forall y | y in r ensures k.HasSuccessor(y, r) { assert y in k.Pre(r); }
      ClosedStays(k, r, x);
      StaysMonotone(k, x, r, f);
    }
    if k.Stays(x, f) {
      var sigma :| k.StaysRun(sigma, x, f);
      RunInIterate(k, f, sigma, n, 0);
    }
  }

  // ---------- AU ----------

  /** What the iteration adds has no path that avoids f2, nor one that leaves f1 first. */
  lemma {:induction false} IterateNotAvoiding(k: Kripke, f1: Points, f2: Points, n: nat, sigma: nat -> Vector, m: nat)
    requires k.StaysRun(sigma, sigma(0), k.Not(f2))
    ensures sigma(m) !in k.Iterate(ForallUntil(f1, f2), f2, n)
    decreases n
  {
    if n > 0 {
      IterateNotAvoiding(k, f1, f2, n - 1, sigma, m);
      IterateNotAvoiding(k, f1, f2, n - 1, sigma, m + 1);
      assert k.RunStep(sigma, m) && k.RunStep(sigma, m + 1);
      assert k.HasSuccessor(sigma(m), k.Not(k.Iterate(ForallUntil(f1, f2), f2, n - 1)));
    }
  }

  lemma {:induction false} IterateNotLeaving(k: Kripke, f1: Points, f2: Points, n: nat, p: seq<Vector>)
    requires k.UntilPath(p, k.Not(f2), k.Not(f1) * k.Not(f2))
    ensures p[0] !in k.Iterate(ForallUntil(f1, f2), f2, n)
    decreases n, |p|
  {
    if n > 0 {
      IterateNotLeaving(k, f1, f2, n - 1, p);
      if |p| > 1 {
        PathTail(k, p, k.Not(f2), k.Not(f1) * k.Not(f2));
        IterateNotLeaving(k, f1, f2, n - 1, p[1..]);
        assert k.PathStep(p, 0);
        assert k.HasSuccessor(p[0], k.Not(k.Iterate(ForallUntil(f1, f2), f2, n - 1)));
      }
    }
  }

  lemma PathTail(k: Kripke, p: seq<Vector>, f1: Points, f2: Points)
    requires k.UntilPath(p, f1, f2) && |p| > 1
    ensures k.UntilPath(p[1..], f1, f2)
  {
    var q := p[1..];
    forall i | 0 <= i < |q| - 1 ensures k.PathStep(q, i) && q[i] in f1 {
      assert k.PathStep(p, i + 1) && q[i] == p[i + 1] && q[i + 1] == p[i + 1 + 1];
    }
  }

  /** The points outside r from which no path outside f2 leaves f1 before f2. */
  ghost function Trapped(k: Kripke, f1: Points, f2: Points, r: Points): Points {
    set x | x in k.Not(r) && !k.Until(x, k.Not(f2), k.Not(f1) * k.Not(f2))
  }

  /** Outside a resting set one can avoid f2 for ever, or leave f1 before f2. */
  lemma TrappedStays(k: Kripke, f1: Points, f2: Points, r: Points, x: Vector)
    requires f2 <= r && f1 * k.Not(k.Pre(k.Not(r))) <= r && x in Trapped(k, f1, f2, r)
    ensures k.Stays(x, k.Not(f2))
  {
    var s := Trapped(k, f1, f2, r);
    forall y | y in s ensures k.HasSuccessor(y, s) {
      TrappedStep(k, f1, f2, r, y);
    }
    ClosedStays(k, s, x);
    StaysMonotone(k, x, s, k.Not(f2));
  }

  lemma TrappedStep(k: Kripke, f1: Points, f2: Points, r: Points, y: Vector)
    requires f2 <= r && f1 * k.Not(k.Pre(k.Not(r))) <= r && y in Trapped(k, f1, f2, r)
    ensures k.HasSuccessor(y, Trapped(k, f1, f2, r))
  {
    var avoid, leave := k.Not(f2), k.Not(f1) * k.Not(f2);
    if y in leave { PointPath(k, y, avoid, leave); }
    assert y in k.Pre(k.Not(r));
    var z :| z in k.Not(r) && z in k.points && k.edge(y, z);
    if k.Until(z, avoid, leave) {
      var p :| k.UntilPath(p, avoid, leave) && p[0] == z;
      UntilStep(k, y, p, avoid, leave);
    }
  }

  lemma ForallUntilExact(k: Kripke, f1: Points, f2: Points, r: Points, x: Vector)
    requires f2 <= k.points && k.Rests(ForallUntil(f1, f2), f2, r) && x in k.points
    ensures x in r <==> k.AlwaysUntil(x, f1, f2)
  {
    var n :| r == k.Iterate(ForallUntil(f1, f2), f2, n);
    if x in r {
      RestNotAvoided(k, f1, f2, n, x);
    } else if k.AlwaysUntil(x, f1, f2) {
      TrappedStays(k, f1, f2, r, x);
    }
  }

  lemma RestNotAvoided(k: Kripke, f1: Points, f2: Points, n: nat, x: Vector)
    requires x in k.Iterate(ForallUntil(f1, f2), f2, n)
    ensures k.AlwaysUntil(x, f1, f2)
  {
    if k.Stays(x, k.Not(f2)) {
      var sigma :| k.StaysRun(sigma, x, k.Not(f2));
      IterateNotAvoiding(k, f1, f2, n, sigma, 0);
    }
    if k.Until(x, k.Not(f2), k.Not(f1) * k.Not(f2)) {
      var p :| k.UntilPath(p, k.Not(f2), k.Not(f1) * k.Not(f2)) && p[0] == x;
      IterateNotLeaving(k, f1, f2, n, p);
    }
  }

  // ---------- Totality: the usual reading over infinite runs ----------

  ghost predicate Total(k: Kripke) {
    forall x {:trigger k.HasSuccessor(x, k.points)} :: x in k.points ==> k.HasSuccessor(x, k.points)
  }

  /** f1 until f2 along an infinite run. */
  ghost predicate RunUntil(sigma: nat -> Vector, f1: Points, f2: Points) {
    exists n: nat :: sigma(n) in f2 && forall i: nat :: i < n ==> sigma(i) in f1
  }

  /** A finite path that goes on for ever. */
  ghost function Extended(k: Kripke, p: seq<Vector>, n: nat): (y: Vector)
    requires Total(k) && k.IsPath(p)
    ensures y in k.points
  {
    if n < |p| then p[n] else Successor(k, k.points, Extended(k, p, n - 1))
  }

  lemma ExtendedStep(k: Kripke, p: seq<Vector>, n: nat)
    requires Total(k) && k.IsPath(p)
    ensures k.edge(Extended(k, p, n), Extended(k, p, n + 1))
  {
    if n + 1 < |p| { assert k.PathStep(p, n); }
  }

  lemma Extend(k: Kripke, p: seq<Vector>) returns (sigma: nat -> Vector)
    requires Total(k) && k.IsPath(p)
    ensures k.IsRun(sigma) && forall i :: 0 <= i < |p| ==> sigma(i) == p[i]
  {
    sigma := (n: nat) => Extended(k, p, n);
    forall n: nat ensures k.RunStep(sigma, n) && (n < |p| ==> sigma(n) == p[n]) {
      ExtendedStep(k, p, n);
    }
  }

  /** f1 until f2 on every infinite run from x. */
  ghost predicate UntilOnRuns(k: Kripke, x: Vector, f1: Points, f2: Points) {
    forall sigma: nat -> Vector :: k.IsRun(sigma) && sigma(0) == x ==> RunUntil(sigma, f1, f2)
  }

  /** Where every point has a successor, AU is until on all infinite runs. */
  lemma AlwaysUntilOnRuns(k: Kripke, f1: Points, f2: Points, x: Vector)
    requires Total(k) && x in k.points
    ensures k.AlwaysUntil(x, f1, f2) <==> UntilOnRuns(k, x, f1, f2)
  {
    if k.AlwaysUntil(x, f1, f2) {
      forall sigma: nat -> Vector | k.IsRun(sigma) && sigma(0) == x ensures RunUntil(sigma, f1, f2) {
        AlwaysUntilHolds(k, f1, f2, sigma);
      }
    } else if k.Stays(x, k.Not(f2)) {
      AvoidingRun(k, f1, f2, x);
    } else {
      var sigma := LeavingRun(k, f1, f2, x);
    }
  }

  lemma AvoidingRun(k: Kripke, f1: Points, f2: Points, x: Vector)
    requires k.Stays(x, k.Not(f2))
    ensures !UntilOnRuns(k, x, f1, f2)
  {
    var sigma :| k.StaysRun(sigma, x, k.Not(f2));
    assert !RunUntil(sigma, f1, f2);
  }

  lemma LeavingRun(k: Kripke, f1: Points, f2: Points, x: Vector) returns (sigma: nat -> Vector)
    requires Total(k) && k.Until(x, k.Not(f2), k.Not(f1) * k.Not(f2))
    ensures k.IsRun(sigma) && sigma(0) == x && !RunUntil(sigma, f1, f2)
  {
    var p :| k.UntilPath(p, k.Not(f2), k.Not(f1) * k.Not(f2)) && p[0] == x;
    sigma := Extend(k, p);
    var last: nat := |p| - 1;
    assert sigma(last) !in f1;
    forall n: nat | n <= last ensures sigma(n) !in f2 {
      assert sigma(n) == p[n];
    }
  }

  lemma AlwaysUntilHolds(k: Kripke, f1: Points, f2: Points, sigma: nat -> Vector)
    requires k.IsRun(sigma) && k.AlwaysUntil(sigma(0), f1, f2)
    ensures RunUntil(sigma, f1, f2)
  {
    SomewhereIn(k, f2, sigma);
    var n := FirstIn(sigma, f2);
    forall i: nat | i < n ensures sigma(i) in f1 {
      if sigma(i) !in f1 { PrefixLeaves(k, f1, f2, sigma, i); }
    }
  }

  lemma SomewhereIn(k: Kripke, f2: Points, sigma: nat -> Vector)
    requires k.IsRun(sigma) && !k.Stays(sigma(0), k.Not(f2))
    ensures exists n: nat :: sigma(n) in f2
  {
    assert !k.StaysRun(sigma, sigma(0), k.Not(f2));
    var n: nat :| sigma(n) !in k.Not(f2);
    assert k.RunStep(sigma, n);
  }

  lemma PrefixLeaves(k: Kripke, f1: Points, f2: Points, sigma: nat -> Vector, i: nat)
    requires k.IsRun(sigma) && sigma(i) !in f1 && forall j: nat :: j <= i ==> sigma(j) !in f2
    ensures k.Until(sigma(0), k.Not(f2), k.Not(f1) * k.Not(f2))
  {
    var p := seq(i + 1, j requires 0 <= j => sigma(j));
    forall j: nat | j <= i ensures p[j] in k.points && k.edge(sigma(j), sigma(j + 1)) {
      assert k.RunStep(sigma, j);
    }
    assert k.UntilPath(p, k.Not(f2), k.Not(f1) * k.Not(f2)) && p[0] == sigma(0);
  }

  lemma FirstIn(sigma: nat -> Vector, f: Points) returns (n: nat)
    requires exists m: nat :: sigma(m) in f
    ensures sigma(n) in f && forall i: nat :: i < n ==> sigma(i) !in f
  {
    var m: nat :| sigma(m) in f;
    n := 0;
    while sigma(n) !in f
      invariant n <= m && forall i: nat :: i < n ==> sigma(i) !in f
      decreases m - n
    {
      n := n + 1;
    }
  }

  // ---------- The dual operators ----------

  lemma AllSuccessorsDual(k: Kripke, x: Vector, f: Points)
    ensures k.AllSuccessors(x, f) <==> !k.HasSuccessor(x, k.Not(f))
  {
  }

  lemma OnAllPathsDual(k: Kripke, x: Vector, f: Points)
    ensures k.OnAllPaths(x, f) <==> !k.Reaches(x, k.Not(f))
  {
    if k.Reaches(x, k.Not(f)) {
      var p :| k.UntilPath(p, k.points, k.Not(f)) && p[0] == x;
      assert k.PathOutOf(p, x, f);
    }
    if !k.OnAllPaths(x, f) {
      var p :| k.PathOutOf(p, x, f);
      assert k.UntilPath(p, k.points, k.Not(f));
    }
  }

  lemma ReleasedDual(k: Kripke, x: Vector, f1: Points, f2: Points)
    ensures k.Released(x, f1, f2) <==> !k.Until(x, k.Not(f1), k.Not(f2))
  {
    if k.Until(x, k.Not(f1), k.Not(f2)) {
      var p :| k.UntilPath(p, k.Not(f1), k.Not(f2)) && p[0] == x;
      assert k.PathBreaking(p, x, f1, f2);
    }
    if !k.Released(x, f1, f2) {
      var p :| k.PathBreaking(p, x, f1, f2);
      assert k.UntilPath(p, k.Not(f1), k.Not(f2));
    }
  }

  lemma SomeReleaseDual(k: Kripke, x: Vector, f1: Points, f2: Points)
    requires f1 <= k.points && f2 <= k.points
    ensures k.SomeRelease(x, f1, f2) <==> !k.AlwaysUntil(x, k.Not(f1), k.Not(f2))
  {
    assert k.Not(k.Not(f1)) == f1 && k.Not(k.Not(f2)) == f2;
  }
}
