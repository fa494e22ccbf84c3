/** Completeness thresholds cannot be lowered: counters that violate a property no sooner. */
module ThresholdAttained {
  import opened Powers
  import opened Vectors
  import opened Options
  import opened CompletenessThreshold

  // ---------- Counters ----------

  function Value(v: Vector): nat {
    if v == [] then 0 else (if v[0] then 1 else 0) + 2 * Value(v[1..])
  }

  function Bits(n: nat, k: nat): (r: Vector)
    requires k < Pow2(n)
    ensures |r| == n && Value(r) == k
  {
    if n == 0 then [] else [k % 2 == 1] + Bits(n - 1, k / 2)
  }

  lemma {:induction false} ValueBound(v: Vector)
    ensures Value(v) < Pow2(|v|)
  {
    if v != [] { ValueBound(v[1..]); }
  }

  /** The successor modulo m. */
  function Succ(m: nat, k: nat): nat {
    if k + 1 == m then 0 else k + 1
  }

  /** The value i steps after c. */
  function After(m: nat, c: nat, i: nat): nat {
    if i == 0 then c else Succ(m, After(m, c, i - 1))
  }

  /** The value that reaches 0 in i steps. */
  function Before(m: nat, i: nat): (r: nat)
    requires m > 0
    ensures r < m
  {
    if i == 0 then 0 else if Before(m, i - 1) == 0 then m - 1 else Before(m, i - 1) - 1
  }

  lemma {:induction false} AfterFirst(m: nat, c: nat, i: nat)
    ensures After(m, c, i + 1) == After(m, Succ(m, c), i)
  {
    if i > 0 { AfterFirst(m, c, i - 1); }
  }

  lemma {:induction false} BeforeReaches(m: nat, i: nat)
    requires m > 0
    ensures After(m, Before(m, i), i) == 0
  {
    if i > 0 {
      AfterFirst(m, Before(m, i), i - 1);
      BeforeReaches(m, i - 1);
    }
  }

  /** From 0 on the counter counts up until it wraps. */
  lemma {:induction false} CountsUp(m: nat, c: nat, from: nat, i: nat)
    requires After(m, c, from) == 0 && i < m
    ensures After(m, c, from + i) == i
  {
    if i > 0 { CountsUp(m, c, from, i - 1); }
  }

  predicate HasValue(x: Valuation, k: nat) {
    |x| == 1 && Value(x[0]) == k
  }

  predicate Increments(m: nat, x: Valuation, y: Valuation) {
    |x| == 1 && HasValue(y, Succ(m, Value(x[0])))
  }

  /** A register of n bits that starts at c and counts modulo 2^n. */
  function Counter(n: nat, c: nat): System {
    System([Variable(Some(n), true, false, false, true)], x => HasValue(x, c), x => true,
           (x, y) => Increments(Pow2(n), x, y))
  }

  lemma CounterTotal(n: nat, c: nat)
    ensures Counter(n, c).LeftTotal()
  {
    var sys := Counter(n, c);
    forall x | Sized(sys.vars, x) ensures sys.HasNext(x) {
      assert |x| == 1 && |x[0]| == n;
      var y := NextCount(n, x[0]);
      assert Sized(sys.vars, [y]) && sys.trans(x, [y]);
    }
  }

  lemma NextCount(n: nat, v: Vector) returns (w: Vector)
    requires |v| == n
    ensures |w| == n && Value(w) == Succ(Pow2(n), Value(v))
  {
    ValueBound(v);
    w := Bits(n, Succ(Pow2(n), Value(v)));
  }

  lemma CounterDeclared(n: nat, c: nat)
    ensures Counter(n, c).Declared() && CountedBits(Counter(n, c).vars) == n
  {
    var sys := Counter(n, c);
    OneRegister(sys.vars[0], n);
    forall x, y | sys.SameInit(x, y) ensures sys.init(x) == sys.init(y) { assert x == y; }
    forall w, x, y | sys.SameTrans(x, y) ensures sys.trans(w, x) == sys.trans(w, y) { assert x == y; }
  }

  lemma OneRegister(v: Variable, n: nat)
    requires v == Variable(Some(n), true, false, false, true)
    ensures v.SeenByInit() && v.SeenByTrans() && CountedBits([v]) == n
  {
    assert [v][1..] == [] && CountedBits([]) == 0;
  }

  lemma {:induction false} CounterRun(n: nat, c: nat, xs: seq<Valuation>, i: nat)
    requires Counter(n, c).IsRun(xs) && i < |xs|
    ensures HasValue(xs[i], After(Pow2(n), c, i))
  {
    if i > 0 {
      CounterRun(n, c, xs, i - 1);
      assert Counter(n, c).StepAt(xs, i - 1);
    }
  }

  lemma {:induction false} RunExists(n: nat, c: nat, length: nat) returns (xs: seq<Valuation>)
    requires c < Pow2(n) && length > 0
    ensures Counter(n, c).IsRun(xs) && |xs| == length
  {
    if length == 1 {
      xs := [[Bits(n, c)]];
    } else {
      xs := RunExists(n, c, length - 1);
      CounterTotal(n, c);
      var y := OneMore(Counter(n, c), xs);
      xs := xs + [y];
    }
  }

  // ---------- Properties of the same form ----------

  /** f with every atom replaced. */
  function WithAtom(f: Property, p: Atom): Property {
    match f
    case State(_) => State(p)
    case Next(g) => Next(WithAtom(g, p))
    case RangedAlways(lo, hi, _) => RangedAlways(lo, hi, p)
    case StrongAlways(lo, to, g) => StrongAlways(lo, to, WithAtom(g, p))
    case Always(_) => Always(p)
    case Other => Other
  }

  predicate Unbounded(f: Property) {
    match f
    case Next(g) => Unbounded(g)
    case StrongAlways(_, _, g) => Unbounded(g)
    case Always(_) => true
    case _ => false
  }

  /** No range is empty, and an unbounded always is looked at from one position only. */
  predicate Tight(f: Property) {
    match f
    case State(_) => true
    case Next(g) => Tight(g)
    case RangedAlways(lo, hi, _) => hi.Some? && lo <= hi.value
    case StrongAlways(lo, to, g) => lo <= to && Tight(g) && (Unbounded(g) ==> lo == to)
    case Always(_) => true
    case Other => false
  }

  /** The first position that the property looks at. */
  function FirstLook(f: Property): nat {
    match f
    case Next(g) => 1 + FirstLook(g)
    case RangedAlways(lo, _, _) => lo
    case StrongAlways(lo, _, g) => lo + FirstLook(g)
    case _ => 0
  }

  /** A violation takes a position from the first one on at which the atom fails. */
  lemma {:induction false} ViolationSeen(f: Property, p: Atom, xs: seq<Valuation>, i: nat) returns (j: nat)
    requires Violates(WithAtom(f, p), xs, i)
    ensures i + FirstLook(f) <= j < |xs| && !p(xs[j])
    decreases f
  {
    match f {
      case State(_) => j := i;
      case Next(g) => j := ViolationSeen(g, p, xs, i + 1);
      case RangedAlways(lo, hi, _) => j :| i + lo <= j < |xs| && (hi.Some? ==> j <= i + hi.value) && !p(xs[j]);
      case StrongAlways(lo, to, g) =>
        var k: nat :| i + lo <= k <= i + to && Violates(WithAtom(g, p), xs, k);
        j := ViolationSeen(g, p, xs, k);
      case Always(_) => j :| i <= j < |xs| && !p(xs[j]);
    }
  }

  /** The last position that a tight property looks at within the threshold. */
  lemma {:induction false} LastLookShows(f: Property, p: Atom, rd: Option<nat>, xs: seq<Valuation>, i: nat)
    requires Tight(f) && Threshold(f, rd).Some?
    requires i + Threshold(f, rd).value < |xs| && !p(xs[i + Threshold(f, rd).value])
    ensures Violates(WithAtom(f, p), xs, i)
    decreases f
  {
    match f {
      case State(_) =>
      case Next(g) => LastLookShows(g, p, rd, xs, i + 1);
      case RangedAlways(lo, hi, _) =>
      case StrongAlways(lo, to, g) =>
        LastLookShows(g, p, rd, xs, i + to);
        assert Violates(WithAtom(g, p), xs, i + to);
      case Always(_) =>
    }
  }

  /** A tight unbounded property is looked at for as long as the diameter from its first position on. */
  lemma {:induction false} UnboundedThreshold(f: Property, rd: nat)
    requires Tight(f) && Unbounded(f)
    ensures Threshold(f, Some(rd)) == Some(FirstLook(f) + rd)
  {
    match f {
      case Next(g) => UnboundedThreshold(g, rd);
      case StrongAlways(_, _, g) => UnboundedThreshold(g, rd);
      case Always(_) =>
    }
  }

  lemma {:induction false} MoreStates(t: nat)
    ensures t < Pow2(t)
  {
    if t > 0 { MoreStates(t - 1); }
  }

  /** g is f with other atoms; it fails in a left-total system, but on no run of fewer transitions than the threshold. */
  ghost predicate Needed(sys: System, f: Property, g: Property, rd: Option<nat>) {
    && sys.Declared() && sys.LeftTotal() && (exists p :: g == WithAtom(f, p)) && Threshold(f, rd).Some?
    && !HoldsForEver(sys, g) && forall bound: nat :: bound < Threshold(f, rd).value ==> HoldsUpTo(sys, g, bound)
  }

  /** No shorter run shows the violation. */
  lemma TooShort(f: Property, rd: Option<nat>, n: nat, c: nat, bad: nat, p: Atom, xs: seq<Valuation>)
    requires Threshold(f, rd).Some? && Counter(n, c).IsRun(xs) && |xs| <= Threshold(f, rd).value
    requires forall i: nat :: FirstLook(f) <= i < Threshold(f, rd).value ==> After(Pow2(n), c, i) != bad
    requires forall x :: !p(x) ==> HasValue(x, bad)
    ensures !Violates(WithAtom(f, p), xs, 0)
  {
    if Violates(WithAtom(f, p), xs, 0) {
      var j := ViolationSeen(f, p, xs, 0);
      CounterRun(n, c, xs, j);
    }
  }

  /** A long enough run does. */
  lemma LongEnough(f: Property, rd: Option<nat>, n: nat, c: nat, bad: nat, p: Atom)
    requires Tight(f) && Threshold(f, rd).Some? && c < Pow2(n)
    requires After(Pow2(n), c, Threshold(f, rd).value) == bad && forall x :: HasValue(x, bad) ==> !p(x)
    ensures !HoldsForEver(Counter(n, c), WithAtom(f, p))
  {
    var t := Threshold(f, rd).value;
    var long := RunExists(n, c, t + 1);
    CounterRun(n, c, long, t);
    LastLookShows(f, p, rd, long, 0);
  }

  /** A counter in which the atom fails at the position of the threshold and at none looked at before. */
  lemma CounterNeeds(f: Property, rd: Option<nat>, n: nat, c: nat, bad: nat, p: Atom)
    requires Tight(f) && Threshold(f, rd).Some? && c < Pow2(n)
    requires After(Pow2(n), c, Threshold(f, rd).value) == bad
    requires forall i: nat :: FirstLook(f) <= i < Threshold(f, rd).value ==> After(Pow2(n), c, i) != bad
    requires forall x :: p(x) <==> !HasValue(x, bad)
    ensures Needed(Counter(n, c), f, WithAtom(f, p), rd)
  {
    var sys, g := Counter(n, c), WithAtom(f, p);
    CounterTotal(n, c);
    CounterDeclared(n, c);
    LongEnough(f, rd, n, c, bad, p);
    forall bound: nat | bound < Threshold(f, rd).value ensures HoldsUpTo(sys, g, bound) {
      forall xs | sys.IsRun(xs) && |xs| == bound + 1 ensures !Violates(g, xs, 0) {
        TooShort(f, rd, n, c, bad, p, xs);
      }
    }
  }

  /** The thresholds are as low as they can be: for every property without empty ranges, and every number of bits,
      some property of the same form fails in some system of that many bits, on no run shorter than the threshold.
      A bounded property may take a larger system. */
  lemma ThresholdAttained(f: Property, n: nat) returns (sys: System, g: Property)
    requires Tight(f)
    ensures Needed(sys, f, g, Some(Pow2(n) - 1)) && (Unbounded(f) ==> CountedBits(sys.vars) == n)
  {
    var m := Pow2(n);
    if Unbounded(f) {
      var c, from := Before(m, FirstLook(f)), FirstLook(f);
      UnboundedThreshold(f, m - 1);
      BeforeReaches(m, from);
      forall i: nat | from <= i <= from + m - 1 ensures After(m, c, i) == i - from { CountsUp(m, c, from, i - from); }
      var p: Atom := x => !HasValue(x, m - 1);
      CounterNeeds(f, Some(m - 1), n, c, m - 1, p);
      CounterDeclared(n, c);
      sys, g := Counter(n, c), WithAtom(f, p);
    } else {
      var t := BoundedThreshold(f, Some(m - 1));
      MoreStates(t);
      forall i: nat | i <= t ensures After(Pow2(t), 0, i) == i { CountsUp(Pow2(t), 0, 0, i); }
      var p: Atom := x => !HasValue(x, t);
      CounterNeeds(f, Some(m - 1), t, 0, t, p);
      sys, g := Counter(t, 0), WithAtom(f, p);
    }
  }

  lemma {:induction false} BoundedThreshold(f: Property, rd: Option<nat>) returns (t: nat)
    requires Tight(f) && !Unbounded(f)
    ensures Threshold(f, rd) == Some(t)
  {
    match f {
      case State(_) => t := 0;
      case Next(g) => t := BoundedThreshold(g, rd); t := t + 1;
      case RangedAlways(_, hi, _) => t := hi.value;
      case StrongAlways(_, to, g) => t := BoundedThreshold(g, rd); t := t + to;
    }
  }
}
