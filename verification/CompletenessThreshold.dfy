/** The completeness threshold: how far a property must be checked to hold for ever. */
module CompletenessThreshold {
  import opened Sequences
  import opened Powers
  import opened Vectors
  import opened PropertyStatus
  import opened Options

  // ---------- Systems over declared variables ----------

  /** bits is None when the type has no fixed width. inInit: mentioned in the initial-state constraint;
      hasNext: mentioned as a next-state symbol. */
  datatype Variable = Variable(bits: Option<nat>, isState: bool, isInput: bool, inInit: bool, hasNext: bool)
  {
    /** State variables, and inputs that are not unconstrained. */
    predicate Counted() {
      isState || (isInput && (inInit || hasNext))
    }

    /** The first state of a run can depend on the variable. */
    ghost predicate SeenByInit() {
      isState || (isInput && inInit)
    }

    /** A step can depend on the next value of the variable. */
    ghost predicate SeenByTrans() {
      isState || (isInput && hasNext)
    }

    ghost predicate Seen() {
      SeenByInit() || SeenByTrans()
    }

    function Width(): nat {
      if bits.Some? then bits.value else 0
    }
  }

  type Valuation = seq<Vector>

  /** The values of the counted variables, one after the other. */
  ghost function Projection(vars: seq<Variable>, x: Valuation): Vector
    requires |x| == |vars|
  {
    if vars == [] then []
    else (if vars[0].Seen() then x[0] else []) + Projection(vars[1..], x[1..])
  }

  ghost function CountedBits(vars: seq<Variable>): nat {
    if vars == [] then 0
    else (if vars[0].Seen() then vars[0].Width() else 0) + CountedBits(vars[1..])
  }

  predicate Sized(vars: seq<Variable>, x: Valuation) {
    |x| == |vars| && forall i :: 0 <= i < |vars| ==> |x[i]| == vars[i].Width()
  }

  lemma {:induction false} ProjectionWidth(vars: seq<Variable>, x: Valuation)
    requires Sized(vars, x)
    ensures |Projection(vars, x)| == CountedBits(vars)
  {
    if vars != [] { ProjectionWidth(vars[1..], x[1..]); }
  }

  datatype System = System(vars: seq<Variable>, init: Valuation -> bool, invar: Valuation -> bool,
                           trans: (Valuation, Valuation) -> bool)
  {
    /** Constraints depend on the variables that they mention. */
    ghost predicate Declared() {
      && (forall x, y :: SameInit(x, y) ==> init(x) == init(y))
      && forall w, x, y :: SameTrans(x, y) ==> trans(w, x) == trans(w, y)
    }

    ghost predicate SameInit(x: Valuation, y: Valuation) {
      Sized(vars, x) && Sized(vars, y) && forall i :: 0 <= i < |vars| && vars[i].SeenByInit() ==> x[i] == y[i]
    }

    ghost predicate SameTrans(x: Valuation, y: Valuation) {
      Sized(vars, x) && Sized(vars, y) && forall i :: 0 <= i < |vars| && vars[i].SeenByTrans() ==> x[i] == y[i]
    }

    /** Initial-state and next-state constraints see counted variables only. */
    ghost predicate Respects() {
      forall x, y :: Sized(vars, x) && Sized(vars, y) && Projection(vars, x) == Projection(vars, y) ==> SameEntry(x, y)
    }

    ghost predicate SameEntry(x: Valuation, y: Valuation) {
      init(x) == init(y) && forall w :: trans(w, x) == trans(w, y)
    }

    ghost predicate IsRun(xs: seq<Valuation>) {
      && |xs| > 0 && init(xs[0])
      && (forall i :: 0 <= i < |xs| ==> Sized(vars, xs[i]) && invar(xs[i]))
      && forall i :: 0 <= i < |xs| - 1 ==> StepAt(xs, i)
    }

    ghost predicate StepAt(xs: seq<Valuation>, i: nat)
      requires i < |xs| - 1
    {
      trans(xs[i], xs[i + 1])
    }

    ghost predicate HasNext(x: Valuation) {
      exists y :: Sized(vars, y) && invar(y) && trans(x, y)
    }

    /** No admissible valuation is a dead end. */
    ghost predicate LeftTotal() {
      forall x {:trigger HasNext(x)} :: Sized(vars, x) && invar(x) ==> HasNext(x)
    }
  }

  /** Valuations with the same counted values have the same values of all variables that are seen. */
  lemma {:induction false} SameProjection(vars: seq<Variable>, x: Valuation, y: Valuation)
    requires Sized(vars, x) && Sized(vars, y) && Projection(vars, x) == Projection(vars, y)
    ensures forall i :: 0 <= i < |vars| && vars[i].Seen() ==> x[i] == y[i]
  {
    if vars != [] {
      var w := if vars[0].Seen() then vars[0].Width() else 0;
      assert Projection(vars, x)[w..] == Projection(vars[1..], x[1..]);
      assert Projection(vars, y)[w..] == Projection(vars[1..], y[1..]);
      SameProjection(vars[1..], x[1..], y[1..]);
      if vars[0].Seen() {
        assert x[0] == Projection(vars, x)[..w] == Projection(vars, y)[..w] == y[0];
      }
      forall i | 0 < i < |vars| && vars[i].Seen() ensures x[i] == y[i] {
        assert vars[1..][i - 1].Seen() && x[1..][i - 1] == x[i] && y[1..][i - 1] == y[i];
      }
    }
  }

  lemma DeclaredRespects(sys: System)
    requires sys.Declared()
    ensures sys.Respects()
  {
    forall x, y | Sized(sys.vars, x) && Sized(sys.vars, y) && Projection(sys.vars, x) == Projection(sys.vars, y)
      ensures sys.SameEntry(x, y)
    {
      SameProjection(sys.vars, x, y);
      assert sys.SameInit(x, y) && sys.SameTrans(x, y);
    }
  }

  // ---------- The recurrence diameter ----------

  const MAX_BITS: nat := 8

  ghost predicate AllSized(vars: seq<Variable>) {
    forall i :: 0 <= i < |vars| && vars[i].Seen() ==> vars[i].bits.Some?
  }

  /** 2^n - 1 for n bits of variables that are seen, if their number is known and at most 8. */
  ghost function Diameter(vars: seq<Variable>): Option<nat> {
    if AllSized(vars) && CountedBits(vars) <= 8 then Some(Pow2(CountedBits(vars)) - 1) else None
  }

  /** One less than the number of values of those variables, if there are at most 256. */
  lemma DiameterCounts(vars: seq<Variable>, states: nat)
    requires states == |AllVectors(CountedBits(vars))|
    ensures Diameter(vars) == if AllSized(vars) && states <= 256 then Some(states - 1) else None
  {
    AllVectorsSize(CountedBits(vars));
    FewStates(CountedBits(vars), states);
  }

  lemma FewStates(n: nat, states: nat)
    requires states == Pow2(n)
    ensures states <= 256 <==> n <= 8
  {
    assert Pow2(8) == 256 by { assert Pow2(3) == 8 && Pow2(5) == 32; }
    if n <= 8 { Pow2Monotone(n, 8); } else { Pow2Monotone(9, n); }
  }

  lemma NoDiameter(vars: seq<Variable>, i: nat)
    requires i < |vars| && vars[i].Seen() && vars[i].bits.None?
    ensures Diameter(vars) == None
  {
  }

  lemma OneMoreSized(vars: seq<Variable>, i: nat)
    requires i < |vars| && AllSized(vars[..i]) && (vars[i].Seen() ==> vars[i].bits.Some?)
    ensures AllSized(vars[..i + 1])
    ensures CountedBits(vars[i..]) == (if vars[i].Seen() then vars[i].Width() else 0) + CountedBits(vars[i + 1..])
  {
    assert vars[i..][0] == vars[i] && vars[i..][1..] == vars[i + 1..] && vars[..i + 1] == vars[..i] + [vars[i]];
  }

  method RecurrenceDiameter(vars: seq<Variable>) returns (rd: Option<nat>)
    ensures rd == Diameter(vars)
  {
    var total := 0;
    var i := 0;
    while i < |vars|
      invariant 0 <= i <= |vars| && total + CountedBits(vars[i..]) == CountedBits(vars)
      invariant AllSized(vars[..i])
    {
      if vars[i].Counted() {
        if vars[i].bits.None? {
          NoDiameter(vars, i);
          return None;
        }
        total := total + vars[i].bits.value;
      }
      OneMoreSized(vars, i);
      i := i + 1;
    }
    assert vars[..i] == vars && vars[i..] == [];
    if total > MAX_BITS { return None; }
    return Some(Pow2(total) - 1);
  }

  // ---------- Cutting runs short ----------

  /** A run that meets the same counted values twice can skip what lies between. */
  lemma Cut(sys: System, xs: seq<Valuation>, i: nat, j: nat)
    requires sys.Respects() && sys.IsRun(xs) && i < j < |xs|
    requires Projection(sys.vars, xs[i]) == Projection(sys.vars, xs[j])
    ensures sys.IsRun(xs[..i] + xs[j..])
  {
    var ys := xs[..i] + xs[j..];
    assert sys.SameEntry(xs[i], xs[j]);
    assert forall k :: 0 <= k < |ys| ==> ys[k] == if k < i then xs[k] else xs[k + (j - i)];
    forall k | 0 <= k < |ys| - 1 ensures sys.StepAt(ys, k) {
      assert sys.StepAt(xs, if k < i then k else k + (j - i));
    }
  }

  /** Positions from up to the end: few steps suffice to get from the one to the other. */
  lemma {:induction false} Shorten(sys: System, xs: seq<Valuation>, from: nat) returns (ys: seq<Valuation>)
    requires sys.Respects() && sys.IsRun(xs) && from < |xs|
    ensures sys.IsRun(ys) && from < |ys| <= from + Pow2(CountedBits(sys.vars)) && ys[|ys| - 1] == xs[|xs| - 1]
    decreases |xs|
  {
    var n := CountedBits(sys.vars);
    if |xs| <= from + Pow2(n) {
      ys := xs;
    } else {
      var i, j := Repetition(sys, xs, from);
      Cut(sys, xs, i, j);
      ys := Shorten(sys, xs[..i] + xs[j..], from);
    }
  }

  lemma Projections(sys: System, xs: seq<Valuation>, from: nat) returns (tail: seq<Vector>)
    requires sys.IsRun(xs) && from <= |xs|
    ensures |tail| == |xs| - from
    ensures forall k :: 0 <= k < |tail| ==>
      tail[k] == Projection(sys.vars, xs[from + k]) && tail[k] in AllVectors(CountedBits(sys.vars))
  {
    tail := seq(|xs| - from, k requires 0 <= k < |xs| - from => Projection(sys.vars, xs[from + k]));
    forall k | 0 <= k < |tail| ensures tail[k] in AllVectors(CountedBits(sys.vars)) {
      ProjectionWidth(sys.vars, xs[from + k]);
      AllVectorsMember(CountedBits(sys.vars), tail[k]);
    }
  }

  /** With more positions than projections, two positions have the same one. */
  lemma Repetition(sys: System, xs: seq<Valuation>, from: nat) returns (i: nat, j: nat)
    requires sys.IsRun(xs) && |xs| > from + Pow2(CountedBits(sys.vars))
    ensures from <= i < j < |xs| && Projection(sys.vars, xs[i]) == Projection(sys.vars, xs[j])
  {
    var tail := Projections(sys, xs, from);
    AllVectorsSize(CountedBits(sys.vars));
    i, j := Pigeonhole(tail, AllVectors(CountedBits(sys.vars)));
    i, j := from + i, from + j;
  }

  lemma PrefixIsRun(sys: System, xs: seq<Valuation>, n: nat)
    requires sys.IsRun(xs) && 0 < n <= |xs|
    ensures sys.IsRun(xs[..n])
  {
    var ys := xs[..n];
    forall k | 0 <= k < |ys| - 1 ensures sys.StepAt(ys, k) {
      assert sys.StepAt(xs, k);
    }
  }

  /** In a left-total system every run has a next valuation. */
  lemma OneMore(sys: System, xs: seq<Valuation>) returns (y: Valuation)
    requires sys.LeftTotal() && sys.IsRun(xs)
    ensures sys.IsRun(xs + [y])
  {
    var last := xs[|xs| - 1];
    assert sys.HasNext(last);
    y :| Sized(sys.vars, y) && sys.invar(y) && sys.trans(last, y);
    var more := xs + [y];
    forall k | 0 <= k < |more| - 1 ensures sys.StepAt(more, k) {
      if k < |xs| - 1 { assert sys.StepAt(xs, k); }
    }
  }

  // ---------- Properties ----------

  type Atom = Valuation -> bool

  datatype Property =
    | State(p: Atom)
    | Next(f: Property)
    | RangedAlways(lo: nat, hi: Option<nat>, p: Atom)
    | StrongAlways(lo: nat, to: int, f: Property)
    | Always(p: Atom)
    | Other

  /** A finite run shows from position i on that the property fails. */
  ghost predicate Violates(f: Property, xs: seq<Valuation>, i: nat)
    decreases f
  {
    match f
    case State(p) => i < |xs| && !p(xs[i])
    case Next(g) => Violates(g, xs, i + 1)
    case RangedAlways(lo, hi, p) =>
      exists j :: i + lo <= j < |xs| && (hi.Some? ==> j <= i + hi.value) && !p(xs[j])
    case StrongAlways(lo, to, g) => exists j: nat :: i + lo <= j <= i + to && Violates(g, xs, j)
    case Always(p) => exists j :: i <= j < |xs| && !p(xs[j])
    case Other => false
  }

  /** The number of transitions after which the property need not be looked at any further. */
  function Threshold(f: Property, rd: Option<nat>): Option<nat> {
    match f
    case State(_) => Some(0)
    case Next(g) => var ct := Threshold(g, rd); if ct.Some? then Some(ct.value + 1) else None
    case RangedAlways(_, hi, _) => hi
    case StrongAlways(_, to, g) =>
      if to < 0 then None
      else var ct := Threshold(g, rd); if ct.Some? then Some(ct.value + to) else None
    case Always(_) => rd
    case Other => None
  }

  /** The recurrence diameter of a system, as the thresholds use it. */
  ghost predicate IsDiameter(sys: System, rd: Option<nat>) {
    rd.Some? ==> rd.value == Pow2(CountedBits(sys.vars)) - 1
  }

  lemma UpTo(sys: System, xs: seq<Valuation>, j: nat) returns (ys: seq<Valuation>)
    requires sys.IsRun(xs) && j < |xs|
    ensures sys.IsRun(ys) && |ys| == j + 1 && ys[j] == xs[j]
  {
    PrefixIsRun(sys, xs, j + 1);
    ys := xs[..j + 1];
  }

  /** A violation shows within the threshold. */
  lemma {:induction false} EarlyViolation(sys: System, rd: Option<nat>, f: Property, xs: seq<Valuation>, i: nat)
    returns (ys: seq<Valuation>)
    requires sys.Respects() && IsDiameter(sys, rd) && Threshold(f, rd).Some?
    requires sys.IsRun(xs) && Violates(f, xs, i)
    ensures sys.IsRun(ys) && Violates(f, ys, i) && |ys| <= i + Threshold(f, rd).value + 1
    decreases f
  {
    match f {
      case State(p) =>
        ys := UpTo(sys, xs, i);
      case Next(g) =>
        ys := EarlyViolation(sys, rd, g, xs, i + 1);
      case RangedAlways(lo, hi, p) =>
        var j :| i + lo <= j < |xs| && j <= i + hi.value && !p(xs[j]);
        ys := UpTo(sys, xs, j);
      case StrongAlways(lo, to, g) =>
        var j: nat :| i + lo <= j <= i + to && Violates(g, xs, j);
        ys := EarlyViolation(sys, rd, g, xs, j);
      case Always(p) =>
        ys := EarlyFailure(sys, p, xs, i);
    }
  }

  lemma EarlyFailure(sys: System, p: Atom, xs: seq<Valuation>, i: nat) returns (ys: seq<Valuation>)
    requires sys.Respects() && sys.IsRun(xs) && Violates(Always(p), xs, i)
    ensures sys.IsRun(ys) && Violates(Always(p), ys, i) && |ys| <= i + Pow2(CountedBits(sys.vars))
  {
    var j :| i <= j < |xs| && !p(xs[j]);
    PrefixIsRun(sys, xs, j + 1);
    ys := Shorten(sys, xs[..j + 1], i);
    assert !p(ys[|ys| - 1]);
  }

  /** A run can be continued to any length, and what it violates stays violated. */
  lemma {:induction false} Continue(sys: System, f: Property, xs: seq<Valuation>, length: nat) returns (ys: seq<Valuation>)
    requires sys.LeftTotal() && sys.IsRun(xs) && Violates(f, xs, 0) && |xs| <= length
    ensures sys.IsRun(ys) && Violates(f, ys, 0) && |ys| == length
    decreases length - |xs|
  {
    if |xs| == length {
      ys := xs;
    } else {
      var y := OneMore(sys, xs);
      ViolationStays(f, xs, y, 0);
      ys := Continue(sys, f, xs + [y], length);
    }
  }

  lemma {:induction false} ViolationStays(f: Property, xs: seq<Valuation>, y: Valuation, i: nat)
    requires Violates(f, xs, i)
    ensures Violates(f, xs + [y], i)
    decreases f
  {
    var more := xs + [y];
    match f {
      case State(p) =>
      case Next(g) => ViolationStays(g, xs, y, i + 1);
      case RangedAlways(lo, hi, p) =>
        var j :| i + lo <= j < |xs| && (hi.Some? ==> j <= i + hi.value) && !p(xs[j]);
        assert more[j] == xs[j];
      case StrongAlways(lo, to, g) =>
        var j: nat :| i + lo <= j <= i + to && Violates(g, xs, j);
        ViolationStays(g, xs, y, j);
      case Always(p) =>
        var j :| i <= j < |xs| && !p(xs[j]);
        assert more[j] == xs[j];
    }
  }

  /** No run of exactly bound transitions violates the property. */
  ghost predicate HoldsUpTo(sys: System, f: Property, bound: nat) {
    forall xs :: sys.IsRun(xs) && |xs| == bound + 1 ==> !Violates(f, xs, 0)
  }

  ghost predicate HoldsForEver(sys: System, f: Property) {
    forall xs :: sys.IsRun(xs) ==> !Violates(f, xs, 0)
  }

  /** The threshold is one: what holds on all runs up to it holds on all runs. */
  lemma ThresholdSuffices(sys: System, rd: Option<nat>, f: Property, bound: nat)
    requires sys.Respects() && sys.LeftTotal() && IsDiameter(sys, rd)
    requires Threshold(f, rd).Some? && bound >= Threshold(f, rd).value && HoldsUpTo(sys, f, bound)
    ensures HoldsForEver(sys, f)
  {
    forall xs | sys.IsRun(xs) ensures !Violates(f, xs, 0) {
      if Violates(f, xs, 0) {
        var ys := EarlyViolation(sys, rd, f, xs, 0);
        var zs := Continue(sys, f, ys, bound + 1);
      }
    }
  }

  // ---------- The engine ----------

  datatype Checked = Checked(f: Property, status: Status)

  /** The largest threshold of any property. */
  method MaxThreshold(ps: seq<Checked>, rd: Option<nat>) returns (max: Option<nat>)
    ensures max.Some? <==> exists i :: 0 <= i < |ps| && Threshold(ps[i].f, rd).Some?
    ensures max.Some? ==> exists i :: 0 <= i < |ps| && Threshold(ps[i].f, rd) == max
    ensures max.Some? ==>
              forall i :: 0 <= i < |ps| && Threshold(ps[i].f, rd).Some? ==> Threshold(ps[i].f, rd).value <= max.value
  {
    max := None;
    var n := 0;
    while n < |ps|
      invariant 0 <= n <= |ps|
      invariant max.Some? <==> exists i :: 0 <= i < n && Threshold(ps[i].f, rd).Some?
      invariant max.Some? ==> exists i :: 0 <= i < n && Threshold(ps[i].f, rd) == max
      invariant max.Some? ==>
                  forall i :: 0 <= i < n && Threshold(ps[i].f, rd).Some? ==> Threshold(ps[i].f, rd).value <= max.value
    {
      var ct := Threshold(ps[n].f, rd);
      if ct.Some? {
        var before := if max.Some? then max.value else 0;
        max := Some(if ct.value > before then ct.value else before);
      }
      n := n + 1;
    }
  }

  /** What bounded model checking reports is right about the bound. */
  ghost predicate SoundFor(sys: System, ps: seq<Checked>, bound: nat) {
    forall i :: 0 <= i < |ps| && ps[i].status.ProvedWithBound? ==> HoldsUpTo(sys, ps[i].f, bound)
  }

  /** Bounded proofs become proofs when the threshold is not below the bound, and are taken back otherwise. */
  function Upgraded(p: Checked, rd: Option<nat>, bound: nat): Status {
    if !p.status.ProvedWithBound? then p.status
    else if Threshold(p.f, rd).Some? && Threshold(p.f, rd).value >= bound then Proved
    else Unknown
  }

  /** The upgrade after bounded model checking with the largest threshold as the bound. */
  method Upgrade(sys: System, ps: array<Checked>, rd: Option<nat>, bound: nat)
    requires sys.Respects() && sys.LeftTotal() && IsDiameter(sys, rd) && SoundFor(sys, ps[..], bound)
    requires forall i :: 0 <= i < ps.Length && Threshold(ps[i].f, rd).Some? ==> Threshold(ps[i].f, rd).value <= bound
    modifies ps
    ensures forall i :: 0 <= i < ps.Length ==> ps[i].f == old(ps[i]).f && ps[i].status == Upgraded(old(ps[i]), rd, bound)
    ensures forall i :: 0 <= i < ps.Length && ps[i].status.Proved? && old(ps[i]).status.ProvedWithBound? ==>
              HoldsForEver(sys, ps[i].f)
  {
    var n := 0;
    while n < ps.Length
      invariant 0 <= n <= ps.Length
      invariant forall i :: 0 <= i < n ==> ps[i].f == old(ps[i]).f && ps[i].status == Upgraded(old(ps[i]), rd, bound)
      invariant forall i :: n <= i < ps.Length ==> ps[i] == old(ps[i])
    {
      if ps[n].status.ProvedWithBound? {
        var ct := Threshold(ps[n].f, rd);
        if ct.Some? && ct.value >= bound {
          ps[n] := ps[n].(status := Proved);
        } else {
          ps[n] := ps[n].(status := Unknown);
        }
      }
      n := n + 1;
    }
    forall i | 0 <= i < ps.Length && ps[i].status.Proved? && old(ps[i]).status.ProvedWithBound?
      ensures HoldsForEver(sys, ps[i].f)
    {
      ThresholdSuffices(sys, rd, ps[i].f, bound);
    }
  }

  function WithStatuses(ps: seq<Checked>, statuses: seq<Status>): (r: seq<Checked>)
    requires |statuses| == |ps|
    ensures |r| == |ps|
  {
    seq(|ps|, i requires 0 <= i < |ps| => Checked(ps[i].f, statuses[i]))
  }

  /** Bounded model checking reports a status per property for every bound, and its bounded proofs are right. */
  ghost predicate SoundBmc(sys: System, ps: seq<Checked>, bmc: nat -> seq<Status>) {
    forall bound :: |bmc(bound)| == |ps| && SoundFor(sys, WithStatuses(ps, bmc(bound)), bound)
  }

  /** bound is the largest threshold of the properties. */
  ghost predicate LargestThreshold(ps: seq<Checked>, rd: Option<nat>, bound: nat) {
    && (exists i :: 0 <= i < |ps| && Threshold(ps[i].f, rd) == Some(bound))
    && forall i :: 0 <= i < |ps| && Threshold(ps[i].f, rd).Some? ==> Threshold(ps[i].f, rd).value <= bound
  }

  /** What the engine makes of a property. */
  ghost predicate Concluded(sys: System, before: Checked, reported: Status, after: Checked, rd: Option<nat>, bound: nat) {
    && after.f == before.f
    && after.status == (if !reported.ProvedWithBound? then reported
                        else if Threshold(before.f, rd) == Some(bound) then Proved else Unknown)
    && (reported.ProvedWithBound? && after.status == Proved ==> HoldsForEver(sys, after.f))
  }

  lemma AllConcluded(sys: System, fs: seq<Checked>, gs: seq<Checked>, hs: seq<Checked>, statuses: seq<Status>,
                     rd: Option<nat>, bound: nat)
    requires |statuses| == |fs| == |hs| && gs == WithStatuses(fs, statuses)
    requires forall i :: 0 <= i < |fs| && Threshold(fs[i].f, rd).Some? ==> Threshold(fs[i].f, rd).value <= bound
    requires forall i :: 0 <= i < |hs| ==> hs[i].f == gs[i].f && hs[i].status == Upgraded(gs[i], rd, bound)
    requires forall i :: 0 <= i < |hs| && hs[i].status.Proved? && gs[i].status.ProvedWithBound? ==> HoldsForEver(sys, hs[i].f)
    ensures forall i :: 0 <= i < |fs| ==> Concluded(sys, fs[i], statuses[i], hs[i], rd, bound)
  {
    forall i | 0 <= i < |fs| ensures Concluded(sys, fs[i], statuses[i], hs[i], rd, bound) {
      assert gs[i] == Checked(fs[i].f, statuses[i]);
    }
  }

  /** The engine: it gives up exactly when no property has a threshold; otherwise bounded proofs with the
      largest threshold become proofs, and those hold on all runs. */
  method CheckByThreshold(sys: System, ps: array<Checked>, bmc: nat -> seq<Status>) returns (bound: Option<nat>)
    requires sys.Declared() && sys.LeftTotal() && SoundBmc(sys, ps[..], bmc)
    modifies ps
    ensures bound == None <==> forall i :: 0 <= i < ps.Length ==> Threshold(old(ps[i]).f, Diameter(sys.vars)) == None
    ensures bound == None ==> ps[..] == old(ps[..])
    ensures bound.Some? ==>
              && LargestThreshold(old(ps[..]), Diameter(sys.vars), bound.value)
              && forall i :: 0 <= i < ps.Length ==>
                Concluded(sys, old(ps[i]), bmc(bound.value)[i], ps[i], Diameter(sys.vars), bound.value)
  {
    var rd := RecurrenceDiameter(sys.vars);
    DeclaredRespects(sys);
    bound := MaxThreshold(ps[..], rd);
    if bound.None? { return; }
    var k := bound.value;
    ghost var fs := ps[..];
    Report(ps, bmc(k));
    ghost var gs := ps[..];
    Upgrade(sys, ps, rd, k);
    AllConcluded(sys, fs, gs, ps[..], bmc(k), rd, k);
  }

  method Report(ps: array<Checked>, statuses: seq<Status>)
    requires |statuses| == ps.Length
    modifies ps
    ensures ps[..] == WithStatuses(old(ps[..]), statuses)
  {
    forall i | 0 <= i < ps.Length {
      ps[i] := ps[i].(status := statuses[i]);
    }
  }
}
