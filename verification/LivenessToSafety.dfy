/** The liveness-to-safety translation: the instrumentation of a transition system with a saved
    loop state and one live bit per property, and why G(looped -> live) on the instrumented
    system is GF p on the original one. */
module LivenessToSafety {
  import opened Sequences
  type State = seq<int>
  type Input = seq<int>

  /** init, invariant and transition constraints over state variables and inputs; states is the
      finite set of valuations of the state variables. */
  datatype System = System(states: set<State>,
                           init: (State, Input) -> bool,
                           invar: (State, Input) -> bool,
                           trans: (State, Input, State) -> bool)
  {
    ghost predicate IsStep(s: State, i: Input, s': State) {
      s in states && s' in states && invar(s, i) && trans(s, i, s')
    }

    /** An infinite run. */
    ghost predicate IsRun(sigma: nat -> State, iota: nat -> Input) {
      && init(sigma(0), iota(0))
      && forall n: nat :: IsStep(sigma(n), iota(n), sigma(n + 1))
    }
  }

  type Atom = (State, Input) -> bool

  ghost predicate InfinitelyOften(p: Atom, sigma: nat -> State, iota: nat -> Input) {
    forall n: nat :: HoldsFrom(p, sigma, iota, n)
  }

  ghost predicate HoldsFrom(p: Atom, sigma: nat -> State, iota: nat -> Input, n: nat) {
    exists m: nat :: m >= n && p(sigma(m), iota(m))
  }

  /** GF p on every infinite run. */
  ghost predicate Live(sys: System, p: Atom) {
    forall sigma: nat -> State, iota: nat -> Input :: sys.IsRun(sigma, iota) ==> InfinitelyOften(p, sigma, iota)
  }

  // ---------- The instrumented system ----------

  /** live(k) is the live bit of property k. */
  datatype XState = XState(s: State, loop: State, saved: bool, live: nat -> bool)

  /** save is a free input, looped a wire. */
  datatype XInput = XInput(i: Input, save: bool, looped: bool)

  datatype XSystem = XSystem(init: (XState, XInput) -> bool,
                             invar: (XState, XInput) -> bool,
                             trans: (XState, XInput, XState) -> bool)
  {
    /** A finite run: a constraint-respecting prefix of any length. */
    ghost predicate IsPrefix(sys: System, xs: seq<XState>, us: seq<XInput>) {
      && |xs| == |us| > 0
      && init(xs[0], us[0])
      && (forall n :: 0 <= n < |xs| ==> xs[n].s in sys.states && xs[n].loop in sys.states && invar(xs[n], us[n]))
      && (forall n :: 0 <= n < |xs| - 1 ==> trans(xs[n], us[n], xs[n + 1]))
    }

    /** G (looped -> live_k) on every run. */
    ghost predicate Safe(sys: System, k: nat) {
      forall xs: seq<XState>, us: seq<XInput> :: IsPrefix(sys, xs, us) ==> us[|us| - 1].looped ==> xs[|xs| - 1].live(k)
    }
  }

  /** One equality per state variable. */
  predicate StateIsLoop(s: State, loop: State) {
    |s| == |loop| && forall v :: 0 <= v < |s| ==> s[v] == loop[v]
  }

  predicate SavedTrans(x: XState, u: XInput, x': XState) {
    x'.saved == (x.saved || u.save)
  }

  predicate LoopTrans(x: XState, u: XInput, x': XState) {
    if u.save && !x.saved then StateIsLoop(x'.loop, x.s) else StateIsLoop(x'.loop, x.loop)
  }

  predicate LiveTrans(k: nat, p: Atom, x: XState, u: XInput, x': XState) {
    x'.live(k) == ((x.live(k) && !u.save) || p(x.s, u.i))
  }

  /** The constraints the translation arrives at, for the properties props with the given numbers. */
  ghost predicate IsInstrumentation(sys: System, props: map<nat, Atom>, xsys: XSystem) {
    && InitInstrumented(sys, props, xsys.init)
    && InvarInstrumented(sys, xsys.invar)
    && TransInstrumented(sys, props, xsys.trans)
  }

  ghost predicate InitInstrumented(sys: System, props: map<nat, Atom>, init: (XState, XInput) -> bool) {
    forall x, u :: init(x, u) <==> sys.init(x.s, u.i) && !x.saved && forall k :: k in props ==> !x.live(k)
  }

  ghost predicate InvarInstrumented(sys: System, invar: (XState, XInput) -> bool) {
    forall x, u :: invar(x, u) <==>
      sys.invar(x.s, u.i) && (u.save ==> !x.saved) && u.looped == (x.saved && StateIsLoop(x.s, x.loop))
  }

  ghost predicate TransInstrumented(sys: System, props: map<nat, Atom>, trans: (XState, XInput, XState) -> bool) {
    forall x, u, x' :: trans(x, u, x') <==>
      && sys.trans(x.s, u.i, x'.s) && SavedTrans(x, u, x') && LoopTrans(x, u, x')
      && forall k :: k in props ==> LiveTrans(k, props[k], x, u, x')
  }

  // ---------- From a violated safety property to a lasso ----------

  /** After n steps: the save point j, the copied state, and what live has recorded since. */
  ghost predicate SavedAt(xs: seq<XState>, us: seq<XInput>, k: nat, p: Atom, j: nat, n: nat)
    requires n < |xs| == |us|
  {
    && j < n && us[j].save && xs[n].loop == xs[j].s
    && (xs[n].live(k) <==> exists m :: j <= m < n && p(xs[m].s, us[m].i))
  }

  /** Once saved, the instrumentation remembers where it was saved. */
  lemma {:induction false} SavePoint(sys: System, props: map<nat, Atom>, xsys: XSystem, xs: seq<XState>, us: seq<XInput>, k: nat, n: nat)
    returns (j: nat)
    requires IsInstrumentation(sys, props, xsys) && xsys.IsPrefix(sys, xs, us) && k in props
    requires n < |xs| && xs[n].saved
    ensures SavedAt(xs, us, k, props[k], j, n)
  {
    assert n > 0 by { assert xsys.init(xs[0], us[0]); }
    var before := n - 1;
    assert xsys.trans(xs[before], us[before], xs[n]) && xsys.invar(xs[before], us[before]);
    assert LiveTrans(k, props[k], xs[before], us[before], xs[n]);
    if xs[before].saved {
      j := SavePoint(sys, props, xsys, xs, us, k, before);
      LiveRecorded(xs, us, k, props[k], j, before);
    } else {
      j := before;
    }
  }

  lemma LiveRecorded(xs: seq<XState>, us: seq<XInput>, k: nat, p: Atom, j: nat, before: nat)
    requires before + 1 < |xs| == |us| && SavedAt(xs, us, k, p, j, before) && !us[before].save
    requires LiveTrans(k, p, xs[before], us[before], xs[before + 1])
    ensures xs[before + 1].live(k) <==> exists m :: j <= m < before + 1 && p(xs[m].s, us[m].i)
  {
    if xs[before + 1].live(k) {
      if xs[before].live(k) {
        var m :| j <= m < before && p(xs[m].s, us[m].i);
      } else {
        assert p(xs[before].s, us[before].i);
      }
    }
  }

  /** Position n of the infinite unfolding of a stem of length j and a loop [j, t). */
  function Unfold(j: nat, t: nat, n: nat): (m: nat)
    requires j < t
    ensures m < t && (n < t ==> m == n) && (n >= j ==> m >= j)
  {
    if n == 0 then 0
    else
      var before := Unfold(j, t, n - 1);
      if before + 1 < t then before + 1 else j
  }

  ghost function LassoState(xs: seq<XState>, j: nat, t: nat): nat -> State
    requires j < t < |xs|
  {
    (n: nat) => xs[Unfold(j, t, n)].s
  }

  ghost function LassoInput(us: seq<XInput>, j: nat, t: nat): nat -> Input
    requires j < t < |us|
  {
    (n: nat) => us[Unfold(j, t, n)].i
  }

  lemma StepOfPrefix(sys: System, props: map<nat, Atom>, xsys: XSystem, xs: seq<XState>, us: seq<XInput>, m: nat)
    requires IsInstrumentation(sys, props, xsys) && xsys.IsPrefix(sys, xs, us) && m + 1 < |xs|
    ensures sys.IsStep(xs[m].s, us[m].i, xs[m + 1].s)
  {
    assert xsys.trans(xs[m], us[m], xs[m + 1]) && xsys.invar(xs[m], us[m]);
  }

  /** The unfolded lasso is a run when its two ends meet. */
  lemma LassoIsRun(sys: System, props: map<nat, Atom>, xsys: XSystem, xs: seq<XState>, us: seq<XInput>, j: nat, t: nat)
    requires IsInstrumentation(sys, props, xsys) && xsys.IsPrefix(sys, xs, us)
    requires j < t < |xs| && xs[j].s == xs[t].s
    ensures sys.IsRun(LassoState(xs, j, t), LassoInput(us, j, t))
  {
    var sigma, iota := LassoState(xs, j, t), LassoInput(us, j, t);
    forall n: nat ensures sys.IsStep(sigma(n), iota(n), sigma(n + 1)) {
      StepOfPrefix(sys, props, xsys, xs, us, Unfold(j, t, n));
    }
    assert xsys.init(xs[0], us[0]);
  }

  /** A violated safety property gives an infinite run of the original system that violates GF p. */
  lemma ViolationGivesLasso(sys: System, props: map<nat, Atom>, xsys: XSystem, xs: seq<XState>, us: seq<XInput>, k: nat)
    requires IsInstrumentation(sys, props, xsys) && xsys.IsPrefix(sys, xs, us) && k in props
    requires us[|us| - 1].looped && !xs[|xs| - 1].live(k)
    ensures !Live(sys, props[k])
  {
    var t: nat := |xs| - 1;
    assert xsys.invar(xs[t], us[t]);
    var j := SavePoint(sys, props, xsys, xs, us, k, t);
    LassoIsRun(sys, props, xsys, xs, us, j, t);
    var sigma, iota := LassoState(xs, j, t), LassoInput(us, j, t);
    forall m: nat | m >= j ensures !props[k](sigma(m), iota(m)) {
      assert j <= Unfold(j, t, m) < t;
    }
    assert !HoldsFrom(props[k], sigma, iota, j);
  }

  // ---------- From a run that violates GF p to a violated safety property ----------

  /** The live bits along a run that saves at j. */
  ghost function LiveBit(p: Atom, sigma: nat -> State, iota: nat -> Input, j: nat, n: nat): bool {
    if n == 0 then false
    else (LiveBit(p, sigma, iota, j, n - 1) && n - 1 != j) || p(sigma(n - 1), iota(n - 1))
  }

  lemma {:induction false} LiveStaysLow(p: Atom, sigma: nat -> State, iota: nat -> Input, j: nat, n: nat)
    requires j < n && forall m: nat :: m >= j ==> !p(sigma(m), iota(m))
    ensures !LiveBit(p, sigma, iota, j, n)
  {
    if n > j + 1 { LiveStaysLow(p, sigma, iota, j, n - 1); }
  }

  /** The instrumented state at position n of the run that saves at j. */
  ghost function Tracked(props: map<nat, Atom>, sigma: nat -> State, iota: nat -> Input, j: nat, n: nat): XState {
    XState(sigma(n), if n > j then sigma(j) else sigma(0), n > j,
           k => k in props && LiveBit(props[k], sigma, iota, j, n))
  }

  ghost function TrackedInput(sigma: nat -> State, iota: nat -> Input, j: nat, n: nat): XInput {
    XInput(iota(n), n == j, n > j && sigma(n) == sigma(j))
  }

  ghost function TrackedStates(props: map<nat, Atom>, sigma: nat -> State, iota: nat -> Input, j: nat, t: nat): (xs: seq<XState>)
    ensures |xs| == t + 1
    ensures forall n :: 0 <= n <= t ==> xs[n] == Tracked(props, sigma, iota, j, n)
  {
    seq(t + 1, n requires 0 <= n => Tracked(props, sigma, iota, j, n))
  }

  ghost function TrackedInputs(sigma: nat -> State, iota: nat -> Input, j: nat, t: nat): (us: seq<XInput>)
    ensures |us| == t + 1
    ensures forall n :: 0 <= n <= t ==> us[n] == TrackedInput(sigma, iota, j, n)
  {
    seq(t + 1, n requires 0 <= n => TrackedInput(sigma, iota, j, n))
  }

  lemma StepIsTracked(sys: System, props: map<nat, Atom>, xsys: XSystem, sigma: nat -> State, iota: nat -> Input, j: nat, n: nat)
    requires IsInstrumentation(sys, props, xsys) && sys.IsRun(sigma, iota)
    ensures sigma(n) in sys.states
    ensures xsys.invar(Tracked(props, sigma, iota, j, n), TrackedInput(sigma, iota, j, n))
    ensures xsys.trans(Tracked(props, sigma, iota, j, n), TrackedInput(sigma, iota, j, n), Tracked(props, sigma, iota, j, n + 1))
  {
    assert sys.IsStep(sigma(n), iota(n), sigma(n + 1));
    var x, u := Tracked(props, sigma, iota, j, n), TrackedInput(sigma, iota, j, n);
    assert StateIsLoop(x.s, x.loop) <==> x.s == x.loop;
  }

  lemma RunIsTracked(sys: System, props: map<nat, Atom>, xsys: XSystem, sigma: nat -> State, iota: nat -> Input, j: nat, t: nat)
    requires IsInstrumentation(sys, props, xsys) && sys.IsRun(sigma, iota)
    ensures xsys.IsPrefix(sys, TrackedStates(props, sigma, iota, j, t), TrackedInputs(sigma, iota, j, t))
  {
    var xs, us := TrackedStates(props, sigma, iota, j, t), TrackedInputs(sigma, iota, j, t);
    assert xsys.init(xs[0], us[0]);
    forall n | 0 <= n < |xs|
      ensures xs[n].s in sys.states && xs[n].loop in sys.states && xsys.invar(xs[n], us[n])
    {
      StepIsTracked(sys, props, xsys, sigma, iota, j, n);
      StepIsTracked(sys, props, xsys, sigma, iota, j, j);
      StepIsTracked(sys, props, xsys, sigma, iota, j, 0);
    }
    forall n | 0 <= n < |xs| - 1 ensures xsys.trans(xs[n], us[n], xs[n + 1]) {
      StepIsTracked(sys, props, xsys, sigma, iota, j, n);
    }
  }

  /** A run through finitely many states comes back to one it visits at or after any position. */
  lemma Returns(sigma: nat -> State, from: nat, states: set<State>) returns (j: nat, t: nat)
    requires forall n: nat :: n >= from ==> sigma(n) in states
    ensures from <= j < t && sigma(j) == sigma(t)
  {
    var i, k := Pigeonhole(seq(|states| + 1, n requires n >= 0 => sigma(from + n)), states);
    j, t := from + i, from + k;
  }

  /** A run that violates GF p is tracked to a violation of the safety property. */
  lemma LivenessViolationIsSeen(sys: System, props: map<nat, Atom>, xsys: XSystem, sigma: nat -> State, iota: nat -> Input, k: nat)
    requires IsInstrumentation(sys, props, xsys) && k in props
    requires sys.IsRun(sigma, iota) && !InfinitelyOften(props[k], sigma, iota)
    ensures !xsys.Safe(sys, k)
  {
    var from: nat :| !HoldsFrom(props[k], sigma, iota, from);
    forall n: nat | n >= from ensures sigma(n) in sys.states {
      StepIsTracked(sys, props, xsys, sigma, iota, 0, n);
    }
    var j, t := Returns(sigma, from, sys.states);
    RunIsTracked(sys, props, xsys, sigma, iota, j, t);
    forall m: nat | m >= j ensures !props[k](sigma(m), iota(m)) {}
    LiveStaysLow(props[k], sigma, iota, j, t);
    var xs, us := TrackedStates(props, sigma, iota, j, t), TrackedInputs(sigma, iota, j, t);
    assert us[|us| - 1].looped && !xs[|xs| - 1].live(k);
  }

  /** The translation is exact: property by property, liveness on all infinite runs of the original
      system is safety on all runs of the instrumented one. */
  lemma TranslationExact(sys: System, props: map<nat, Atom>, xsys: XSystem, k: nat)
    requires IsInstrumentation(sys, props, xsys) && k in props
    ensures Live(sys, props[k]) <==> xsys.Safe(sys, k)
  {
    if Live(sys, props[k]) {
      forall xs: seq<XState>, us: seq<XInput> | xsys.IsPrefix(sys, xs, us) && us[|us| - 1].looped ensures xs[|xs| - 1].live(k) {
        if !xs[|xs| - 1].live(k) { ViolationGivesLasso(sys, props, xsys, xs, us, k); }
      }
    }
    if xsys.Safe(sys, k) {
      forall sigma: nat -> State, iota: nat -> Input | sys.IsRun(sigma, iota)
        ensures InfinitelyOften(props[k], sigma, iota)
      {
        if !InfinitelyOften(props[k], sigma, iota) {
          LivenessViolationIsSeen(sys, props, xsys, sigma, iota, k);
        }
      }
    }
  }

  // ---------- The translation ----------

  /** Eventually(p) stands for always s_eventually p, RangedEventually for always eventually[from:to] p, and
      LoopedImpliesLive for the replacement property. */
  datatype Formula = Eventually(p: Atom) | RangedEventually(from: nat, to: nat, q: Atom)
    | LoopedImpliesLive(k: nat) | Other(text: string)

  datatype Property = Property(name: nat, disabled: bool, formula: Formula)
  {
    /** The test of the source, which does not look at the number of operands. */
    predicate Supported() {
      formula.Eventually? || formula.RangedEventually?
    }
  }

  /** NotUnary: an expression with three operands is converted to one with a single operand. */
  datatype Outcome = Unchanged | Translated | NoTranslation(property: nat) | NotUnary(property: nat)

  /** No enabled property has a form that the support test looks for. */
  ghost predicate NothingToTranslate(ps: seq<Property>) {
    forall i :: 0 <= i < |ps| ==> ps[i].disabled || ps[i].formula.LoopedImpliesLive? || ps[i].formula.Other?
  }

  predicate HaveSupportedProperty(ps: seq<Property>) {
    exists i :: 0 <= i < |ps| && !ps[i].disabled && ps[i].Supported()
  }

  /** The enabled liveness properties, by name. */
  function Targets(ps: seq<Property>): map<nat, Atom> {
    if ps == [] then map[]
    else
      var last := ps[|ps| - 1];
      var before := Targets(ps[..|ps| - 1]);
      if !last.disabled && last.formula.Eventually? then before[last.name := last.formula.p] else before
  }

  predicate DistinctNames(ps: seq<Property>) {
    forall i, j :: 0 <= i < j < |ps| ==> ps[i].name != ps[j].name
  }

  lemma {:induction false} TargetsDomain(ps: seq<Property>, k: nat)
    ensures k in Targets(ps) ==> exists i :: 0 <= i < |ps| && ps[i].name == k
  {
    if ps != [] {
      TargetsDomain(ps[..|ps| - 1], k);
      if k in Targets(ps[..|ps| - 1]) {
        var i :| 0 <= i < |ps| - 1 && ps[..|ps| - 1][i].name == k;
        assert ps[i].name == k;
      } else {
        assert k in Targets(ps) ==> ps[|ps| - 1].name == k;
      }
    }
  }

  lemma {:induction false} TargetsAt(ps: seq<Property>, i: nat)
    requires DistinctNames(ps) && i < |ps| && !ps[i].disabled && ps[i].formula.Eventually?
    ensures ps[i].name in Targets(ps) && Targets(ps)[ps[i].name] == ps[i].formula.p
  {
    if i < |ps| - 1 {
      assert ps[..|ps| - 1][i] == ps[i];
      TargetsAt(ps[..|ps| - 1], i);
    }
  }

  /** What became of the first n properties of a list. */
  ghost predicate Replaced(before: seq<Property>, after: seq<Property>, n: nat) {
    && |before| == |after|
    && forall i :: 0 <= i < |before| ==>
      after[i] == if i >= n || before[i].disabled then before[i] else before[i].(formula := LoopedImpliesLive(before[i].name))
  }

  /** The first n properties are disabled or of the form GF p. */
  ghost predicate Translatable(ps: seq<Property>, n: nat)
    requires n <= |ps|
  {
    forall i :: 0 <= i < n ==> ps[i].disabled || ps[i].formula.Eventually?
  }

  /** The first enabled property that is not of the form GF p. */
  ghost predicate FailsAt(ps: seq<Property>, i: nat, name: nat)
    requires i < |ps|
  {
    Translatable(ps, i) && !ps[i].disabled && !ps[i].formula.Eventually? && ps[i].name == name
  }

  ghost predicate SameVerdict(sys: System, before: Property, xsys: XSystem, after: Property) {
    && before.formula.Eventually? && after.formula.LoopedImpliesLive?
    && (Live(sys, before.formula.p) <==> xsys.Safe(sys, after.formula.k))
  }

  /** One more live bit in the initial-state and next-state constraints. */
  lemma LiveBitAdded(sys: System, done: map<nat, Atom>, k: nat, p: Atom,
                     init0: (XState, XInput) -> bool, init1: (XState, XInput) -> bool,
                     trans0: (XState, XInput, XState) -> bool, trans1: (XState, XInput, XState) -> bool)
    requires InitInstrumented(sys, done, init0) && TransInstrumented(sys, done, trans0) && k !in done
    requires forall x, u :: init1(x, u) <==> init0(x, u) && !x.live(k)
    requires forall x, u, x' :: trans1(x, u, x') <==> trans0(x, u, x') && LiveTrans(k, p, x, u, x')
    ensures InitInstrumented(sys, done[k := p], init1) && TransInstrumented(sys, done[k := p], trans1)
  {
    var props := done[k := p];
    forall x, u
      ensures init1(x, u) <==> sys.init(x.s, u.i) && !x.saved && forall l :: l in props ==> !x.live(l)
    {
      assert (forall l :: l in props ==> !x.live(l)) <==> (forall l :: l in done ==> !x.live(l)) && !x.live(k);
    }
    forall x, u, x'
      ensures trans1(x, u, x') <==>
              && sys.trans(x.s, u.i, x'.s) && SavedTrans(x, u, x') && LoopTrans(x, u, x')
              && forall l :: l in props ==> LiveTrans(l, props[l], x, u, x')
    {
      AllLive(done, k, p, props, x, u, x');
    }
  }

  lemma AllLive(done: map<nat, Atom>, k: nat, p: Atom, props: map<nat, Atom>, x: XState, u: XInput, x': XState)
    requires k !in done && props == done[k := p]
    ensures (forall l :: l in props ==> LiveTrans(l, props[l], x, u, x')) <==>
            (forall l :: l in done ==> LiveTrans(l, done[l], x, u, x')) && LiveTrans(k, p, x, u, x')
  {
    assert forall l :: l in done ==> l in props && props[l] == done[l];
    assert k in props && props[k] == p;
    assert forall l :: l in props ==> l in done || l == k;
  }

  /** Every enabled property, before and after. */
  lemma VerdictsPreserved(sys: System, before: seq<Property>, after: seq<Property>, xsys: XSystem)
    requires DistinctNames(before) && Replaced(before, after, |before|) && Translatable(before, |before|)
    requires IsInstrumentation(sys, Targets(before), xsys)
    ensures forall i :: 0 <= i < |after| && !after[i].disabled ==> SameVerdict(sys, before[i], xsys, after[i])
  {
    forall i | 0 <= i < |after| && !after[i].disabled
      ensures SameVerdict(sys, before[i], xsys, after[i])
    {
      TargetsAt(before, i);
      TranslationExact(sys, Targets(before), xsys, before[i].name);
    }
  }

  class Translator {
    const sys: System
    var init: (XState, XInput) -> bool
    var invar: (XState, XInput) -> bool
    var trans: (XState, XInput, XState) -> bool
    var properties: seq<Property>

    function Current(): XSystem
      reads this
    {
      XSystem(init, invar, trans)
    }

    /** Before the translation the instrumentation variables are unconstrained. */
    constructor (sys: System, properties: seq<Property>)
      ensures this.sys == sys && this.properties == properties
      ensures init == ((x: XState, u: XInput) => sys.init(x.s, u.i))
      ensures invar == ((x: XState, u: XInput) => sys.invar(x.s, u.i))
      ensures trans == ((x: XState, u: XInput, x': XState) => sys.trans(x.s, u.i, x'.s))
    {
      this.sys := sys;
      this.properties := properties;
      init := (x: XState, u: XInput) => sys.init(x.s, u.i);
      invar := (x: XState, u: XInput) => sys.invar(x.s, u.i);
      trans := (x: XState, u: XInput, x': XState) => sys.trans(x.s, u.i, x'.s);
    }

    ghost predicate Fresh()
      reads this
    {
      && (forall x, u :: init(x, u) <==> sys.init(x.s, u.i))
      && (forall x, u :: invar(x, u) <==> sys.invar(x.s, u.i))
      && (forall x, u, x' :: trans(x, u, x') <==> sys.trans(x.s, u.i, x'.s))
    }

    /** Adds the saved bit, the copy of the state and the looped wire. */
    method AddLoopDetection()
      requires Fresh()
      modifies `init, `invar, `trans
      ensures IsInstrumentation(sys, map[], Current())
    {
      var init0, invar0, trans0 := init, invar, trans;
      init := (x: XState, u: XInput) => init0(x, u) && !x.saved;
      invar := (x: XState, u: XInput) =>
        invar0(x, u) && (u.save ==> !x.saved) && u.looped == (x.saved && StateIsLoop(x.s, x.loop));
      trans := (x: XState, u: XInput, x': XState) => trans0(x, u, x') && SavedTrans(x, u, x') && LoopTrans(x, u, x');
    }

    ghost predicate Progress(before: seq<Property>, n: nat)
      reads this
    {
      && n <= |before| && DistinctNames(before)
      && Translatable(before, n) && Replaced(before, properties, n)
      && IsInstrumentation(sys, Targets(before[..n]), Current())
    }

    /** Translates every enabled property, or stops at the first one that is not of the form GF p. */
    method Translate() returns (outcome: Outcome)
      requires Fresh() && DistinctNames(properties)
      modifies this
      ensures outcome.Unchanged? <==> NothingToTranslate(old(properties))
      ensures outcome.Unchanged? ==> properties == old(properties) && Current() == old(Current())
      ensures outcome.Translated? <==>
              !NothingToTranslate(old(properties)) && Translatable(old(properties), |old(properties)|)
      ensures outcome.NoTranslation? ==>
              exists i :: 0 <= i < |old(properties)| && FailsAt(old(properties), i, outcome.property) &&
                (old(properties)[i].formula.LoopedImpliesLive? || old(properties)[i].formula.Other?)
      ensures outcome.NotUnary? ==>
              exists i :: 0 <= i < |old(properties)| && FailsAt(old(properties), i, outcome.property) &&
                old(properties)[i].formula.RangedEventually?
      ensures outcome.Translated? ==>
              Replaced(old(properties), properties, |properties|) && IsInstrumentation(sys, Targets(old(properties)), Current())
      ensures outcome.Translated? ==>
              forall i :: 0 <= i < |properties| && !properties[i].disabled ==>
              SameVerdict(sys, old(properties)[i], Current(), properties[i])
    {
      ghost var before := properties;
      assert HaveSupportedProperty(properties) <==> !NothingToTranslate(properties);
      if !HaveSupportedProperty(properties) { return Unchanged; }
      AddLoopDetection();
      var n := 0;
      while n < |properties|
        invariant 0 <= n <= |properties| == |before|
        invariant Progress(before, n)
      {
        if !properties[n].disabled {
          if !properties[n].Supported() {
            assert FailsAt(before, n, before[n].name);
            return NoTranslation(properties[n].name);
          }
          if properties[n].formula.RangedEventually? {
            assert FailsAt(before, n, before[n].name);
            return NotUnary(properties[n].name);
          }
        }
        TranslateProperty(before, n);
        n := n + 1;
      }
      assert before[..n] == before;
      VerdictsPreserved(sys, before, properties, Current());
      return Translated;
    }

    method TranslateProperty(ghost before: seq<Property>, n: nat)
      requires n < |properties| && Progress(before, n)
      requires properties[n].disabled || properties[n].formula.Eventually?
      modifies `init, `trans, `properties
      ensures Progress(before, n + 1)
    {
      assert before[..n + 1][..n] == before[..n];
      if !properties[n].disabled {
        TargetsDomain(before[..n], before[n].name);
        TranslateGFp(n, Targets(before[..n]));
      }
    }

    /** Adds the live bit of property n and replaces the property. */
    method TranslateGFp(n: nat, ghost done: map<nat, Atom>)
      requires n < |properties| && properties[n].formula.Eventually? && properties[n].name !in done
      requires IsInstrumentation(sys, done, Current())
      modifies `init, `trans, `properties
      ensures IsInstrumentation(sys, done[old(properties)[n].name := old(properties)[n].formula.p], Current())
      ensures properties == old(properties)[n := old(properties)[n].(formula := LoopedImpliesLive(old(properties)[n].name))]
    {
      var p, k := properties[n].formula.p, properties[n].name;
      var init0, trans0 := init, trans;
      init := (x: XState, u: XInput) => init0(x, u) && !x.live(k);
      trans := (x: XState, u: XInput, x': XState) => trans0(x, u, x') && LiveTrans(k, p, x, u, x');
      properties := properties[n := properties[n].(formula := LoopedImpliesLive(k))];
      LiveBitAdded(sys, done, k, p, init0, init, trans0, trans);
    }
  }
}
