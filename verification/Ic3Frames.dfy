/** The delta-encoded frames of the IC3 solver as a value, what they mean as sets of states,
    and how installing or pushing a clause changes that meaning. */
module Ic3Frames {
  import opened Vectors
  import opened Ic3Clause
  import opened Ic3Netlist

  type Frames = seq<seq<FrameClause>>

  ghost predicate ProperFrames(nl: Netlist, f: Frames) {
    forall j, fc :: 0 <= j < |f| && fc in f[j] ==> fc.Valid(nl.Latches())
  }

  /** s belongs to F_i: it satisfies every clause stored at level i or above, and the initial
      condition as well when i is 0. */
  ghost predicate InFrame(nl: Netlist, f: Frames, i: nat, s: Vector) {
    && nl.IsState(s)
    && (i == 0 ==> nl.init(s))
    && forall j, fc :: i <= j < |f| && fc in f[j] ==> ClauseHolds(fc.clause, s)
  }

  ghost predicate InitInside(nl: Netlist, f: Frames) {
    forall s :: nl.IsInit(s) ==> InFrame(nl, f, 0, s)
  }

  ghost predicate Consecution(nl: Netlist, f: Frames) {
    forall i: nat, s, input :: i + 1 < |f| && InFrame(nl, f, i, s) && nl.IsInput(input) ==>
      InFrame(nl, f, i + 1, nl.Step(s, input))
  }

  /** The frame invariants every step of the algorithm keeps. */
  ghost predicate FrameInvariant(nl: Netlist, f: Frames) {
    ProperFrames(nl, f) && InitInside(nl, f) && Consecution(nl, f)
  }

  /** cube is inductive relative to F_level. */
  ghost predicate RelativelyInductive(nl: Netlist, f: Frames, level: nat, cube: Cube) {
    forall s, input :: InFrame(nl, f, level, s) && !CubeHolds(cube, s) && nl.IsInput(input) ==>
      !CubeHolds(cube, nl.Step(s, input))
  }

  ghost predicate AvoidsInit(nl: Netlist, cube: Cube) {
    forall s :: nl.IsInit(s) ==> !CubeHolds(cube, s)
  }

  /** Some clause at the level or above consists of literals of c only. */
  ghost predicate Subsumed(f: Frames, level: nat, c: set<Lit>) {
    exists j, fc :: level <= j < |f| && fc in f[j] && fc.Lits() <= c
  }

  /** g is f after zero or more clause insertions. */
  ghost predicate Grows(nl: Netlist, f: Frames, g: Frames) {
    && |g| == |f|
    && (forall i: nat, s :: InFrame(nl, g, i, s) ==> InFrame(nl, f, i, s))
    && (forall j: nat, c :: Subsumed(f, j, c) ==> Subsumed(g, j, c))
  }

  lemma FrameMonotone(nl: Netlist, f: Frames, i: nat, j: nat, s: Vector)
    requires i <= j && InFrame(nl, f, i, s)
    ensures InFrame(nl, f, j, s)
  {
  }

  lemma ClauseMonotone(a: Clause, b: Clause, s: Vector)
    requires LitSet(a) <= LitSet(b) && ClauseHolds(a, s)
    ensures ClauseHolds(b, s)
  {
    var l :| l in a && l.Holds(s);
    assert l in LitSet(a);
  }

  lemma GrowsKeepsInduction(nl: Netlist, f: Frames, g: Frames, level: nat, cube: Cube)
    requires Grows(nl, f, g) && RelativelyInductive(nl, f, level, cube)
    ensures RelativelyInductive(nl, g, level, cube)
  {
  }

  lemma GrowsTransitive(nl: Netlist, f: Frames, g: Frames, h: Frames)
    requires Grows(nl, f, g) && Grows(nl, g, h)
    ensures Grows(nl, f, h)
  {
  }

  // ---------- Installing a clause ----------

  function RemoveSubsumed(cls: seq<FrameClause>, fc: FrameClause): (r: seq<FrameClause>)
    ensures forall c :: c in r <==> c in cls && !(fc.Lits() <= c.Lits())
  {
    if cls == [] then []
    else
      assert forall c :: c in cls <==> c == cls[0] || c in cls[1..];
      if fc.Lits() <= cls[0].Lits() then RemoveSubsumed(cls[1..], fc)
      else [cls[0]] + RemoveSubsumed(cls[1..], fc)
  }

  /** The frames after fc is stored at level and everything it subsumes below is dropped. */
  function Installed(f: Frames, level: nat, fc: FrameClause): (r: Frames)
    requires level < |f|
    ensures |r| == |f|
  {
    seq(|f|, j requires 0 <= j < |f| =>
      if j < level then RemoveSubsumed(f[j], fc)
      else if j == level then RemoveSubsumed(f[j], fc) + [fc]
      else f[j])
  }

  lemma InstalledMember(f: Frames, level: nat, fc: FrameClause, j: nat, c: FrameClause)
    requires level < |f| && j < |f|
    ensures c in Installed(f, level, fc)[j] <==>
      (j == level && c == fc) || (c in f[j] && !(j <= level && fc.Lits() <= c.Lits()))
  {
  }

  /** Dropping the subsumed clauses loses nothing: exactly the frames up to level gain fc. */
  lemma InstalledMeaning(nl: Netlist, f: Frames, level: nat, fc: FrameClause, i: nat, s: Vector)
    requires level < |f|
    ensures InFrame(nl, Installed(f, level, fc), i, s) <==>
      InFrame(nl, f, i, s) && (i <= level ==> ClauseHolds(fc.clause, s))
  {
    var g := Installed(f, level, fc);
    if InFrame(nl, g, i, s) {
      InstalledMember(f, level, fc, level, fc);
      forall j, c: FrameClause | i <= j < |f| && c in f[j] ensures ClauseHolds(c.clause, s) {
        InstalledMember(f, level, fc, j, c);
        if c !in g[j] {
          ClauseMonotone(fc.clause, c.clause, s);
        }
      }
    }
    if InFrame(nl, f, i, s) && (i <= level ==> ClauseHolds(fc.clause, s)) {
      forall j, c: FrameClause | i <= j < |g| && c in g[j] ensures ClauseHolds(c.clause, s) {
        InstalledMember(f, level, fc, j, c);
      }
    }
  }

  lemma InstalledSubsumes(f: Frames, level: nat, fc: FrameClause, j: nat, c: set<Lit>)
    requires level < |f|
    ensures Subsumed(f, j, c) ==> Subsumed(Installed(f, level, fc), j, c)
    ensures j <= level && fc.Lits() <= c ==> Subsumed(Installed(f, level, fc), j, c)
  {
    var g := Installed(f, level, fc);
    InstalledMember(f, level, fc, level, fc);
    if Subsumed(f, j, c) {
      var m, kept :| j <= m < |f| && kept in f[m] && kept.Lits() <= c;
      InstalledMember(f, level, fc, m, kept);
      if kept !in g[m] {
        assert fc in g[level] && fc.Lits() <= c;
      }
    }
  }

  lemma InstalledGrows(nl: Netlist, f: Frames, level: nat, fc: FrameClause)
    requires level < |f|
    ensures Grows(nl, f, Installed(f, level, fc))
  {
    var g := Installed(f, level, fc);
    forall i: nat, s | InFrame(nl, g, i, s) ensures InFrame(nl, f, i, s) {
      InstalledMeaning(nl, f, level, fc, i, s);
    }
    forall j: nat, c | Subsumed(f, j, c) ensures Subsumed(g, j, c) {
      InstalledSubsumes(f, level, fc, j, c);
    }
  }

  /** Blocking a cube that avoids the initial states and is inductive relative to the frame
      below keeps every frame invariant. */
  lemma InstalledKeepsInvariant(nl: Netlist, f: Frames, level: nat, fc: FrameClause, cube: Cube)
    requires FrameInvariant(nl, f) && level < |f| && fc.Valid(nl.Latches())
    requires InRange(cube, nl.Latches()) && fc.Lits() == LitSet(Negate(cube))
    requires AvoidsInit(nl, cube)
    requires level > 0 ==> RelativelyInductive(nl, f, level - 1, cube)
    ensures FrameInvariant(nl, Installed(f, level, fc))
  {
    var g := Installed(f, level, fc);
    forall j, c: FrameClause | 0 <= j < |g| && c in g[j] ensures c.Valid(nl.Latches()) {
      InstalledMember(f, level, fc, j, c);
    }
    forall s | nl.IsInit(s) ensures InFrame(nl, g, 0, s) {
      CubeClause(nl, fc, cube, s);
      InstalledMeaning(nl, f, level, fc, 0, s);
    }
    forall i: nat, s, input | i + 1 < |g| && InFrame(nl, g, i, s) && nl.IsInput(input)
      ensures InFrame(nl, g, i + 1, nl.Step(s, input))
    {
      var t := nl.Step(s, input);
      InstalledMeaning(nl, f, level, fc, i, s);
      InstalledMeaning(nl, f, level, fc, i + 1, t);
      CubeClause(nl, fc, cube, s);
      CubeClause(nl, fc, cube, t);
      if i + 1 <= level {
        FrameMonotone(nl, f, i, level - 1, s);
      }
    }
  }

  lemma CubeClause(nl: Netlist, fc: FrameClause, cube: Cube, s: Vector)
    requires nl.IsState(s) && InRange(cube, nl.Latches()) && fc.Lits() == LitSet(Negate(cube))
    ensures ClauseHolds(fc.clause, s) <==> !CubeHolds(cube, s)
  {
    NegateMeaning(cube, s);
    if ClauseHolds(fc.clause, s) {
      ClauseMonotone(fc.clause, Negate(cube), s);
    }
    if ClauseHolds(Negate(cube), s) {
      ClauseMonotone(Negate(cube), fc.clause, s);
    }
  }

  /** A state of F_level inside the cube shows that no clause there subsumes its negation. */
  lemma MemberNotBlocked(nl: Netlist, f: Frames, level: nat, cube: Cube, s: Vector)
    requires InFrame(nl, f, level, s) && InRange(cube, nl.Latches()) && CubeHolds(cube, s)
    ensures !Subsumed(f, level, LitSet(Negate(cube)))
  {
    if Subsumed(f, level, LitSet(Negate(cube))) {
      var j, fc :| level <= j < |f| && fc in f[j] && fc.Lits() <= LitSet(Negate(cube));
      ClauseMonotone(fc.clause, Negate(cube), s);
      NegateMeaning(cube, s);
    }
  }

  // ---------- Pushing a clause one level up ----------

  function RemoveFirst(cls: seq<FrameClause>, fc: FrameClause): (r: seq<FrameClause>)
    ensures multiset(r) == multiset(cls) - multiset{fc}
  {
    if cls == [] then []
    else
      assert cls == [cls[0]] + cls[1..];
      if cls[0] == fc then cls[1..]
      else [cls[0]] + RemoveFirst(cls[1..], fc)
  }

  lemma RemoveFirstMember(cls: seq<FrameClause>, fc: FrameClause, c: FrameClause)
    ensures c in RemoveFirst(cls, fc) ==> c in cls
    ensures c in cls && c != fc ==> c in RemoveFirst(cls, fc)
  {
    assert c in RemoveFirst(cls, fc) <==> c in multiset(RemoveFirst(cls, fc));
    assert c in cls <==> c in multiset(cls);
  }

  function Pushed(f: Frames, i: nat, fc: FrameClause): (r: Frames)
    requires i + 1 < |f|
    ensures |r| == |f|
  {
    f[i := RemoveFirst(f[i], fc)][i + 1 := f[i + 1] + [fc]]
  }

  lemma PushedMember(f: Frames, i: nat, fc: FrameClause, j: nat, c: FrameClause)
    requires i + 1 < |f| && j < |f|
    ensures c in Pushed(f, i, fc)[j] ==> c in f[j] || (j == i + 1 && c == fc)
    ensures c in f[j] ==> c in Pushed(f, i, fc)[j] || (j == i && c == fc)
    ensures fc in Pushed(f, i, fc)[i + 1]
  {
    RemoveFirstMember(f[i], fc, c);
  }

  ghost predicate HoldsInFrame(nl: Netlist, f: Frames, i: nat, c: Clause) {
    forall s :: InFrame(nl, f, i, s) ==> ClauseHolds(c, s)
  }

  /** Moving a clause of F_i from level i to i + 1 strengthens F_{i+1} by it and no other frame. */
  lemma PushedMeaning(nl: Netlist, f: Frames, i: nat, fc: FrameClause, m: nat, s: Vector)
    requires i + 1 < |f| && HoldsInFrame(nl, f, i, fc.clause)
    ensures InFrame(nl, Pushed(f, i, fc), m, s) <==>
      InFrame(nl, f, m, s) && (m == i + 1 ==> ClauseHolds(fc.clause, s))
  {
    var g := Pushed(f, i, fc);
    PushedMember(f, i, fc, i, fc);
    if InFrame(nl, g, m, s) {
      forall j, c: FrameClause | m <= j < |f| && c in f[j] ensures ClauseHolds(c.clause, s) {
        PushedMember(f, i, fc, j, c);
      }
    }
    if InFrame(nl, f, m, s) && (m == i + 1 ==> ClauseHolds(fc.clause, s)) {
      if m <= i { FrameMonotone(nl, f, m, i, s); }
      forall j, c: FrameClause | m <= j < |g| && c in g[j] ensures ClauseHolds(c.clause, s) {
        PushedMember(f, i, fc, j, c);
      }
    }
  }

  /** From f to g frame k may lose states; every other frame holds the same states. */
  ghost predicate OnlyShrinks(nl: Netlist, f: Frames, g: Frames, k: nat) {
    && |g| == |f|
    && (forall m: nat, s :: InFrame(nl, g, m, s) ==> InFrame(nl, f, m, s))
    && (forall m: nat, s :: m != k && InFrame(nl, f, m, s) ==> InFrame(nl, g, m, s))
  }

  lemma PushedOnlyShrinks(nl: Netlist, f: Frames, g: Frames, i: nat, k: nat, fc: FrameClause)
    requires k == i + 1 < |g| && OnlyShrinks(nl, f, g, k) && HoldsInFrame(nl, g, i, fc.clause)
    ensures OnlyShrinks(nl, f, Pushed(g, i, fc), k)
  {
    forall m: nat, s
      ensures InFrame(nl, Pushed(g, i, fc), m, s) <==> InFrame(nl, g, m, s) && (m == k ==> ClauseHolds(fc.clause, s))
    {
      PushedMeaning(nl, g, i, fc, m, s);
    }
  }

  /** The other frames push the same clauses, and their clauses still hold in them. */
  lemma OthersUnchanged(nl: Netlist, f: Frames, g: Frames, k: nat, i: nat, c: Clause)
    requires OnlyShrinks(nl, f, g, k) && i != k
    ensures PushHolds(nl, g, i, c) <==> PushHolds(nl, f, i, c)
    ensures HoldsInFrame(nl, g, i, c) <==> HoldsInFrame(nl, f, i, c)
  {
  }

  ghost predicate PushHolds(nl: Netlist, f: Frames, i: nat, c: Clause) {
    forall s, input :: InFrame(nl, f, i, s) && nl.IsInput(input) ==> ClauseHolds(c, nl.Step(s, input))
  }

  lemma PushedKeepsInvariant(nl: Netlist, f: Frames, i: nat, fc: FrameClause)
    requires FrameInvariant(nl, f) && i + 1 < |f| && fc.Valid(nl.Latches())
    requires HoldsInFrame(nl, f, i, fc.clause) && PushHolds(nl, f, i, fc.clause)
    ensures FrameInvariant(nl, Pushed(f, i, fc))
  {
    var g := Pushed(f, i, fc);
    forall j, c: FrameClause | 0 <= j < |g| && c in g[j] ensures c.Valid(nl.Latches()) {
      PushedMember(f, i, fc, j, c);
    }
    forall s | nl.IsInit(s) ensures InFrame(nl, g, 0, s) {
      PushedMeaning(nl, f, i, fc, 0, s);
    }
    forall m: nat, s, input | m + 1 < |g| && InFrame(nl, g, m, s) && nl.IsInput(input)
      ensures InFrame(nl, g, m + 1, nl.Step(s, input))
    {
      PushedMeaning(nl, f, i, fc, m, s);
      PushedMeaning(nl, f, i, fc, m + 1, nl.Step(s, input));
    }
  }

  // ---------- What convergence and refutation mean ----------

  lemma {:induction false} RunInsideFrame(nl: Netlist, f: Frames, i: nat, states: seq<Vector>, stimuli: seq<Vector>)
    requires FrameInvariant(nl, f) && 1 <= i && i + 1 < |f| && f[i] == []
    requires nl.IsRun(states, stimuli)
    ensures InFrame(nl, f, i, states[|states| - 1])
  {
    var last := |states| - 1;
    if last == 0 {
      FrameMonotone(nl, f, 0, i, states[0]);
    } else {
      var before, beforeIn := states[..last], stimuli[..last];
      assert nl.IsRun(before, beforeIn);
      RunInsideFrame(nl, f, i, before, beforeIn);
      assert states[last] == nl.Step(states[last - 1], stimuli[last - 1]);
      assert InFrame(nl, f, i + 1, states[last]);
      EmptyDelta(nl, f, i, states[last]);
    }
  }

  lemma EmptyDelta(nl: Netlist, f: Frames, i: nat, s: Vector)
    requires 1 <= i < |f| && f[i] == []
    ensures InFrame(nl, f, i + 1, s) ==> InFrame(nl, f, i, s)
  {
    if InFrame(nl, f, i + 1, s) {
      forall j, fc | i <= j < |f| && fc in f[j] ensures ClauseHolds(fc.clause, s) {
        assert j != i;
      }
    }
  }

  /** An empty delta below a frame inside the property proves the property on every run. */
  lemma ConvergenceProves(nl: Netlist, f: Frames, i: nat, k: nat)
    requires FrameInvariant(nl, f) && 1 <= i && i + 1 < |f| && f[i] == [] && k == |f| - 1
    requires forall s, input :: InFrame(nl, f, k, s) && nl.IsInput(input) ==> nl.prop.Eval(s, input)
    ensures nl.Safe()
  {
    forall states, stimuli | nl.IsRun(states, stimuli)
      ensures nl.prop.Eval(states[|states| - 1], stimuli[|states| - 1])
    {
      RunInsideFrame(nl, f, i, states, stimuli);
      FrameMonotone(nl, f, i, k, states[|states| - 1]);
    }
  }
}
