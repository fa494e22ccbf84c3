/** Why the IC3 solver stops: the measure that blocking decreases, and the chain of frames
    that grows by at least one state per level. */
module Ic3Termination {
  import opened Sequences
  import opened Powers
  import opened Vectors
  import opened Ic3Clause
  import opened Ic3Netlist
  import opened Ic3Frames

  ghost function AllLits(n: nat): set<Lit> {
    set v: nat, p: bool | v < n :: Lit(v, p)
  }

  /** The clauses over n latches that no stored clause at the level or above subsumes. */
  ghost function OpenClauses(f: Frames, level: nat, n: nat): set<set<Lit>> {
    set c | c <= AllLits(n) && !Subsumed(f, level, c)
  }

  /** Open clauses summed over the levels from the given one up. */
  ghost function OpenFrom(f: Frames, level: nat, n: nat): nat
    decreases |f| - level
  {
    if level >= |f| then 0 else |OpenClauses(f, level, n)| + OpenFrom(f, level + 1, n)
  }

  lemma OpenShrinks(nl: Netlist, f: Frames, g: Frames, level: nat, n: nat)
    requires Grows(nl, f, g)
    ensures OpenClauses(g, level, n) <= OpenClauses(f, level, n)
    ensures |OpenClauses(g, level, n)| <= |OpenClauses(f, level, n)|
  {
    SubsetSize(OpenClauses(g, level, n), OpenClauses(f, level, n));
  }

  lemma {:induction false} OpenFromShrinks(nl: Netlist, f: Frames, g: Frames, level: nat, n: nat)
    requires Grows(nl, f, g)
    ensures OpenFrom(g, level, n) <= OpenFrom(f, level, n)
    decreases |f| - level
  {
    if level < |f| {
      OpenShrinks(nl, f, g, level, n);
      OpenFromShrinks(nl, f, g, level + 1, n);
    }
  }

  /** Blocking a clause that was open at some level strictly decreases the sum. */
  lemma {:induction false} OpenFromDrops(nl: Netlist, f: Frames, g: Frames, from: nat, level: nat, c: set<Lit>)
    requires Grows(nl, f, g) && from <= level < |f| && c <= AllLits(nl.Latches())
    requires !Subsumed(f, level, c) && Subsumed(g, level, c)
    ensures OpenFrom(g, from, nl.Latches()) < OpenFrom(f, from, nl.Latches())
    decreases level - from
  {
    var n := nl.Latches();
    OpenShrinks(nl, f, g, from, n);
    if from == level {
      ProperSubsetSize(OpenClauses(g, level, n), OpenClauses(f, level, n), c);
      OpenFromShrinks(nl, f, g, from + 1, n);
    } else {
      OpenFromDrops(nl, f, g, from + 1, level, c);
    }
  }

  lemma NegationInRange(cube: Cube, n: nat)
    requires InRange(cube, n)
    ensures LitSet(Negate(cube)) <= AllLits(n)
  {
    forall l | l in LitSet(Negate(cube)) ensures l in AllLits(n) {
      NegateMember(cube, l);
      assert l == Lit(l.latch, l.positive);
    }
  }

  // ---------- The chain of frames ----------

  /** After propagation without convergence every frame has a state the one below lacks. */
  ghost predicate StrictlyGrowing(nl: Netlist, f: Frames) {
    forall i: nat :: 1 <= i && i + 1 < |f| ==> StrictStep(nl, f, i)
  }

  ghost predicate StrictStep(nl: Netlist, f: Frames, i: nat) {
    exists s :: InFrame(nl, f, i + 1, s) && !InFrame(nl, f, i, s)
  }

  ghost function FrameStates(nl: Netlist, f: Frames, i: nat): set<Vector> {
    set s | s in AllVectors(nl.Latches()) && InFrame(nl, f, i, s)
  }

  lemma {:induction false} FrameSizes(nl: Netlist, f: Frames, i: nat)
    requires StrictlyGrowing(nl, f) && 1 <= i < |f|
    ensures |FrameStates(nl, f, i)| >= i - 1
  {
    if i > 1 {
      FrameSizes(nl, f, i - 1);
      assert StrictStep(nl, f, i - 1);
      var s :| InFrame(nl, f, i, s) && !InFrame(nl, f, i - 1, s);
      AllVectorsMember(nl.Latches(), s);
      ProperSubsetSize(FrameStates(nl, f, i - 1), FrameStates(nl, f, i), s);
    }
  }

  /** With n latches there are at most 2^n + 2 frames, F_0 included. */
  lemma FrameBound(nl: Netlist, f: Frames)
    requires StrictlyGrowing(nl, f)
    ensures |f| <= Pow2(nl.Latches()) + 2
  {
    if |f| >= 2 {
      var k := |f| - 1;
      FrameSizes(nl, f, k);
      AllVectorsSize(nl.Latches());
      SubsetSize(FrameStates(nl, f, k), AllVectors(nl.Latches()));
    }
  }

  /** A clause of F_i that some successor of F_i violates separates F_i from F_{i+1}. */
  lemma UnpushedSeparates(nl: Netlist, f: Frames, i: nat, fc: FrameClause, s: Vector, input: Vector)
    requires FrameInvariant(nl, f) && i + 1 < |f| && fc in f[i]
    requires InFrame(nl, f, i, s) && nl.IsInput(input) && !ClauseHolds(fc.clause, nl.Step(s, input))
    ensures StrictStep(nl, f, i)
  {
    var t := nl.Step(s, input);
    assert InFrame(nl, f, i + 1, t) && !InFrame(nl, f, i, t);
  }
}
