/** The transition system the IC3 solver runs on: latches with next-state signals, an
    initial-state predicate over the latches, and a property over latches and inputs. */
module Ic3Netlist {
  import opened Vectors
  import opened Ic3Clause

  /** A netlist literal: the solver treats literals that are syntactically constant separately. */
  datatype Signal = Const(value: bool) | Gate(fn: (Vector, Vector) -> bool) {
    predicate Eval(s: Vector, input: Vector) {
      match this
      case Const(b) => b
      case Gate(f) => f(s, input)
    }

    function Not(): (r: Signal)
      ensures r.Const? <==> Const?
      ensures forall s, input :: r.Eval(s, input) == !Eval(s, input)
    {
      match this
      case Const(b) => Const(!b)
      case Gate(f) => Gate((s, input) => !f(s, input))
    }

    predicate IsTrue() {
      Const? && value
    }

    predicate IsFalse() {
      Const? && !value
    }
  }

  datatype Netlist = Netlist(latchNext: seq<Signal>, inputs: nat, init: Vector -> bool, prop: Signal) {
    function Latches(): nat {
      |latchNext|
    }

    predicate IsState(s: Vector) {
      |s| == Latches()
    }

    predicate IsInput(input: Vector) {
      |input| == inputs
    }

    predicate IsInit(s: Vector) {
      IsState(s) && init(s)
    }

    function Step(s: Vector, input: Vector): (r: Vector)
      ensures IsState(r)
    {
      seq(|latchNext|, k requires 0 <= k < |latchNext| => latchNext[k].Eval(s, input))
    }

    /** The next-state signal of a latch literal. */
    function ToNext(l: Lit): (r: Signal)
      requires l.latch < Latches()
      ensures forall s, input :: r.Eval(s, input) == l.Holds(Step(s, input))
    {
      if l.positive then latchNext[l.latch] else latchNext[l.latch].Not()
    }

    // ---------- Runs and safety ----------

    ghost predicate IsRun(states: seq<Vector>, stimuli: seq<Vector>) {
      && |states| == |stimuli| > 0
      && IsInit(states[0])
      && (forall k :: 0 <= k < |stimuli| ==> IsInput(stimuli[k]))
      && (forall k :: 0 <= k < |states| - 1 ==> states[k + 1] == Step(states[k], stimuli[k]))
    }

    /** A run whose last state violates the property. */
    ghost predicate IsCounterexample(states: seq<Vector>, stimuli: seq<Vector>) {
      IsRun(states, stimuli) && !prop.Eval(states[|states| - 1], stimuli[|states| - 1])
    }

    ghost predicate HasCounterexample(length: nat) {
      exists states, stimuli :: |states| == length && IsCounterexample(states, stimuli)
    }

    ghost predicate Safe() {
      forall states, stimuli :: IsRun(states, stimuli) ==>
        prop.Eval(states[|states| - 1], stimuli[|states| - 1])
    }

    /** Some stimuli drive s into a property violation in exactly depth transitions. */
    ghost predicate ReachesBad(s: Vector, depth: nat)
      decreases depth
    {
      if depth == 0 then exists input :: IsInput(input) && !prop.Eval(s, input)
      else exists input :: IsInput(input) && ReachesBad(Step(s, input), depth - 1)
    }

    ghost predicate IsPath(states: seq<Vector>, stimuli: seq<Vector>) {
      && |states| == |stimuli| > 0
      && (forall k :: 0 <= k < |stimuli| ==> IsInput(stimuli[k]))
      && (forall k :: 0 <= k < |states| - 1 ==> states[k + 1] == Step(states[k], stimuli[k]))
    }

    lemma {:induction false} ReachesBadPath(s: Vector, depth: nat)
      returns (states: seq<Vector>, stimuli: seq<Vector>)
      requires ReachesBad(s, depth)
      ensures IsPath(states, stimuli) && |states| == depth + 1 && states[0] == s
      ensures !prop.Eval(states[depth], stimuli[depth])
      decreases depth
    {
      if depth == 0 {
        var input :| IsInput(input) && !prop.Eval(s, input);
        states, stimuli := [s], [input];
      } else {
        var input :| IsInput(input) && ReachesBad(Step(s, input), depth - 1);
        var rest, restIn := ReachesBadPath(Step(s, input), depth - 1);
        states, stimuli := [s] + rest, [input] + restIn;
        forall k | 0 <= k < |states| - 1 ensures states[k + 1] == Step(states[k], stimuli[k]) {
          if k > 0 {
            assert rest[k] == Step(rest[k - 1], restIn[k - 1]);
          }
        }
      }
    }

    /** An initial state that reaches a violation in depth transitions yields a genuine
        counterexample trace of depth + 1 states. */
    lemma BadFromInit(s: Vector, depth: nat)
      requires IsInit(s) && ReachesBad(s, depth)
      ensures HasCounterexample(depth + 1)
    {
      var states, stimuli := ReachesBadPath(s, depth);
      assert IsCounterexample(states, stimuli);
    }
  }
}
