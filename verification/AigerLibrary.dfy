/** The AIGER library object: checking that a network is defined and acyclic. */
module AigerLibrary {
  import opened AigerNetwork
  import opened AigerTraversal
  import opened AigerCycles

  datatype CheckError = NoError | Undefined(variable: nat) | CyclicDefinition(gate: nat)

  predicate InputTyped(types: seq<VarType>, lit: nat, i: nat, maxvar: nat)
    requires maxvar < |types|
  {
    && lit % 2 == 0 && 1 <= Var(lit) <= maxvar
    && types[Var(lit)].input && !types[Var(lit)].latch && !types[Var(lit)].isAnd && types[Var(lit)].idx == i
  }

  predicate LatchTyped(types: seq<VarType>, lit: nat, i: nat, maxvar: nat)
    requires maxvar < |types|
  {
    && lit % 2 == 0 && 1 <= Var(lit) <= maxvar
    && types[Var(lit)].latch && !types[Var(lit)].input && !types[Var(lit)].isAnd && types[Var(lit)].idx == i
  }

  /** The types of the variables up to maxvar know exactly the inputs and latches. */
  ghost predicate LeavesTyped(types: seq<VarType>, inputs: seq<nat>, latches: seq<Latch>, maxvar: nat)
    requires maxvar < |types|
  {
    && (forall i :: 0 <= i < |inputs| ==> InputTyped(types, inputs[i], i, maxvar))
    && (forall i :: 0 <= i < |latches| ==> LatchTyped(types, latches[i].lit, i, maxvar))
    && (forall v :: 1 <= v <= maxvar && types[v].input ==> types[v].idx < |inputs| && inputs[types[v].idx] == Lit(v))
    && (forall v :: 1 <= v <= maxvar && types[v].latch ==> types[v].idx < |latches| && latches[types[v].idx].lit == Lit(v))
  }

  predicate InRange(lits: seq<nat>, maxvar: nat) {
    forall i :: 0 <= i < |lits| ==> Var(lits[i]) <= maxvar
  }

  predicate RootsInRange(net: Network, maxvar: nat) {
    && InRange(NextLits(net.latches), maxvar)
    && (forall i :: 0 <= i < |net.latches| ==> net.latches[i].reset <= 1 || net.latches[i].reset == net.latches[i].lit)
    && InRange(net.outputs, maxvar) && InRange(net.bad, maxvar) && InRange(net.constraints, maxvar)
    && (forall i :: 0 <= i < |net.justice| ==> InRange(net.justice[i], maxvar))
    && InRange(net.fairness, maxvar)
  }

  predicate LiteralDefined(types: seq<VarType>, lit: nat)
    requires Var(lit) < |types|
  {
    var t := types[Var(lit)];
    Var(lit) == 0 || t.isAnd || t.input || t.latch
  }

  predicate AllDefined(types: seq<VarType>, lits: seq<nat>) {
    forall i :: 0 <= i < |lits| ==> Var(lits[i]) < |types| && LiteralDefined(types, lits[i])
  }

  /** Both inputs of every gate, in gate order. */
  function GateLits(ands: seq<And>): (r: seq<nat>)
    ensures |r| == 2 * |ands|
    ensures forall k :: 0 <= k < |ands| ==> r[2 * k] == ands[k].rhs0 && r[2 * k + 1] == ands[k].rhs1
  {
    seq(2 * |ands|, i requires 0 <= i < 2 * |ands| => if i % 2 == 0 then ands[i / 2].rhs0 else ands[i / 2].rhs1)
  }

  predicate JusticeDefined(types: seq<VarType>, lists: seq<seq<nat>>) {
    forall i :: 0 <= i < |lists| ==> AllDefined(types, lists[i])
  }

  /** Every literal the network mentions stands for a constant, an input, a latch or a gate. */
  predicate NetworkDefined(types: seq<VarType>, net: Network) {
    && AllDefined(types, NextLits(net.latches))
    && AllDefined(types, net.outputs) && AllDefined(types, net.bad) && AllDefined(types, net.constraints)
    && JusticeDefined(types, net.justice)
    && AllDefined(types, net.fairness) && AllDefined(types, GateLits(net.ands))
  }

  /** The literal occurs as a next state, an output, in a property or as the input of a gate. */
  ghost predicate Mentions(net: Network, lit: nat) {
    || lit in NextLits(net.latches) || lit in net.outputs || lit in net.bad || lit in net.constraints
    || (exists i :: 0 <= i < |net.justice| && lit in net.justice[i])
    || lit in net.fairness || lit in GateLits(net.ands)
  }

  /** The variable stands for the constant, or the network says what it is. */
  ghost predicate Introduced(net: Network, v: nat) {
    v == 0 || Lit(v) in net.inputs || Lit(v) in LatchLits(net.latches) || IsGate(net.ands, v)
  }

  /** v is the variable of the first literal of the list that is not defined. */
  ghost predicate FirstUndefined(types: seq<VarType>, lits: seq<nat>, v: nat) {
    exists i :: 0 <= i < |lits| && Var(lits[i]) == v < |types| && !LiteralDefined(types, lits[i]) && AllDefined(types, lits[..i])
  }

  lemma DefinedIsIntroduced(types: seq<VarType>, net: Network, maxvar: nat, lit: nat)
    requires WellTyped(types, net, maxvar) && Var(lit) <= maxvar
    ensures LiteralDefined(types, lit) <==> Introduced(net, Var(lit))
  {
    var v := Var(lit);
    if v > 0 {
      TypedGate(types, net.ands, maxvar, v);
      if types[v].latch { assert LatchLits(net.latches)[types[v].idx] == Lit(v); }
      if i :| 0 <= i < |net.inputs| && net.inputs[i] == Lit(v) { assert InputTyped(types, net.inputs[i], i, maxvar); }
      if i :| 0 <= i < |net.latches| && LatchLits(net.latches)[i] == Lit(v) {
        assert LatchTyped(types, net.latches[i].lit, i, maxvar);
      }
    }
  }

  lemma MentionedInRange(types: seq<VarType>, net: Network, maxvar: nat, lit: nat)
    requires WellTyped(types, net, maxvar) && Mentions(net, lit)
    ensures Var(lit) <= maxvar
  {
    if i :| 0 <= i < |GateLits(net.ands)| && GateLits(net.ands)[i] == lit {
      assert GateTyped(types, net.ands[i / 2], i / 2, maxvar);
    }
  }

  /** The network mentions the variable and does not say what it is. */
  ghost predicate Unaccounted(net: Network, v: nat) {
    !Introduced(net, v) && exists lit :: Mentions(net, lit) && Var(lit) == v
  }

  lemma GateLitsInRange(types: seq<VarType>, net: Network, maxvar: nat)
    requires WellTyped(types, net, maxvar)
    ensures InRange(GateLits(net.ands), maxvar)
  {
    var lits := GateLits(net.ands);
    forall i | 0 <= i < |lits| ensures Var(lits[i]) <= maxvar {
      assert GateTyped(types, net.ands[i / 2], i / 2, maxvar);
    }
  }

  lemma JusticeMentioned(types: seq<VarType>, net: Network, maxvar: nat, i: nat)
    requires WellTyped(types, net, maxvar) && i < |net.justice|
    ensures InRange(net.justice[i], maxvar) && AllMentioned(net, net.justice[i])
  {
  }

  lemma OneMoreDefined(types: seq<VarType>, lists: seq<seq<nat>>, i: nat)
    requires i < |lists|
    ensures JusticeDefined(types, lists[..i + 1]) <==> JusticeDefined(types, lists[..i]) && AllDefined(types, lists[i])
    ensures !AllDefined(types, lists[i]) ==> !JusticeDefined(types, lists)
  {
    assert lists[..i + 1] == lists[..i] + [lists[i]];
  }

  lemma RootsMentioned(net: Network)
    ensures AllMentioned(net, NextLits(net.latches)) && AllMentioned(net, net.outputs) && AllMentioned(net, net.bad)
    ensures AllMentioned(net, net.constraints) && AllMentioned(net, net.fairness) && AllMentioned(net, GateLits(net.ands))
  {
  }

  lemma UndefinedReported(types: seq<VarType>, net: Network, maxvar: nat, lits: seq<nat>, v: nat)
    requires WellTyped(types, net, maxvar) && FirstUndefined(types, lits, v)
    requires InRange(lits, maxvar) && AllMentioned(net, lits)
    ensures Unaccounted(net, v)
  {
    var i :| 0 <= i < |lits| && Var(lits[i]) == v && !LiteralDefined(types, lits[i]);
    DefinedIsIntroduced(types, net, maxvar, lits[i]);
    assert lits[i] in lits && Mentions(net, lits[i]);
  }

  ghost predicate AllMentioned(net: Network, lits: seq<nat>) {
    forall l :: l in lits ==> Mentions(net, l)
  }

  /** Every variable that the network mentions is one that it introduces. */
  ghost predicate AllIntroduced(net: Network) {
    forall lit :: Mentions(net, lit) ==> Introduced(net, Var(lit))
  }

  lemma MentionedDefined(types: seq<VarType>, net: Network, lit: nat)
    requires NetworkDefined(types, net) && Mentions(net, lit)
    ensures Var(lit) < |types| && LiteralDefined(types, lit)
  {
  }

  lemma ListDefined(types: seq<VarType>, net: Network, maxvar: nat, lits: seq<nat>)
    requires WellTyped(types, net, maxvar) && AllIntroduced(net) && AllMentioned(net, lits)
    ensures AllDefined(types, lits)
  {
    forall i | 0 <= i < |lits| ensures Var(lits[i]) < |types| && LiteralDefined(types, lits[i]) {
      assert lits[i] in lits && Mentions(net, lits[i]);
      MentionedInRange(types, net, maxvar, lits[i]);
      DefinedIsIntroduced(types, net, maxvar, lits[i]);
    }
  }

  lemma IntroducedDefined(types: seq<VarType>, net: Network, maxvar: nat)
    requires WellTyped(types, net, maxvar) && AllIntroduced(net)
    ensures NetworkDefined(types, net)
  {
    ListDefined(types, net, maxvar, NextLits(net.latches));
    ListDefined(types, net, maxvar, net.outputs);
    ListDefined(types, net, maxvar, net.bad);
    ListDefined(types, net, maxvar, net.constraints);
    forall i | 0 <= i < |net.justice| ensures AllDefined(types, net.justice[i]) {
      ListDefined(types, net, maxvar, net.justice[i]);
    }
    ListDefined(types, net, maxvar, net.fairness);
    ListDefined(types, net, maxvar, GateLits(net.ands));
  }

  /** Definedness by types is definedness by the network itself. */
  lemma DefinedIffIntroduced(types: seq<VarType>, net: Network, maxvar: nat)
    requires WellTyped(types, net, maxvar)
    ensures NetworkDefined(types, net) <==> AllIntroduced(net)
  {
    if NetworkDefined(types, net) {
      forall lit | Mentions(net, lit) ensures Introduced(net, Var(lit)) {
        MentionedInRange(types, net, maxvar, lit);
        MentionedDefined(types, net, lit);
        DefinedIsIntroduced(types, net, maxvar, lit);
      }
    }
    if AllIntroduced(net) { IntroducedDefined(types, net, maxvar); }
  }

  ghost predicate WellTyped(types: seq<VarType>, net: Network, maxvar: nat) {
    && maxvar < |types|
    && GatesTyped(types, net.ands, maxvar)
    && LeavesTyped(types, net.inputs, net.latches, maxvar)
    && RootsInRange(net, maxvar)
  }

  lemma KindsWellTyped(a: seq<VarType>, b: seq<VarType>, net: Network, maxvar: nat)
    requires WellTyped(a, net, maxvar) && SameKinds(a, b)
    ensures WellTyped(b, net, maxvar)
  {
    Retyped(a, net.ands, maxvar, b);
    forall v | 0 <= v <= maxvar
      ensures a[v].input == b[v].input && a[v].latch == b[v].latch && a[v].isAnd == b[v].isAnd && a[v].idx == b[v].idx
    {
      assert SameKind(a[v], b[v]);
    }
    forall i | 0 <= i < |net.inputs| ensures InputTyped(b, net.inputs[i], i, maxvar) {
      assert InputTyped(a, net.inputs[i], i, maxvar);
    }
    forall i | 0 <= i < |net.latches| ensures LatchTyped(b, net.latches[i].lit, i, maxvar) {
      assert LatchTyped(a, net.latches[i].lit, i, maxvar);
    }
  }

  class Aiger {
    var maxvar: nat
    var inputs: seq<nat>
    var latches: seq<Latch>
    var outputs: seq<nat>
    var bad: seq<nat>
    var constraints: seq<nat>
    var justice: seq<seq<nat>>
    var fairness: seq<nat>
    var ands: seq<And>
    var types: array<VarType>
    var error: CheckError

    function View(): Network
      reads this
    {
      Network(inputs, latches, outputs, bad, constraints, justice, fairness, ands)
    }

    ghost predicate Valid()
      reads this, types
    {
      WellTyped(types[..], View(), maxvar)
    }

    lemma Dismiss(i: nat, stack: seq<nat>, below: seq<seq<nat>>, top: seq<nat>, done: seq<nat>)
      requires Traversing(types[..], ands, maxvar, i, stack, below, top, done) && top != []
      requires Covered(i, below, top, done) && types[i].isAnd && 1 <= Last(top) <= maxvar
      requires !types[Last(top)].isAnd || (types[Last(top)].mark && !types[Last(top)].onstack)
      ensures Traversing(types[..], ands, maxvar, i, ButLast(stack), below, ButLast(top), done)
      ensures Covered(i, below, ButLast(top), done)
    {
      DismissStep(types[..], ands, maxvar, i, stack, below, top, done);
      DismissCovers(types[..], ands, maxvar, i, stack, below, top, done);
    }

    predicate OffStack()
      reads this, types
      requires maxvar < types.Length
    {
      forall v :: 0 <= v <= maxvar ==> !types[v].onstack
    }

    /** Marks are clear, or left over from checks that found no cycle. */
    ghost predicate Quiet()
      reads this, types
      requires maxvar < types.Length
    {
      exists done :: Settled(types[..], ands, maxvar, done)
    }

    // ---------- Cycles ----------

    /** Marks the variable on top of the stack and pushes its inputs. */
    method Enter(i: nat, stack: seq<nat>, ghost below: seq<seq<nat>>, ghost top: seq<nat>, ghost done: seq<nat>)
      returns (more: seq<nat>)
      requires Traversing(types[..], ands, maxvar, i, stack, below, top, done) && top != []
      requires stack != [] && Last(stack) == Last(top) && 1 <= Last(top) <= maxvar
      requires types[Last(top)].isAnd && !types[Last(top)].mark
      modifies types
      ensures Traversing(types[..], ands, maxvar, i, more, below + [top], GateInputs(ands[old(types[Last(top)]).idx]), done)
      ensures SameKinds(old(types[..]), types[..]) && |Unmarked(types[..])| < |Unmarked(old(types[..]))|
    {
      var j := stack[|stack| - 1];
      var t := types[j];
      ghost var kinds := types[..];
      EnterStep(kinds, ands, maxvar, i, stack, below, top, done);
      MarkingShrinks(kinds, j, t.(mark := true, onstack := true));
      types[j] := t.(mark := true, onstack := true);
      assert types[..] == kinds[j := t.(mark := true, onstack := true)];
      more := PushInputs(stack, ands[t.idx]);
    }

    method PushInputs(stack: seq<nat>, gate: And) returns (more: seq<nat>)
      ensures more == stack + [0] + GateInputs(gate)
    {
      more := stack + [0];
      var tmp := Var(gate.rhs0);
      if tmp != 0 { more := more + [tmp]; }
      tmp := Var(gate.rhs1);
      if tmp != 0 { more := more + [tmp]; }
    }

    /** Takes the innermost entered variable off the stack. */
    method Leave(i: nat, stack: seq<nat>, ghost below: seq<seq<nat>>, ghost done: seq<nat>) returns (fewer: seq<nat>)
      requires Traversing(types[..], ands, maxvar, i, stack, below, [], done) && below != []
      modifies types
      ensures |fewer| < |stack|
      ensures Traversing(types[..], ands, maxvar, i, fewer, ButLast(below), ButLast(below[|below| - 1]),
                         done + [Last(below[|below| - 1])])
      ensures SameKinds(old(types[..]), types[..]) && Unmarked(types[..]) == Unmarked(old(types[..]))
    {
      ghost var kinds := types[..];
      ghost var v := LeaveStep(kinds, ands, maxvar, i, stack, below, done);
      var j := stack[|stack| - 2];
      fewer := stack[..|stack| - 2];
      types[j] := types[j].(onstack := false);
      assert types[..] == kinds[v := kinds[v].(onstack := false)];
    }

    /** Deals with the variable on top of the stack: reports a cycle, dismisses it, or enters it. */
    method Visit(i: nat, stack: seq<nat>, ghost below: seq<seq<nat>>, ghost top: seq<nat>, ghost done: seq<nat>)
      returns (stack': seq<nat>, ghost below': seq<seq<nat>>, ghost top': seq<nat>)
      requires Traversing(types[..], ands, maxvar, i, stack, below, top, done) && top != []
      requires stack != [] && Last(stack) == Last(top) && 1 <= Last(top) <= maxvar
      requires Covered(i, below, top, done) && types[i].isAnd && error.NoError?
      modifies types, this`error
      ensures SameKinds(old(types[..]), types[..])
      ensures error.NoError? ==>
              Traversing(types[..], ands, maxvar, i, stack', below', top', done) && Covered(i, below', top', done)
      ensures error.NoError? ==>
              |Unmarked(types[..])| < |Unmarked(old(types[..]))| || (types[..] == old(types[..]) && |stack'| < |stack|)
      ensures !error.NoError? ==> error.CyclicDefinition? && OnCycle(ands, error.gate)
    {
      stack', below', top' := stack, below, top;
      var j := stack[|stack| - 1];
      if types[j].mark && types[j].onstack {
        CycleFound(types[..], ands, maxvar, i, stack, below, top, done);
        error := CyclicDefinition(j);
      } else if !types[j].isAnd || types[j].mark {
        Dismiss(i, stack, below, top, done);
        stack', top' := stack[..|stack| - 1], ButLast(top);
      } else {
        below', top' := below + [top], GateInputs(ands[types[j].idx]);
        stack' := Enter(i, stack, below, top, done);
      }
    }

    /** The traversal from one gate: everything below it is finished, or a cycle is reported. */
    method TraverseFrom(i: nat, ghost before: seq<nat>) returns (ghost done: seq<nat>)
      requires Valid() && 1 <= i <= maxvar && types[i].isAnd && !types[i].mark && error.NoError?
      requires Settled(types[..], ands, maxvar, before)
      modifies types, this`error
      ensures SameKinds(old(types[..]), types[..])
      ensures error.NoError? ==> Settled(types[..], ands, maxvar, done) && before <= done && i in done
      ensures !error.NoError? ==> error.CyclicDefinition? && OnCycle(ands, error.gate)
    {
      done := before;
      ghost var below: seq<seq<nat>> := [];
      ghost var top := [i];
      var stack := [i];
      TraversalStarts(types[..], ands, maxvar, i, before);
      while stack != []
        invariant Traversing(types[..], ands, maxvar, i, stack, below, top, done)
        invariant SameKinds(old(types[..]), types[..]) && error.NoError?
        invariant before <= done && Covered(i, below, top, done)
        decreases |Unmarked(types[..])|, |stack|
      {
        ghost var kinds := types[..];
        assert SameKind(old(types[..])[i], kinds[i]);
        TopInRange(kinds, ands, maxvar, i, stack, below, top, done);
        if stack[|stack| - 1] != 0 {
          stack, below, top := Visit(i, stack, below, top, done);
        } else {
          LeaveCovers(i, below, done);
          stack := Leave(i, stack, below, done);
          below, top, done := ButLast(below), ButLast(below[|below| - 1]), done + [Last(below[|below| - 1])];
        }
        SameKindsTransitive(old(types[..]), kinds, types[..]);
        if !error.NoError? { return; }
      }
      TraversalEnds(types[..], ands, maxvar, i, below, top, done);
    }

    /** One round of the outer loop. */
    method CheckFrom(i: nat, ghost before: seq<nat>) returns (ghost done: seq<nat>)
      requires Valid() && 1 <= i <= maxvar && error.NoError? && Settled(types[..], ands, maxvar, before)
      modifies types, this`error
      ensures Valid() && SameKinds(old(types[..]), types[..])
      ensures error.NoError? ==> Settled(types[..], ands, maxvar, done) && before <= done && (types[i].isAnd ==> i in done)
      ensures !error.NoError? ==> error.CyclicDefinition? && OnCycle(ands, error.gate)
    {
      done := before;
      if types[i].isAnd && !types[i].mark {
        done := TraverseFrom(i, before);
        KindsWellTyped(old(types[..]), types[..], View(), maxvar);
      }
    }

    method CheckNext(i: nat, ghost before: seq<nat>) returns (ghost done: seq<nat>)
      requires Valid() && 1 <= i <= maxvar && error.NoError? && CheckedUpTo(types[..], ands, maxvar, i, before)
      modifies types, this`error
      ensures Valid() && SameKinds(old(types[..]), types[..])
      ensures error.NoError? ==> CheckedUpTo(types[..], ands, maxvar, i + 1, done)
      ensures !error.NoError? ==> error.CyclicDefinition? && OnCycle(ands, error.gate)
    {
      done := CheckFrom(i, before);
      if error.NoError? { CheckedNext(old(types[..]), types[..], ands, maxvar, i, before, done); }
    }

    /** Reports an error exactly when the gates are cyclic. */
    method CheckForCycles()
      requires Valid() && Quiet()
      modifies types, this`error
      ensures Valid() && SameKinds(old(types[..]), types[..])
      ensures !old(error).NoError? ==> error == old(error) && types[..] == old(types[..])
      ensures old(error).NoError? ==> (error.NoError? <==> !Cyclic(ands))
      ensures old(error).NoError? && error.NoError? ==> Quiet() && Rankable(ands) && OffStack()
      ensures old(error).NoError? && !error.NoError? ==> error.CyclicDefinition? && OnCycle(ands, error.gate)
    {
      if !error.NoError? { return; }
      ghost var done :| Settled(types[..], ands, maxvar, done);
      var i := 1;
      while error.NoError? && i <= maxvar
        invariant Valid() && SameKinds(old(types[..]), types[..])
        invariant error.NoError? ==> 1 <= i <= maxvar + 1 && CheckedUpTo(types[..], ands, maxvar, i, done)
        invariant !error.NoError? ==> error.CyclicDefinition? && OnCycle(ands, error.gate)
      {
        ghost var kinds := types[..];
        done := CheckNext(i, done);
        SameKindsTransitive(old(types[..]), kinds, types[..]);
        i := i + 1;
      }
      if error.NoError? { AllChecked(types[..], ands, maxvar, done); }
    }

    // ---------- The whole check ----------

    /** Reports the first undefined literal of a list. */
    method CheckDefined(lits: seq<nat>, ghost kinds: seq<VarType>, ghost net: Network)
      requires kinds == types[..] && WellTyped(kinds, net, maxvar) && InRange(lits, maxvar) && AllMentioned(net, lits)
      modifies this`error
      ensures !old(error).NoError? ==> error == old(error)
      ensures old(error).NoError? ==> (error.NoError? <==> AllDefined(kinds, lits)) && !error.CyclicDefinition?
      ensures old(error).NoError? && error.Undefined? ==>
              FirstUndefined(kinds, lits, error.variable) && Unaccounted(net, error.variable)
    {
      if !error.NoError? { return; }
      var i := 0;
      while error.NoError? && i < |lits|
        invariant 0 <= i <= |lits| && !error.CyclicDefinition?
        invariant error.NoError? ==> AllDefined(kinds, lits[..i])
        invariant error.Undefined? ==> !AllDefined(kinds, lits) && FirstUndefined(kinds, lits, error.variable)
      {
        if !LiteralDefined(types[..], lits[i]) { error := Undefined(Var(lits[i])); }
        i := i + 1;
      }
      if error.NoError? { assert lits[..i] == lits; } else { UndefinedReported(kinds, net, maxvar, lits, error.variable); }
    }

    method CheckJusticeDefined(ghost kinds: seq<VarType>, ghost net: Network)
      requires kinds == types[..] && WellTyped(kinds, net, maxvar) && justice == net.justice
      modifies this`error
      ensures !old(error).NoError? ==> error == old(error)
      ensures old(error).NoError? ==> (error.NoError? <==> JusticeDefined(kinds, net.justice)) && !error.CyclicDefinition?
      ensures old(error).NoError? && error.Undefined? ==> Unaccounted(net, error.variable)
    {
      if !error.NoError? { return; }
      var i := 0;
      while error.NoError? && i < |justice|
        invariant 0 <= i <= |justice| && !error.CyclicDefinition?
        invariant error.NoError? ==> JusticeDefined(kinds, net.justice[..i])
        invariant error.Undefined? ==> !JusticeDefined(kinds, net.justice) && Unaccounted(net, error.variable)
      {
        JusticeMentioned(kinds, net, maxvar, i);
        CheckDefined(justice[i], kinds, net);
        OneMoreDefined(kinds, net.justice, i);
        i := i + 1;
      }
      assert net.justice[..|net.justice|] == net.justice;
    }

    /** All the checks of definedness, in their order; the first error stays. */
    method CheckLiterals(ghost kinds: seq<VarType>, ghost net: Network)
      requires kinds == types[..] && net == View() && WellTyped(kinds, net, maxvar) && error.NoError?
      modifies this`error
      ensures error.NoError? <==> NetworkDefined(kinds, net)
      ensures !error.NoError? ==> error.Undefined? && Unaccounted(net, error.variable)
    {
      GateLitsInRange(kinds, net, maxvar);
      RootsMentioned(net);
      CheckDefined(NextLits(latches), kinds, net);
      CheckDefined(outputs, kinds, net);
      CheckDefined(bad, kinds, net);
      CheckDefined(constraints, kinds, net);
      CheckJusticeDefined(kinds, net);
      CheckDefined(fairness, kinds, net);
      CheckDefined(GateLits(ands), kinds, net);
    }

    /** Succeeds exactly when the network introduces every variable it mentions and its gates are acyclic. */
    method Check()
      requires Valid() && Quiet() && error.NoError?
      modifies types, this`error
      ensures Valid() && SameKinds(old(types[..]), types[..])
      ensures error.NoError? <==> AllIntroduced(View()) && !Cyclic(ands)
      ensures NetworkDefined(old(types[..]), View()) <==> AllIntroduced(View())
      ensures error.NoError? ==> Quiet() && OffStack() && Rankable(ands)
      ensures error.Undefined? ==> Unaccounted(View(), error.variable)
      ensures error.CyclicDefinition? ==> AllIntroduced(View()) && OnCycle(ands, error.gate)
    {
      ghost var kinds, net := types[..], View();
      ghost var done :| Settled(kinds, ands, maxvar, done);
      DefinedIffIntroduced(kinds, net, maxvar);
      CheckLiterals(kinds, net);
      assert Settled(types[..], ands, maxvar, done);
      CheckForCycles();
    }
  }
}
