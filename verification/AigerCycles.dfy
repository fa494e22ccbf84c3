/** The state of the AIGER cycle check: marks and on-stack flags against the explicit stack. */
module AigerCycles {
  import opened Sequences
  import opened AigerNetwork
  import opened AigerTraversal

  datatype VarType = VarType(input: bool, latch: bool, isAnd: bool, mark: bool, onstack: bool, idx: nat)

  /** The types of the variables up to maxvar know exactly the gates. */
  ghost predicate GatesTyped(types: seq<VarType>, ands: seq<And>, maxvar: nat) {
    && maxvar < |types|
    && WellDefined(ands)
    && (forall k :: 0 <= k < |ands| ==> GateTyped(types, ands[k], k, maxvar))
    && (forall v :: 1 <= v <= maxvar && types[v].isAnd ==> types[v].idx < |ands| && ands[types[v].idx].lhs == Lit(v))
  }

  predicate GateTyped(types: seq<VarType>, gate: And, k: nat, maxvar: nat)
    requires maxvar < |types|
  {
    && Var(gate.lhs) <= maxvar && types[Var(gate.lhs)].isAnd && types[Var(gate.lhs)].idx == k
    && Var(gate.rhs0) <= maxvar && Var(gate.rhs1) <= maxvar
  }

  lemma TypedGate(types: seq<VarType>, ands: seq<And>, maxvar: nat, v: nat)
    requires GatesTyped(types, ands, maxvar) && 1 <= v
    ensures IsGate(ands, v) <==> v <= maxvar && types[v].isAnd
  {
    if IsGate(ands, v) {
      var k :| 0 <= k < |ands| && ands[k].lhs == Lit(v);
      assert GateTyped(types, ands[k], k, maxvar);
    }
  }

  /** The inputs of a gate in the order in which they are pushed. */
  function GateInputs(gate: And): seq<nat> {
    (if Var(gate.rhs0) != 0 then [Var(gate.rhs0)] else []) + (if Var(gate.rhs1) != 0 then [Var(gate.rhs1)] else [])
  }

  lemma GateFeeds(types: seq<VarType>, ands: seq<And>, maxvar: nat, v: nat, c: nat)
    requires GatesTyped(types, ands, maxvar) && 1 <= v <= maxvar && types[v].isAnd
    ensures Feeds(ands, v, c) <==> c in GateInputs(ands[types[v].idx])
    ensures Feeds(ands, v, c) ==> 1 <= c <= maxvar
  {
    var k := types[v].idx;
    assert GateTyped(types, ands[k], k, maxvar);
    if Feeds(ands, v, c) {
      var i :| 0 <= i < |ands| && ands[i].lhs == Lit(v) && (c == Var(ands[i].rhs0) || c == Var(ands[i].rhs1));
      assert GateTyped(types, ands[i], i, maxvar);
    }
  }

  predicate SameKind(a: VarType, b: VarType) {
    a.(mark := b.mark, onstack := b.onstack) == b
  }

  predicate SameKinds(a: seq<VarType>, b: seq<VarType>) {
    |a| == |b| && forall v :: 0 <= v < |a| ==> SameKind(a[v], b[v])
  }

  /** Marked variables are finished or entered, and exactly the entered ones are on the stack. */
  ghost predicate Marks(types: seq<VarType>, ands: seq<And>, maxvar: nat, entered: seq<nat>, done: seq<nat>)
    requires maxvar < |types|
  {
    && (forall v :: 0 <= v <= maxvar ==> (types[v].onstack <==> v in entered))
    && (forall v :: 0 <= v <= maxvar ==> (types[v].mark <==> v in entered || v in done))
    && (forall v :: v in entered || v in done ==> 1 <= v <= maxvar && types[v].isAnd)
    && Distinct(entered) && (forall v :: v in entered ==> v !in done)
  }

  ghost predicate Traversing(types: seq<VarType>, ands: seq<And>, maxvar: nat, root: nat, stack: seq<nat>,
                             below: seq<seq<nat>>, top: seq<nat>, done: seq<nat>) {
    && GatesTyped(types, ands, maxvar) && 1 <= root <= maxvar
    && Stacked(ands, root, below, top, done) && stack == Under(below) + top
    && Marks(types, ands, maxvar, Entered(below), done)
    && FinishOrder(ands, done)
  }

  /** Between traversals: nothing is on the stack and the marked gates are finished. */
  ghost predicate Settled(types: seq<VarType>, ands: seq<And>, maxvar: nat, done: seq<nat>)
    requires maxvar < |types|
  {
    Marks(types, ands, maxvar, [], done) && FinishOrder(ands, done)
  }

  function Unmarked(types: seq<VarType>): set<nat> {
    set v: nat | v < |types| && !types[v].mark
  }

  lemma MarkingShrinks(types: seq<VarType>, j: nat, t: VarType)
    requires j < |types| && !types[j].mark && t.mark
    ensures |Unmarked(types[j := t])| < |Unmarked(types)|
  {
    assert Unmarked(types[j := t]) == Unmarked(types) - {j};
  }

  lemma Retyped(types: seq<VarType>, ands: seq<And>, maxvar: nat, other: seq<VarType>)
    requires GatesTyped(types, ands, maxvar) && SameKinds(types, other)
    ensures GatesTyped(other, ands, maxvar)
  {
    forall v | 0 <= v <= maxvar ensures types[v].isAnd == other[v].isAnd && types[v].idx == other[v].idx {
      assert SameKind(types[v], other[v]);
    }
    forall k | 0 <= k < |ands| ensures GateTyped(other, ands[k], k, maxvar) {
      assert GateTyped(types, ands[k], k, maxvar);
    }
  }

  lemma TraversalStarts(types: seq<VarType>, ands: seq<And>, maxvar: nat, i: nat, done: seq<nat>)
    requires GatesTyped(types, ands, maxvar) && 1 <= i <= maxvar && Settled(types, ands, maxvar, done)
    ensures Traversing(types, ands, maxvar, i, [i], [], [i], done)
  {
    assert Entered([]) == [];
    assert Under([]) + [i] == [i];
  }

  lemma TraversalEnds(types: seq<VarType>, ands: seq<And>, maxvar: nat, i: nat,
                      below: seq<seq<nat>>, top: seq<nat>, done: seq<nat>)
    requires Traversing(types, ands, maxvar, i, [], below, top, done) && Covered(i, below, top, done)
    ensures Settled(types, ands, maxvar, done) && i in done
  {
    assert below != [] ==> |Under(below)| >= 1;
    assert Entered(below) == [];
  }

  /** Pending variables are variables of the network. */
  lemma TopInRange(types: seq<VarType>, ands: seq<And>, maxvar: nat, root: nat, stack: seq<nat>,
                   below: seq<seq<nat>>, top: seq<nat>, done: seq<nat>)
    requires Traversing(types, ands, maxvar, root, stack, below, top, done) && stack != []
    ensures Last(stack) <= maxvar
    ensures Last(stack) == 0 <==> top == []
    ensures top != [] ==> Last(top) == Last(stack)
    ensures top == [] ==> below != []
  {
    if top != [] {
      assert Last(top) in top;
      if below != [] {
        var v := Entered(below)[|below| - 1];
        assert v in Entered(below);
        EnteredChain(ands, root, below, top, done, |below| - 1);
        GateFeeds(types, ands, maxvar, v, Last(top));
      }
    }
  }

  lemma MarksEntered(types: seq<VarType>, ands: seq<And>, maxvar: nat, entered: seq<nat>, done: seq<nat>, j: nat)
    requires maxvar < |types| && Marks(types, ands, maxvar, entered, done)
    requires 1 <= j <= maxvar && !types[j].mark && types[j].isAnd
    ensures Marks(types[j := types[j].(mark := true, onstack := true)], ands, maxvar, entered + [j], done)
  {
  }

  lemma MarksLeft(types: seq<VarType>, ands: seq<And>, maxvar: nat, entered: seq<nat>, done: seq<nat>, j: nat)
    requires maxvar < |types| && Marks(types, ands, maxvar, entered + [j], done)
    ensures 1 <= j <= maxvar && types[j].mark && types[j].onstack
    ensures Marks(types[j := types[j].(onstack := false)], ands, maxvar, entered, done + [j])
  {
    var more := entered + [j];
    assert more[|entered|] == j;
    assert forall k :: 0 <= k < |entered| ==> more[k] == entered[k];
    assert forall v :: v in more <==> v in entered || v == j;
    assert j !in entered && j !in done;
    assert forall v :: v in done + [j] <==> v in done || v == j;
  }

  lemma InputsPending(types: seq<VarType>, ands: seq<And>, maxvar: nat, j: nat, done: seq<nat>)
    requires GatesTyped(types, ands, maxvar) && 1 <= j <= maxvar && types[j].isAnd
    ensures Pending(ands, j, GateInputs(ands[types[j].idx]), done)
  {
    forall c ensures Feeds(ands, j, c) <==> c in GateInputs(ands[types[j].idx]) {
      GateFeeds(types, ands, maxvar, j, c);
    }
  }

  lemma EnterStep(types: seq<VarType>, ands: seq<And>, maxvar: nat, root: nat, stack: seq<nat>,
                  below: seq<seq<nat>>, top: seq<nat>, done: seq<nat>)
    requires Traversing(types, ands, maxvar, root, stack, below, top, done) && top != []
    requires 1 <= Last(top) <= maxvar && types[Last(top)].isAnd && !types[Last(top)].mark
    ensures var j := Last(top);
      var inputs := GateInputs(ands[types[j].idx]);
      Traversing(types[j := types[j].(mark := true, onstack := true)], ands, maxvar, root,
                 stack + [0] + inputs, below + [top], inputs, done)
  {
    var j := Last(top);
    var inputs := GateInputs(ands[types[j].idx]);
    var types' := types[j := types[j].(mark := true, onstack := true)];
    InputsPending(types, ands, maxvar, j, done);
    Entering(ands, root, below, top, done, inputs);
    MarksEntered(types, ands, maxvar, Entered(below), done, j);
    assert SameKinds(types, types');
    Retyped(types, ands, maxvar, types');
  }

  lemma DismissStep(types: seq<VarType>, ands: seq<And>, maxvar: nat, root: nat, stack: seq<nat>,
                    below: seq<seq<nat>>, top: seq<nat>, done: seq<nat>)
    requires Traversing(types, ands, maxvar, root, stack, below, top, done) && top != []
    requires 1 <= Last(top) <= maxvar
    requires !types[Last(top)].isAnd || (types[Last(top)].mark && !types[Last(top)].onstack)
    ensures Traversing(types, ands, maxvar, root, ButLast(stack), below, ButLast(top), done)
  {
    if types[Last(top)].isAnd {
      MarkedIsDone(types, ands, maxvar, Entered(below), done, Last(top));
    } else {
      TypedGate(types, ands, maxvar, Last(top));
    }
    Dismissed(ands, root, below, top, done);
    Popped(Under(below), top);
  }

  lemma Popped(under: seq<nat>, top: seq<nat>)
    requires top != []
    ensures ButLast(under + top) == under + ButLast(top)
  {
  }

  lemma LeaveStep(types: seq<VarType>, ands: seq<And>, maxvar: nat, root: nat, stack: seq<nat>,
                  below: seq<seq<nat>>, done: seq<nat>) returns (j: nat)
    requires Traversing(types, ands, maxvar, root, stack, below, [], done) && below != []
    ensures |stack| >= 2 && j == stack[|stack| - 2] && 1 <= j <= maxvar && types[j].mark && types[j].onstack
    ensures j == Last(below[|below| - 1])
    ensures Traversing(types[j := types[j].(onstack := false)], ands, maxvar, root,
                       stack[..|stack| - 2], ButLast(below), ButLast(below[|below| - 1]), done + [j])
    ensures SameKinds(types, types[j := types[j].(onstack := false)])
    ensures Unmarked(types[j := types[j].(onstack := false)]) == Unmarked(types)
  {
    j := LeaveStack(stack, below);
    Leaving(ands, root, below, done);
    MarksLeft(types, ands, maxvar, Entered(ButLast(below)), done, j);
    LeftFinished(ands, root, below, done);
    OffStackKinds(types, j);
    Retyped(types, ands, maxvar, types[j := types[j].(onstack := false)]);
  }

  lemma OffStackKinds(types: seq<VarType>, j: nat)
    requires j < |types|
    ensures SameKinds(types, types[j := types[j].(onstack := false)])
    ensures Unmarked(types[j := types[j].(onstack := false)]) == Unmarked(types)
  {
    var types' := types[j := types[j].(onstack := false)];
    forall v | 0 <= v < |types| ensures types'[v].mark == types[v].mark && SameKind(types[v], types'[v]) {}
  }

  lemma LeaveStack(stack: seq<nat>, below: seq<seq<nat>>) returns (j: nat)
    requires below != [] && NonEmptyBlocks(below) && stack == Under(below) + []
    ensures |stack| >= 2 && j == stack[|stack| - 2] == Last(below[|below| - 1])
    ensures stack[..|stack| - 2] == Under(ButLast(below)) + ButLast(below[|below| - 1])
    ensures Entered(below) == Entered(ButLast(below)) + [j]
  {
    UnderLeft(below);
    j := Last(below[|below| - 1]);
    var rest := Under(ButLast(below)) + ButLast(below[|below| - 1]);
    assert stack == rest + [j, 0];
    EnteredLeft(below);
  }

  lemma EnteredLeft(below: seq<seq<nat>>)
    requires below != [] && NonEmptyBlocks(below)
    ensures Entered(below) == Entered(ButLast(below)) + [Last(below[|below| - 1])]
  {
  }

  lemma LeftFinished(ands: seq<And>, root: nat, below: seq<seq<nat>>, done: seq<nat>)
    requires Stacked(ands, root, below, [], done) && below != [] && FinishOrder(ands, done)
    ensures FinishOrder(ands, done + [Last(below[|below| - 1])])
  {
    var j := Last(below[|below| - 1]);
    forall c | Feeds(ands, j, c) && IsGate(ands, c) ensures c in done {
      AllDone(ands, root, below, done, c);
    }
    FinishOrderGrows(ands, done, j);
  }

  /** An entered variable on top of the stack is on a cycle. */
  lemma CycleFound(types: seq<VarType>, ands: seq<And>, maxvar: nat, root: nat, stack: seq<nat>,
                   below: seq<seq<nat>>, top: seq<nat>, done: seq<nat>)
    requires Traversing(types, ands, maxvar, root, stack, below, top, done) && top != []
    requires Last(top) <= maxvar && types[Last(top)].onstack
    ensures OnCycle(ands, Last(top))
  {
    var q :| 0 <= q < |below| && Entered(below)[q] == Last(top);
    EnteredChain(ands, root, below, top, done, |below| - 1);
    BackEdge(ands, root, below, top, done, q, Last(top));
  }

  lemma SameKindsTransitive(a: seq<VarType>, b: seq<VarType>, c: seq<VarType>)
    requires SameKinds(a, b) && SameKinds(b, c)
    ensures SameKinds(a, c)
  {
    forall v | 0 <= v < |a| ensures SameKind(a[v], c[v]) {
      assert SameKind(a[v], b[v]) && SameKind(b[v], c[v]);
    }
  }

  /** The start of the traversal is finished or still to come. */
  predicate Covered(root: nat, below: seq<seq<nat>>, top: seq<nat>, done: seq<nat>) {
    root in done || root in Block(below, top, 0)
  }

  lemma DismissCovers(types: seq<VarType>, ands: seq<And>, maxvar: nat, root: nat, stack: seq<nat>,
                      below: seq<seq<nat>>, top: seq<nat>, done: seq<nat>)
    requires Traversing(types, ands, maxvar, root, stack, below, top, done) && top != []
    requires Covered(root, below, top, done) && types[root].isAnd
    requires Last(top) <= maxvar && (!types[Last(top)].isAnd || (types[Last(top)].mark && !types[Last(top)].onstack))
    ensures Covered(root, below, ButLast(top), done)
  {
    if Last(top) == root { MarkedIsDone(types, ands, maxvar, Entered(below), done, root); }
    StillCovered(root, below, top, done);
  }

  lemma MarkedIsDone(types: seq<VarType>, ands: seq<And>, maxvar: nat, entered: seq<nat>, done: seq<nat>, v: nat)
    requires maxvar < |types| && v <= maxvar && Marks(types, ands, maxvar, entered, done)
    requires types[v].mark && !types[v].onstack
    ensures v in done
  {
  }

  lemma StillCovered(root: nat, below: seq<seq<nat>>, top: seq<nat>, done: seq<nat>)
    requires top != [] && Covered(root, below, top, done) && (Last(top) == root ==> root in done)
    ensures Covered(root, below, ButLast(top), done)
  {
    assert top == ButLast(top) + [Last(top)];
  }

  lemma LeaveCovers(root: nat, below: seq<seq<nat>>, done: seq<nat>)
    requires below != [] && NonEmptyBlocks(below) && Covered(root, below, [], done)
    ensures Covered(root, ButLast(below), ButLast(below[|below| - 1]), done + [Last(below[|below| - 1])])
  {
    var inner := below[|below| - 1];
    assert inner == ButLast(inner) + [Last(inner)];
  }

  /** The gates below i are finished. */
  ghost predicate CheckedUpTo(types: seq<VarType>, ands: seq<And>, maxvar: nat, i: nat, done: seq<nat>)
    requires maxvar < |types|
  {
    Settled(types, ands, maxvar, done) && forall v :: 1 <= v < i && v <= maxvar && types[v].isAnd ==> v in done
  }

  lemma CheckedNext(a: seq<VarType>, b: seq<VarType>, ands: seq<And>, maxvar: nat, i: nat, before: seq<nat>, done: seq<nat>)
    requires maxvar < |a| && SameKinds(a, b) && CheckedUpTo(a, ands, maxvar, i, before)
    requires Settled(b, ands, maxvar, done) && before <= done && i <= maxvar && (b[i].isAnd ==> i in done)
    ensures CheckedUpTo(b, ands, maxvar, i + 1, done)
  {
    forall v | 1 <= v < i && v <= maxvar && b[v].isAnd ensures v in done {
      assert SameKind(a[v], b[v]);
      assert v in before;
    }
  }

  lemma AllChecked(types: seq<VarType>, ands: seq<And>, maxvar: nat, done: seq<nat>)
    requires GatesTyped(types, ands, maxvar) && CheckedUpTo(types, ands, maxvar, maxvar + 1, done)
    ensures Rankable(ands) && !Cyclic(ands)
  {
    forall v ensures IsGate(ands, v) <==> v in done {
      if v >= 1 { TypedGate(types, ands, maxvar, v); }
    }
    FinishedRanks(ands, done);
    RankedAcyclic(ands);
  }
}
