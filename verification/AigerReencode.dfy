/** Renumbering an AIGER network along a depth-first traversal of its cone of influence. */
module AigerReencode {
  import opened Sequences
  import opened AigerNetwork
  import opened AigerTraversal
  import opened AigerCycles
  import opened AigerNumbering
  import opened AigerCone
  import opened AigerLibrary

  // ---------- The traversal state ----------

  /** A network that passed the check: gates have defined inputs and do not depend on themselves. */
  ghost predicate Checked(types: seq<VarType>, ands: seq<And>, maxvar: nat) {
    && GatesTyped(types, ands, maxvar) && AllDefined(types, GateLits(ands)) && !Cyclic(ands)
    && forall v :: 1 <= v <= maxvar && types[v].isAnd ==> !types[v].input && !types[v].latch
  }

  /** Inputs and latches that gates use are numbered. */
  ghost predicate LeavesKnown(ands: seq<And>, num: seq<nat>) {
    forall v, c :: Feeds(ands, v, c) ==> IsGate(ands, c) || c in num
  }

  /** The state between two literals. */
  ghost predicate Ready(types: seq<VarType>, ands: seq<And>, maxvar: nat, code: seq<nat>, num: seq<nat>, leaves: nat) {
    Checked(types, ands, maxvar) && OnStack(types, maxvar, []) && Table(ands, maxvar, code, num, leaves)
  }

  predicate OnStack(types: seq<VarType>, maxvar: nat, entered: seq<nat>)
    requires maxvar < |types|
  {
    && (forall v :: 0 <= v <= maxvar ==> (types[v].onstack <==> v in entered))
    && Distinct(entered) && forall v :: v in entered ==> 1 <= v <= maxvar
  }

  ghost predicate PendingGates(ands: seq<And>, below: seq<seq<nat>>, top: seq<nat>) {
    forall k, c :: 0 <= k <= |below| && c in Block(below, top, k) ==> IsGate(ands, c)
  }

  /** The agenda: the stack in blocks, with nothing but gates pending. */
  ghost predicate Agenda(ands: seq<And>, root: nat, stack: seq<nat>, below: seq<seq<nat>>, top: seq<nat>, num: seq<nat>) {
    Stacked(ands, root, below, top, num) && stack == Under(below) + top && PendingGates(ands, below, top)
  }

  ghost predicate EnteredOpen(types: seq<VarType>, maxvar: nat, entered: seq<nat>, num: seq<nat>)
    requires maxvar < |types|
  {
    OnStack(types, maxvar, entered) && forall v :: v in entered ==> v !in num
  }

  ghost predicate Table(ands: seq<And>, maxvar: nat, code: seq<nat>, num: seq<nat>, leaves: nat) {
    Numbered(code, num, maxvar) && Topological(ands, num, leaves) && LeavesKnown(ands, num)
  }

  /** The state inside the traversal. */
  ghost predicate Renumbering(types: seq<VarType>, ands: seq<And>, maxvar: nat, root: nat, stack: seq<nat>,
                              below: seq<seq<nat>>, top: seq<nat>, code: seq<nat>, num: seq<nat>, leaves: nat) {
    && Checked(types, ands, maxvar)
    && Agenda(ands, root, stack, below, top, num)
    && EnteredOpen(types, maxvar, Entered(below), num)
    && Table(ands, maxvar, code, num, leaves)
  }

  function Untouched(types: seq<VarType>, num: seq<nat>): set<nat> {
    set v: nat | v < |types| && !types[v].onstack && v !in num
  }

  lemma CheckedKinds(types: seq<VarType>, other: seq<VarType>, ands: seq<And>, maxvar: nat)
    requires Checked(types, ands, maxvar) && SameKinds(types, other)
    ensures Checked(other, ands, maxvar)
  {
    Retyped(types, ands, maxvar, other);
    forall v | 0 <= v < |types|
      ensures types[v].isAnd == other[v].isAnd && types[v].input == other[v].input && types[v].latch == other[v].latch
    {
      assert SameKind(types[v], other[v]);
    }
    var lits := GateLits(ands);
    forall i | 0 <= i < |lits| ensures Var(lits[i]) < |other| && LiteralDefined(other, lits[i]) {
      assert LiteralDefined(types, lits[i]);
    }
  }

  // ---------- The variables pushed for a gate ----------

  predicate Pushed(types: seq<VarType>, child: nat)
    requires child < |types|
  {
    child != 0 && !types[child].input && !types[child].latch && !types[child].onstack
  }

  /** The larger child goes first and is visited last. */
  function Children(types: seq<VarType>, gate: And): seq<nat>
    requires Var(gate.rhs0) < |types| && Var(gate.rhs1) < |types|
  {
    var c0, c1 := Var(gate.rhs0), Var(gate.rhs1);
    var big, small := if c0 < c1 then c1 else c0, if c0 < c1 then c0 else c1;
    (if Pushed(types, big) then [big] else []) + (if Pushed(types, small) then [small] else [])
  }

  lemma DefinedInput(types: seq<VarType>, ands: seq<And>, maxvar: nat, v: nat, c: nat)
    requires Checked(types, ands, maxvar) && Feeds(ands, v, c)
    ensures 1 <= c <= maxvar
    ensures IsGate(ands, c) <==> !types[c].input && !types[c].latch
  {
    var k :| 0 <= k < |ands| && ands[k].lhs == Lit(v) && (c == Var(ands[k].rhs0) || c == Var(ands[k].rhs1));
    var lits := GateLits(ands);
    assert GateTyped(types, ands[k], k, maxvar);
    assert LiteralDefined(types, lits[2 * k]) && LiteralDefined(types, lits[2 * k + 1]);
    TypedGate(types, ands, maxvar, c);
  }

  /** Exactly the gates among a variable's inputs are pushed: none of them is on the stack already. */
  lemma ChildrenPending(types: seq<VarType>, ands: seq<And>, maxvar: nat, v: nat, c: nat)
    requires Checked(types, ands, maxvar) && 1 <= v <= maxvar && types[v].isAnd
    requires Feeds(ands, v, c) ==> !types[c].onstack
    ensures var gate := ands[types[v].idx];
      && Var(gate.rhs0) < |types| && Var(gate.rhs1) < |types|
      && (c in Children(types, gate) <==> Feeds(ands, v, c) && IsGate(ands, c))
  {
    var gate := ands[types[v].idx];
    assert GateTyped(types, gate, types[v].idx, maxvar);
    GateFeeds(types, ands, maxvar, v, c);
    if Feeds(ands, v, c) { DefinedInput(types, ands, maxvar, v, c); }
  }

  // ---------- The steps of the traversal ----------

  lemma RenumberingStarts(types: seq<VarType>, ands: seq<And>, maxvar: nat, i: nat, code: seq<nat>, num: seq<nat>, leaves: nat)
    requires Ready(types, ands, maxvar, code, num, leaves) && i >= 1 && IsGate(ands, i)
    ensures Renumbering(types, ands, maxvar, i, [i], [], [i], code, num, leaves)
  {
    assert Entered([]) == [];
    assert Under([]) + [i] == [i];
  }

  lemma RenumberingEnds(types: seq<VarType>, ands: seq<And>, maxvar: nat, i: nat, below: seq<seq<nat>>, top: seq<nat>,
                        code: seq<nat>, num: seq<nat>, leaves: nat)
    requires Renumbering(types, ands, maxvar, i, [], below, top, code, num, leaves) && Covered(i, below, top, num)
    ensures Ready(types, ands, maxvar, code, num, leaves) && i in num
  {
    assert below != [] ==> |Under(below)| >= 1;
    assert Entered(below) == [];
  }

  lemma TopIsGate(types: seq<VarType>, ands: seq<And>, maxvar: nat, root: nat, stack: seq<nat>, below: seq<seq<nat>>,
                  top: seq<nat>, code: seq<nat>, num: seq<nat>, leaves: nat)
    requires Renumbering(types, ands, maxvar, root, stack, below, top, code, num, leaves) && stack != []
    ensures Last(stack) == 0 <==> top == []
    ensures top != [] ==> Last(top) == Last(stack) && 1 <= Last(top) <= maxvar && types[Last(top)].isAnd
    ensures top == [] ==> below != []
  {
    if top != [] {
      assert Last(top) in Block(below, top, |below|);
      assert IsGate(ands, Last(top));
      if below != [] { EnteredChain(ands, root, below, top, num, |below| - 1); }
      TypedGate(types, ands, maxvar, Last(top));
    }
  }

  /** In an acyclic network nothing pending is entered already. */
  lemma TopNotEntered(types: seq<VarType>, ands: seq<And>, maxvar: nat, root: nat, stack: seq<nat>, below: seq<seq<nat>>,
                      top: seq<nat>, code: seq<nat>, num: seq<nat>, leaves: nat)
    requires Renumbering(types, ands, maxvar, root, stack, below, top, code, num, leaves) && top != []
    requires Last(top) <= maxvar
    ensures !types[Last(top)].onstack
  {
    if types[Last(top)].onstack {
      var q :| 0 <= q < |below| && Entered(below)[q] == Last(top);
      EnteredChain(ands, root, below, top, num, |below| - 1);
      BackEdge(ands, root, below, top, num, q, Last(top));
    }
  }

  /** Nor is any input of the variable being entered. */
  lemma InputNotEntered(types: seq<VarType>, ands: seq<And>, maxvar: nat, root: nat, below: seq<seq<nat>>, top: seq<nat>,
                        num: seq<nat>, c: nat)
    requires Checked(types, ands, maxvar) && Stacked(ands, root, below, top, num) && top != []
    requires 1 <= Last(top) <= maxvar && types[Last(top)].isAnd && Feeds(ands, Last(top), c)
    ensures c !in Entered(below + [top])
  {
    var j := Last(top);
    var inputs := GateInputs(ands[types[j].idx]);
    forall c ensures Feeds(ands, j, c) <==> c in inputs {
      GateFeeds(types, ands, maxvar, j, c);
    }
    Entering(ands, root, below, top, num, inputs);
    var more := below + [top];
    if c in Entered(more) {
      var q :| 0 <= q < |more| && Entered(more)[q] == c;
      BackEdge(ands, root, more, inputs, num, q, c);
    }
  }

  /** The root depends on everything that is entered. */
  lemma {:induction false} EnteredBelow(ands: seq<And>, root: nat, below: seq<seq<nat>>, top: seq<nat>, num: seq<nat>, k: nat)
    requires Stacked(ands, root, below, top, num) && k < |below|
    ensures DependsOn(ands, root, Last(below[k]))
  {
    if k == 0 {
      FirstIsRoot(ands, root, below, top, num);
      DependsOnSelf(ands, root);
    } else {
      var j := k - 1;
      EnteredBelow(ands, root, below, top, num, j);
      EnteredEdge(ands, root, below, top, num, j, k);
      DependsOnInput(ands, root, Last(below[j]), Last(below[k]));
    }
  }

  lemma FirstIsRoot(ands: seq<And>, root: nat, below: seq<seq<nat>>, top: seq<nat>, num: seq<nat>)
    requires Stacked(ands, root, below, top, num) && |below| > 0
    ensures Last(below[0]) == root
  {
    assert Last(below[0]) in Block(below, top, 0);
  }

  lemma EnteredEdge(ands: seq<And>, root: nat, below: seq<seq<nat>>, top: seq<nat>, num: seq<nat>, j: nat, k: nat)
    requires Stacked(ands, root, below, top, num) && k == j + 1 < |below|
    ensures Feeds(ands, Last(below[j]), Last(below[k]))
  {
    EnteredChain(ands, root, below, top, num, j);
  }

  lemma AgendaDismisses(ands: seq<And>, root: nat, stack: seq<nat>, below: seq<seq<nat>>, top: seq<nat>, num: seq<nat>)
    requires Agenda(ands, root, stack, below, top, num) && top != [] && Last(top) in num
    ensures Agenda(ands, root, ButLast(stack), below, ButLast(top), num)
    ensures Covered(root, below, top, num) ==> Covered(root, below, ButLast(top), num)
  {
    Dismissed(ands, root, below, top, num);
    assert top == ButLast(top) + [Last(top)];
    assert ButLast(stack) == Under(below) + ButLast(top);
    forall k, c | 0 <= k <= |below| && c in Block(below, ButLast(top), k) ensures IsGate(ands, c) {
      assert c in Block(below, top, k);
    }
  }

  lemma AgendaEnters(ands: seq<And>, root: nat, stack: seq<nat>, below: seq<seq<nat>>, top: seq<nat>, num: seq<nat>,
                     children: seq<nat>)
    requires Agenda(ands, root, stack, below, top, num) && top != []
    requires forall c :: c in children <==> Feeds(ands, Last(top), c) && IsGate(ands, c)
    ensures Agenda(ands, root, stack + [0] + children, below + [top], children, num)
    ensures Entered(below + [top]) == Entered(below) + [Last(top)]
  {
    Entering(ands, root, below, top, num, children);
    var more := below + [top];
    forall k, c | 0 <= k <= |more| && c in Block(more, children, k) ensures IsGate(ands, c) {
      if k < |more| { assert c in Block(below, top, k); }
    }
  }

  lemma AgendaLeaves(ands: seq<And>, root: nat, stack: seq<nat>, below: seq<seq<nat>>, num: seq<nat>) returns (j: nat)
    requires Agenda(ands, root, stack, below, [], num) && below != []
    ensures |stack| >= 2 && j == stack[|stack| - 2] == Last(below[|below| - 1])
    ensures Entered(below) == Entered(ButLast(below)) + [j] && IsGate(ands, j)
    ensures Agenda(ands, root, stack[..|stack| - 2], ButLast(below), ButLast(below[|below| - 1]), num + [j])
  {
    j := LeaveStack(stack, below);
    Leaving(ands, root, below, num);
    PendingGatesLeft(ands, below);
  }

  lemma PendingGatesLeft(ands: seq<And>, below: seq<seq<nat>>)
    requires below != [] && NonEmptyBlocks(below) && PendingGates(ands, below, [])
    ensures IsGate(ands, Last(below[|below| - 1]))
    ensures PendingGates(ands, ButLast(below), ButLast(below[|below| - 1]))
  {
    var outer, inner := ButLast(below), below[|below| - 1];
    assert Last(inner) in Block(below, [], |below| - 1);
    forall k, c | 0 <= k <= |outer| && c in Block(outer, ButLast(inner), k) ensures IsGate(ands, c) {
      assert c in Block(below, [], k);
    }
  }

  lemma OpenMore(types: seq<VarType>, maxvar: nat, entered: seq<nat>, num: seq<nat>, j: nat)
    requires maxvar < |types| && EnteredOpen(types, maxvar, entered, num)
    requires 1 <= j <= maxvar && !types[j].onstack && j !in num
    ensures EnteredOpen(types[j := types[j].(onstack := true)], maxvar, entered + [j], num)
    ensures |Untouched(types[j := types[j].(onstack := true)], num)| < |Untouched(types, num)|
  {
    assert Untouched(types[j := types[j].(onstack := true)], num) == Untouched(types, num) - {j};
  }

  lemma OpenLess(types: seq<VarType>, maxvar: nat, entered: seq<nat>, num: seq<nat>, j: nat)
    requires maxvar < |types| && EnteredOpen(types, maxvar, entered + [j], num)
    ensures 1 <= j <= maxvar && j !in num
    ensures EnteredOpen(types[j := types[j].(onstack := false)], maxvar, entered, num + [j])
    ensures Untouched(types[j := types[j].(onstack := false)], num + [j]) == Untouched(types, num)
  {
    var more := entered + [j];
    assert more[|entered|] == j && j in more;
    assert forall k :: 0 <= k < |entered| ==> more[k] == entered[k];
    assert forall v :: v in more <==> v in entered || v == j;
    assert j !in entered;
    assert Untouched(types[j := types[j].(onstack := false)], num + [j]) == Untouched(types, num);
  }

  lemma TableMore(ands: seq<And>, maxvar: nat, code: seq<nat>, num: seq<nat>, leaves: nat, j: nat)
    requires Table(ands, maxvar, code, num, leaves) && 1 <= j <= maxvar && j !in num && IsGate(ands, j)
    requires forall c :: Feeds(ands, j, c) ==> c in num
    ensures Lit(j) + 1 < |code|
    ensures Table(ands, maxvar, Coded(code, j, |num| + 1), num + [j], leaves)
  {
    TopologicalMore(ands, num, leaves, j);
    NumberedMore(code, num, maxvar, j);
  }

  /** The variable on top is entered and its gates are pushed. */
  lemma EnterNumbering(types: seq<VarType>, types': seq<VarType>, ands: seq<And>, maxvar: nat, root: nat, stack: seq<nat>,
                       below: seq<seq<nat>>, top: seq<nat>, code: seq<nat>, num: seq<nat>, leaves: nat)
    returns (children: seq<nat>)
    requires Renumbering(types, ands, maxvar, root, stack, below, top, code, num, leaves) && top != []
    requires 1 <= Last(top) <= maxvar && types[Last(top)].isAnd && Last(top) !in num
    requires types' == types[Last(top) := types[Last(top)].(onstack := true)]
    ensures var gate := ands[types[Last(top)].idx];
      Var(gate.rhs0) < |types| && Var(gate.rhs1) < |types| && children == Children(types', gate)
    ensures Renumbering(types', ands, maxvar, root, stack + [0] + children, below + [top], children, code, num, leaves)
    ensures |Untouched(types', num)| < |Untouched(types, num)|
  {
    var j := Last(top);
    TopNotEntered(types, ands, maxvar, root, stack, below, top, code, num, leaves);
    assert SameKinds(types, types');
    CheckedKinds(types, types', ands, maxvar);
    OpenMore(types, maxvar, Entered(below), num, j);
    children := ChildrenExactly(types', ands, maxvar, root, below, top, num);
    AgendaEnters(ands, root, stack, below, top, num, children);
  }

  lemma ChildrenExactly(types: seq<VarType>, ands: seq<And>, maxvar: nat, root: nat, below: seq<seq<nat>>, top: seq<nat>,
                        num: seq<nat>) returns (children: seq<nat>)
    requires Checked(types, ands, maxvar) && Stacked(ands, root, below, top, num) && top != []
    requires 1 <= Last(top) <= maxvar && types[Last(top)].isAnd
    requires OnStack(types, maxvar, Entered(below) + [Last(top)])
    ensures var gate := ands[types[Last(top)].idx];
      Var(gate.rhs0) < |types| && Var(gate.rhs1) < |types| && children == Children(types, gate)
    ensures forall c :: c in children <==> Feeds(ands, Last(top), c) && IsGate(ands, c)
  {
    var gate := ands[types[Last(top)].idx];
    assert GateTyped(types, gate, types[Last(top)].idx, maxvar);
    children := Children(types, gate);
    forall c ensures c in children <==> Feeds(ands, Last(top), c) && IsGate(ands, c) {
      ChildExactly(types, ands, maxvar, root, below, top, num, c);
    }
  }

  lemma ChildExactly(types: seq<VarType>, ands: seq<And>, maxvar: nat, root: nat, below: seq<seq<nat>>, top: seq<nat>,
                     num: seq<nat>, c: nat)
    requires Checked(types, ands, maxvar) && Stacked(ands, root, below, top, num) && top != []
    requires 1 <= Last(top) <= maxvar && types[Last(top)].isAnd
    requires OnStack(types, maxvar, Entered(below) + [Last(top)])
    ensures var gate := ands[types[Last(top)].idx];
      && Var(gate.rhs0) < |types| && Var(gate.rhs1) < |types|
      && (c in Children(types, gate) <==> Feeds(ands, Last(top), c) && IsGate(ands, c))
  {
    if Feeds(ands, Last(top), c) {
      InputOffStack(types, ands, maxvar, root, below, top, num, c);
    }
    ChildrenPending(types, ands, maxvar, Last(top), c);
  }

  lemma InputOffStack(types: seq<VarType>, ands: seq<And>, maxvar: nat, root: nat, below: seq<seq<nat>>, top: seq<nat>,
                      num: seq<nat>, c: nat)
    requires Checked(types, ands, maxvar) && Stacked(ands, root, below, top, num) && top != []
    requires 1 <= Last(top) <= maxvar && types[Last(top)].isAnd && Feeds(ands, Last(top), c)
    requires OnStack(types, maxvar, Entered(below) + [Last(top)])
    ensures 1 <= c <= maxvar && !types[c].onstack
  {
    var entered := Entered(below + [top]);
    InputNotEntered(types, ands, maxvar, root, below, top, num, c);
    DefinedInput(types, ands, maxvar, Last(top), c);
    assert entered == Entered(below) + [Last(top)];
    OffStackOutside(types, maxvar, entered, c);
  }

  lemma OffStackOutside(types: seq<VarType>, maxvar: nat, entered: seq<nat>, c: nat)
    requires maxvar < |types| && OnStack(types, maxvar, entered) && c <= maxvar && c !in entered
    ensures !types[c].onstack
  {
  }

  lemma InputsNumbered(ands: seq<And>, root: nat, below: seq<seq<nat>>, num: seq<nat>)
    requires Stacked(ands, root, below, [], num) && below != [] && LeavesKnown(ands, num)
    ensures forall c :: Feeds(ands, Last(below[|below| - 1]), c) ==> c in num
  {
    forall c | Feeds(ands, Last(below[|below| - 1]), c) ensures c in num {
      if IsGate(ands, c) { AllDone(ands, root, below, num, c); }
    }
  }

  /** The innermost variable is left and gets the next number: all its inputs are numbered. */
  lemma LeaveNumbering(types: seq<VarType>, ands: seq<And>, maxvar: nat, root: nat, stack: seq<nat>,
                       below: seq<seq<nat>>, code: seq<nat>, num: seq<nat>, leaves: nat)
    returns (j: nat, types': seq<VarType>, code': seq<nat>)
    requires Renumbering(types, ands, maxvar, root, stack, below, [], code, num, leaves) && below != []
    ensures |stack| >= 2 && j == stack[|stack| - 2] == Last(below[|below| - 1])
    ensures 1 <= j <= maxvar && j !in num && Lit(j) + 1 < |code|
    ensures types' == types[j := types[j].(onstack := false)] && SameKinds(types, types')
    ensures code' == Coded(code, j, |num| + 1)
    ensures Renumbering(types', ands, maxvar, root, stack[..|stack| - 2], ButLast(below), ButLast(below[|below| - 1]),
                        code', num + [j], leaves)
    ensures Untouched(types', num + [j]) == Untouched(types, num)
  {
    j := AgendaLeaves(ands, root, stack, below, num);
    OpenLess(types, maxvar, Entered(ButLast(below)), num, j);
    types' := types[j := types[j].(onstack := false)];
    assert SameKinds(types, types');
    CheckedKinds(types, types', ands, maxvar);
    InputsNumbered(ands, root, below, num);
    TableMore(ands, maxvar, code, num, leaves, j);
    code' := Coded(code, j, |num| + 1);
  }

  // ---------- Renumbering one literal ----------

  /** Every part of the literal has a number. */
  predicate Named(num: seq<nat>, lit: nat) {
    lit < 2 || Var(lit) in num
  }

  lemma CodeOfLiteral(code: seq<nat>, num: seq<nat>, maxvar: nat, lit: nat)
    requires Numbered(code, num, maxvar) && Var(lit) <= maxvar && lit >= 2
    ensures lit < |code| && code[lit] == if Named(num, lit) then Rename(num, lit) else 0
  {
    assert CodeOf(code, num, Var(lit));
  }

  lemma CodeOfVariable(code: seq<nat>, num: seq<nat>, maxvar: nat, v: nat)
    requires Numbered(code, num, maxvar) && 1 <= v <= maxvar
    ensures Lit(v) < |code| && (code[Lit(v)] != 0 <==> v in num)
  {
    assert CodeOf(code, num, v);
  }

  method PushChildren(types: array<VarType>, stack: seq<nat>, gate: And) returns (more: seq<nat>)
    requires Var(gate.rhs0) < types.Length && Var(gate.rhs1) < types.Length
    ensures more == stack + Children(types[..], gate)
  {
    var child0, child1 := Var(gate.rhs0), Var(gate.rhs1);
    if child0 < child1 { child0, child1 := child1, child0; }
    more := stack;
    if child0 != 0 {
      var t := types[child0];
      if !t.input && !t.latch && !t.onstack { more := more + [child0]; }
    }
    if child1 != 0 {
      var t := types[child1];
      if !t.input && !t.latch && !t.onstack { more := more + [child1]; }
    }
  }

  /** Gives v and its negation the next two literals. */
  method NewCode(v: nat, unused: nat, code: array<nat>, ghost n: nat) returns (next: nat)
    requires Lit(v) + 1 < code.Length && unused == Lit(n)
    modifies code
    ensures code[..] == Coded(old(code[..]), v, n) && next == Lit(n + 1)
  {
    code[Lit(v)] := unused;
    code[Lit(v) + 1] := unused + 1;
    next := unused + 2;
  }

  method EnterGate(a: Aiger, root: nat, stack: seq<nat>, ghost below: seq<seq<nat>>, ghost top: seq<nat>,
                   ghost code: seq<nat>, ghost num: seq<nat>, ghost leaves: nat)
    returns (more: seq<nat>, ghost children: seq<nat>)
    requires Renumbering(a.types[..], a.ands, a.maxvar, root, stack, below, top, code, num, leaves) && top != []
    requires stack != [] && Last(stack) == Last(top) && 1 <= Last(top) <= a.maxvar
    requires a.types[Last(top)].isAnd && Last(top) !in num
    modifies a.types
    ensures Renumbering(a.types[..], a.ands, a.maxvar, root, more, below + [top], children, code, num, leaves)
    ensures SameKinds(old(a.types[..]), a.types[..])
    ensures |Untouched(a.types[..], num)| < |Untouched(old(a.types[..]), num)|
  {
    var v := stack[|stack| - 1];
    ghost var kinds := a.types[..];
    var t := a.types[v];
    a.types[v] := t.(onstack := true);
    children := EnterNumbering(kinds, a.types[..], a.ands, a.maxvar, root, stack, below, top, code, num, leaves);
    more := PushChildren(a.types, stack + [0], a.ands[t.idx]);
  }

  method LeaveGate(a: Aiger, root: nat, stack: seq<nat>, unused: nat, code: array<nat>, ghost below: seq<seq<nat>>,
                   ghost num: seq<nat>, ghost leaves: nat)
    returns (fewer: seq<nat>, next: nat, ghost more: seq<nat>)
    requires Renumbering(a.types[..], a.ands, a.maxvar, root, stack, below, [], code[..], num, leaves) && below != []
    requires unused == Lit(|num| + 1)
    modifies a.types, code
    ensures |fewer| < |stack| && next == Lit(|more| + 1) && more == num + [Last(below[|below| - 1])]
    ensures AddedBelow(a.ands, num, more, root)
    ensures Renumbering(a.types[..], a.ands, a.maxvar, root, fewer, ButLast(below), ButLast(below[|below| - 1]),
                        code[..], more, leaves)
    ensures SameKinds(old(a.types[..]), a.types[..])
    ensures Untouched(a.types[..], more) == Untouched(old(a.types[..]), num)
  {
    LeftIsBelow(a.types[..], a.ands, a.maxvar, root, stack, below, code[..], num, leaves);
    ghost var v, types', code' := LeaveNumbering(a.types[..], a.ands, a.maxvar, root, stack, below, code[..], num, leaves);
    var open := stack[|stack| - 2];
    fewer, more := stack[..|stack| - 2], num + [v];
    a.types[open] := a.types[open].(onstack := false);
    next := NewCode(open, unused, code, |num| + 1);
    assert a.types[..] == types' && code[..] == code';
  }

  /** One round of the traversal. */
  method Advance(a: Aiger, root: nat, stack: seq<nat>, code: array<nat>, ghost below: seq<seq<nat>>, ghost top: seq<nat>,
                 ghost num: seq<nat>, ghost leaves: nat)
    returns (stack': seq<nat>, ghost below': seq<seq<nat>>, ghost top': seq<nat>)
    requires Renumbering(a.types[..], a.ands, a.maxvar, root, stack, below, top, code[..], num, leaves) && top != []
    requires stack != [] && Last(stack) == Last(top) && 1 <= Last(top) <= a.maxvar && a.types[Last(top)].isAnd
    requires Covered(root, below, top, num)
    modifies a.types
    ensures Renumbering(a.types[..], a.ands, a.maxvar, root, stack', below', top', code[..], num, leaves)
    ensures Covered(root, below', top', num) && SameKinds(old(a.types[..]), a.types[..])
    ensures |Untouched(a.types[..], num)| < |Untouched(old(a.types[..]), num)| ||
            (a.types[..] == old(a.types[..]) && |stack'| < |stack|)
  {
    below', top' := below, top;
    var v := stack[|stack| - 1];
    CodeOfVariable(code[..], num, a.maxvar, v);
    if code[Lit(v)] != 0 {
      DismissNumbered(a.types[..], a.ands, a.maxvar, root, stack, below, top, code[..], num, leaves);
      stack', top' := stack[..|stack| - 1], ButLast(top);
    } else if a.types[v].onstack {
      TopNotEntered(a.types[..], a.ands, a.maxvar, root, stack, below, top, code[..], num, leaves);
      assert false;
    } else {
      stack', top' := EnterGate(a, root, stack, below, top, code[..], num, leaves);
      below' := below + [top];
    }
  }

  lemma DismissNumbered(types: seq<VarType>, ands: seq<And>, maxvar: nat, root: nat, stack: seq<nat>, below: seq<seq<nat>>,
                        top: seq<nat>, code: seq<nat>, num: seq<nat>, leaves: nat)
    requires Renumbering(types, ands, maxvar, root, stack, below, top, code, num, leaves) && top != []
    requires Last(top) in num && Covered(root, below, top, num)
    ensures Renumbering(types, ands, maxvar, root, ButLast(stack), below, ButLast(top), code, num, leaves)
    ensures Covered(root, below, ButLast(top), num)
  {
    AgendaDismisses(ands, root, stack, below, top, num);
  }

  lemma LeftIsBelow(types: seq<VarType>, ands: seq<And>, maxvar: nat, root: nat, stack: seq<nat>, below: seq<seq<nat>>,
                    code: seq<nat>, num: seq<nat>, leaves: nat)
    requires Renumbering(types, ands, maxvar, root, stack, below, [], code, num, leaves) && below != []
    ensures AddedBelow(ands, num, num + [Last(below[|below| - 1])], root)
  {
    EnteredBelow(ands, root, below, [], num, |below| - 1);
  }

  /** A literal below 2 or with a table entry has its new name, and nothing is left to number for it. */
  lemma CodeDecides(types: seq<VarType>, ands: seq<And>, maxvar: nat, code: seq<nat>, num: seq<nat>, leaves: nat, lit: nat)
    requires Ready(types, ands, maxvar, code, num, leaves) && Var(lit) <= maxvar
    ensures lit < |code|
    ensures lit < 2 || code[lit] != 0 ==> Named(num, lit) && ConeAdded(ands, num, num, {lit})
    ensures if lit < 2 then Rename(num, lit) == lit else code[lit] == 0 || code[lit] == Rename(num, lit)
    ensures lit >= 2 && code[lit] == 0 ==> Var(lit) !in num
  {
    CodeNames(code, num, maxvar, lit);
    if Named(num, lit) { NothingAdded(ands, num, leaves, {lit}); }
  }

  lemma CodeNames(code: seq<nat>, num: seq<nat>, maxvar: nat, lit: nat)
    requires Numbered(code, num, maxvar) && Var(lit) <= maxvar
    ensures lit < |code|
    ensures Named(num, lit) <==> lit < 2 || code[lit] != 0
    ensures if lit < 2 then Rename(num, lit) == lit else code[lit] == 0 || code[lit] == Rename(num, lit)
  {
    if lit >= 2 { CodeOfLiteral(code, num, maxvar, lit); }
  }

  /** The new literal of an old one: its whole cone is numbered before it. */
  method ReencodeLit(a: Aiger, lit: nat, unused: nat, code: array<nat>, ghost num: seq<nat>, ghost leaves: nat)
    returns (res: nat, next: nat, ghost more: seq<nat>)
    requires Ready(a.types[..], a.ands, a.maxvar, code[..], num, leaves) && unused == Lit(|num| + 1)
    requires Var(lit) <= a.maxvar && (lit < 2 || IsGate(a.ands, Var(lit)) || Var(lit) in num)
    modifies a.types, code
    ensures Ready(a.types[..], a.ands, a.maxvar, code[..], more, leaves) && next == Lit(|more| + 1)
    ensures ConeAdded(a.ands, num, more, {lit}) && Named(more, lit) && res == Rename(more, lit)
    ensures SameKinds(old(a.types[..]), a.types[..])
  {
    CodeDecides(a.types[..], a.ands, a.maxvar, code[..], num, leaves, lit);
    if lit < 2 { return lit, unused, num; }
    res := code[lit];
    if res != 0 { return res, unused, num; }
    res, next, more := ReencodeGate(a, lit, unused, code, num, leaves);
  }

  /** The new literal of a gate without a code. */
  method ReencodeGate(a: Aiger, lit: nat, unused: nat, code: array<nat>, ghost num: seq<nat>, ghost leaves: nat)
    returns (res: nat, next: nat, ghost more: seq<nat>)
    requires Ready(a.types[..], a.ands, a.maxvar, code[..], num, leaves) && unused == Lit(|num| + 1)
    requires 2 <= lit && Var(lit) <= a.maxvar && IsGate(a.ands, Var(lit))
    modifies a.types, code
    ensures Ready(a.types[..], a.ands, a.maxvar, code[..], more, leaves) && next == Lit(|more| + 1)
    ensures ConeAdded(a.ands, num, more, {lit}) && Named(more, lit) && res == Rename(more, lit)
    ensures SameKinds(old(a.types[..]), a.types[..])
  {
    var v := Var(lit);
    TypedGate(a.types[..], a.ands, a.maxvar, v);
    next, more := NumberCone(a, v, unused, code, num, leaves);
    ConeOfLiteral(a.ands, num, more, lit);
    CodeOfLiteral(code[..], more, a.maxvar, lit);
    res := code[lit];
  }

  /** The traversal from a gate without a code. */
  method NumberCone(a: Aiger, v: nat, unused: nat, code: array<nat>, ghost num: seq<nat>, ghost leaves: nat)
    returns (next: nat, ghost more: seq<nat>)
    requires Ready(a.types[..], a.ands, a.maxvar, code[..], num, leaves) && unused == Lit(|num| + 1)
    requires v >= 1 && IsGate(a.ands, v)
    modifies a.types, code
    ensures Ready(a.types[..], a.ands, a.maxvar, code[..], more, leaves) && next == Lit(|more| + 1)
    ensures num <= more && v in more && forall x :: x in more <==> x in num || DependsOn(a.ands, v, x)
    ensures SameKinds(old(a.types[..]), a.types[..])
  {
    next, more := unused, num;
    var stack := [v];
    ghost var below: seq<seq<nat>> := [];
    ghost var top := [v];
    RenumberingStarts(a.types[..], a.ands, a.maxvar, v, code[..], num, leaves);
    while stack != []
      invariant Renumbering(a.types[..], a.ands, a.maxvar, v, stack, below, top, code[..], more, leaves)
      invariant num <= more && next == Lit(|more| + 1) && Covered(v, below, top, more)
      invariant AddedBelow(a.ands, num, more, v)
      invariant SameKinds(old(a.types[..]), a.types[..])
      decreases |Untouched(a.types[..], more)|, |stack|
    {
      ghost var kinds := a.types[..];
      stack, next, below, top, more := Round(a, v, stack, next, code, below, top, more, leaves);
      SameKindsTransitive(old(a.types[..]), kinds, a.types[..]);
    }
    RenumberingEnds(a.types[..], a.ands, a.maxvar, v, below, top, code[..], more, leaves);
    forall x | DependsOn(a.ands, v, x) ensures x in more {
      DependenciesNumbered(a.ands, more, leaves, v, x);
    }
  }

  /** One round: the variable on top is dealt with, or the innermost one is left. */
  method Round(a: Aiger, v: nat, stack: seq<nat>, unused: nat, code: array<nat>, ghost below: seq<seq<nat>>,
               ghost top: seq<nat>, ghost num: seq<nat>, ghost leaves: nat)
    returns (stack': seq<nat>, next: nat, ghost below': seq<seq<nat>>, ghost top': seq<nat>, ghost more: seq<nat>)
    requires Renumbering(a.types[..], a.ands, a.maxvar, v, stack, below, top, code[..], num, leaves)
    requires stack != [] && unused == Lit(|num| + 1) && Covered(v, below, top, num)
    modifies a.types, code
    ensures Renumbering(a.types[..], a.ands, a.maxvar, v, stack', below', top', code[..], more, leaves)
    ensures num <= more && next == Lit(|more| + 1) && Covered(v, below', top', more) && AddedBelow(a.ands, num, more, v)
    ensures SameKinds(old(a.types[..]), a.types[..])
    ensures |Untouched(a.types[..], more)| < |Untouched(old(a.types[..]), num)| ||
            (Untouched(a.types[..], more) == Untouched(old(a.types[..]), num) && |stack'| < |stack|)
  {
    TopIsGate(a.types[..], a.ands, a.maxvar, v, stack, below, top, code[..], num, leaves);
    if stack[|stack| - 1] != 0 {
      next, more := unused, num;
      NothingBelow(a.ands, num, v);
      stack', below', top' := Advance(a, v, stack, code, below, top, num, leaves);
    } else {
      LeaveCovers(v, below, num);
      below', top' := ButLast(below), ButLast(below[|below| - 1]);
      stack', next, more := LeaveGate(a, v, stack, unused, code, below, num, leaves);
    }
  }
}
