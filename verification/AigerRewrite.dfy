/** Rewriting an AIGER network into its canonical numbering. */
module AigerRewrite {
  import opened Sequences
  import opened AigerNetwork
  import opened AigerTraversal
  import opened AigerCycles
  import opened AigerNumbering
  import opened AigerCone
  import opened AigerLibrary
  import opened AigerReencode
  import opened AigerGateOrder
  import opened AigerRenumbering

  // ---------- The roots ----------

  ghost predicate RootsNameable(ands: seq<And>, maxvar: nat, num: seq<nat>, net: Network) {
    && AllNameable(ands, maxvar, num, NextLits(net.latches)) && AllNameable(ands, maxvar, num, ResetLits(net.latches))
    && AllNameable(ands, maxvar, num, net.outputs) && AllNameable(ands, maxvar, num, net.bad)
    && AllNameable(ands, maxvar, num, net.constraints)
    && (forall i :: 0 <= i < |net.justice| ==> AllNameable(ands, maxvar, num, net.justice[i]))
    && AllNameable(ands, maxvar, num, net.fairness)
  }

  lemma RootsAreNameable(types: seq<VarType>, net: Network, maxvar: nat)
    requires WellTyped(types, net, maxvar) && NetworkDefined(types, net)
    ensures RootsNameable(net.ands, maxvar, LeafVars(net.inputs, net.latches), net)
  {
    var num := LeafVars(net.inputs, net.latches);
    AllLeavesNamed(types, net, maxvar);
    DefinedNameable(types, net, maxvar, num, NextLits(net.latches));
    ResetsNameable(types, net, maxvar);
    DefinedNameable(types, net, maxvar, num, net.outputs);
    DefinedNameable(types, net, maxvar, num, net.bad);
    DefinedNameable(types, net, maxvar, num, net.constraints);
    forall i | 0 <= i < |net.justice| ensures AllNameable(net.ands, maxvar, num, net.justice[i]) {
      DefinedNameable(types, net, maxvar, num, net.justice[i]);
    }
    DefinedNameable(types, net, maxvar, num, net.fairness);
  }

  lemma ResetsNameable(types: seq<VarType>, net: Network, maxvar: nat)
    requires WellTyped(types, net, maxvar)
    ensures AllNameable(net.ands, maxvar, LeafVars(net.inputs, net.latches), ResetLits(net.latches))
  {
    var num := LeafVars(net.inputs, net.latches);
    forall i | 0 <= i < |net.latches| ensures Nameable(net.ands, maxvar, num, ResetLits(net.latches)[i]) {
      assert LatchTyped(types, net.latches[i].lit, i, maxvar);
      assert num[|net.inputs| + i] == Var(net.latches[i].lit);
    }
  }

  /** Renames next-state, reset, output, bad, constraint, justice and fairness literals, in this order. */
  method ReencodeRoots(a: Aiger, unused: nat, code: array<nat>, ghost num: seq<nat>, ghost leaves: nat)
    returns (next: nat, ghost more: seq<nat>)
    requires Ready(a.types[..], a.ands, a.maxvar, code[..], num, leaves) && unused == Lit(|num| + 1)
    requires RootsNameable(a.ands, a.maxvar, num, a.View())
    modifies a`latches, a`outputs, a`bad, a`constraints, a`justice, a`fairness, a.types, code
    ensures Ready(a.types[..], a.ands, a.maxvar, code[..], more, leaves) && next == Lit(|more| + 1)
    ensures SameKinds(old(a.types[..]), a.types[..]) && LatchLits(a.latches) == LatchLits(old(a.latches))
    ensures RenamedRoots(more, old(a.View()), a.View()) && ConeAdded(a.ands, num, more, RootLits(old(a.View())))
  {
    ghost var before := a.View();
    ghost var kinds0 := a.types[..];
    var latches;
    latches, next, more := ReencodeLatches(a, unused, code, num, leaves);
    a.latches := latches;
    ghost var num1, kinds1 := more, a.types[..];
    next, more := ReencodeOutputs(a, next, code, num, more, leaves);
    RenamedListStable(num1, more, NextLits(before.latches), NextLits(a.latches));
    RenamedListStable(num1, more, ResetLits(before.latches), ResetLits(a.latches));
    SameKindsTransitive(kinds0, kinds1, a.types[..]);
    ConeAddedTwice(a.ands, num, num1, more, SetOf(NextLits(before.latches)) + SetOf(ResetLits(before.latches)),
                   PropertyLits(before), RootLits(before));
  }

  method ReencodeOutputs(a: Aiger, unused: nat, code: array<nat>, ghost first: seq<nat>, ghost num: seq<nat>, ghost leaves: nat)
    returns (next: nat, ghost more: seq<nat>)
    requires Ready(a.types[..], a.ands, a.maxvar, code[..], num, leaves) && unused == Lit(|num| + 1) && first <= num
    requires AllNameable(a.ands, a.maxvar, first, a.outputs) && AllNameable(a.ands, a.maxvar, first, a.bad)
    requires AllNameable(a.ands, a.maxvar, first, a.constraints) && AllNameable(a.ands, a.maxvar, first, a.fairness)
    requires forall i :: 0 <= i < |a.justice| ==> AllNameable(a.ands, a.maxvar, first, a.justice[i])
    modifies a`outputs, a`bad, a`constraints, a`justice, a`fairness, a.types, code
    ensures Ready(a.types[..], a.ands, a.maxvar, code[..], more, leaves) && next == Lit(|more| + 1)
    ensures SameKinds(old(a.types[..]), a.types[..])
    ensures ConeAdded(a.ands, num, more, PropertyLits(old(a.View())))
    ensures RenamedList(more, old(a.outputs), a.outputs) && RenamedList(more, old(a.bad), a.bad)
    ensures RenamedList(more, old(a.constraints), a.constraints) && RenamedLists(more, old(a.justice), a.justice)
    ensures RenamedList(more, old(a.fairness), a.fairness)
  {
    ghost var kinds0, before := a.types[..], a.View();
    var outputs;
    outputs, next, more := ReencodeList(a, a.outputs, unused, code, first, num, leaves);
    ghost var num1, kinds1 := more, a.types[..];
    var bad;
    bad, next, more := ReencodeList(a, a.bad, next, code, first, more, leaves);
    ghost var num2, kinds2 := more, a.types[..];
    next, more := ReencodeConstraints(a, next, code, first, more, leaves);
    RenamedListStable(num1, more, a.outputs, outputs);
    RenamedListStable(num2, more, a.bad, bad);
    ConeAddedTwice(a.ands, num, num1, num2, SetOf(before.outputs), SetOf(before.bad), SetOf(before.outputs) + SetOf(before.bad));
    ConeAddedTwice(a.ands, num, num2, more, SetOf(before.outputs) + SetOf(before.bad), ConstraintLits(before), PropertyLits(before));
    SameKindsTransitive(kinds0, kinds1, kinds2);
    SameKindsTransitive(kinds0, kinds2, a.types[..]);
    a.outputs, a.bad := outputs, bad;
  }

  method ReencodeConstraints(a: Aiger, unused: nat, code: array<nat>, ghost first: seq<nat>, ghost num: seq<nat>, ghost leaves: nat)
    returns (next: nat, ghost more: seq<nat>)
    requires Ready(a.types[..], a.ands, a.maxvar, code[..], num, leaves) && unused == Lit(|num| + 1) && first <= num
    requires AllNameable(a.ands, a.maxvar, first, a.constraints) && AllNameable(a.ands, a.maxvar, first, a.fairness)
    requires forall i :: 0 <= i < |a.justice| ==> AllNameable(a.ands, a.maxvar, first, a.justice[i])
    modifies a`constraints, a`justice, a`fairness, a.types, code
    ensures Ready(a.types[..], a.ands, a.maxvar, code[..], more, leaves) && next == Lit(|more| + 1)
    ensures SameKinds(old(a.types[..]), a.types[..])
    ensures ConeAdded(a.ands, num, more, ConstraintLits(old(a.View())))
    ensures RenamedList(more, old(a.constraints), a.constraints) && RenamedLists(more, old(a.justice), a.justice)
    ensures RenamedList(more, old(a.fairness), a.fairness)
  {
    ghost var kinds0, before := a.types[..], a.View();
    var constraints, justice, fairness;
    constraints, next, more := ReencodeList(a, a.constraints, unused, code, first, num, leaves);
    ghost var num1, kinds1 := more, a.types[..];
    justice, next, more := ReencodeJustice(a, next, code, first, more, leaves);
    ghost var num2, kinds2 := more, a.types[..];
    fairness, next, more := ReencodeList(a, a.fairness, next, code, first, more, leaves);
    RenamedListStable(num1, more, a.constraints, constraints);
    RenamedListsStable(num2, more, a.justice, justice);
    ConeAddedTwice(a.ands, num, num1, num2, SetOf(before.constraints), AllLits(before.justice),
                   SetOf(before.constraints) + AllLits(before.justice));
    ConeAddedTwice(a.ands, num, num2, more, SetOf(before.constraints) + AllLits(before.justice), SetOf(before.fairness),
                   ConstraintLits(before));
    SameKindsTransitive(kinds0, kinds1, kinds2);
    SameKindsTransitive(kinds0, kinds2, a.types[..]);
    a.constraints, a.justice, a.fairness := constraints, justice, fairness;
  }

  // ---------- The gates ----------

  /** The codes tell whether a gate is numbered, and its new literals if it is. */
  predicate GateCoded(code: seq<nat>, num: seq<nat>, gate: And) {
    && gate.lhs < |code| && gate.rhs0 < |code| && gate.rhs1 < |code|
    && (code[gate.lhs] != 0 <==> Var(gate.lhs) in num)
    && (Var(gate.lhs) in num ==>
          && code[gate.lhs] == Rename(num, gate.lhs)
          && code[gate.rhs0] == Rename(num, gate.rhs0) && code[gate.rhs1] == Rename(num, gate.rhs1))
  }

  lemma GateCodes(types: seq<VarType>, ands: seq<And>, maxvar: nat, code: seq<nat>, num: seq<nat>, leaves: nat, i: nat)
    requires Ready(types, ands, maxvar, code, num, leaves) && i < |ands|
    ensures GateCoded(code, num, ands[i])
  {
    var gate := ands[i];
    assert GateTyped(types, gate, i, maxvar);
    CodeOfLiteral(code, num, maxvar, gate.lhs);
    if Var(gate.lhs) in num {
      InputCode(types, ands, maxvar, code, num, leaves, i, gate.rhs0);
      InputCode(types, ands, maxvar, code, num, leaves, i, gate.rhs1);
    }
  }

  lemma InputCode(types: seq<VarType>, ands: seq<And>, maxvar: nat, code: seq<nat>, num: seq<nat>, leaves: nat, i: nat, lit: nat)
    requires Ready(types, ands, maxvar, code, num, leaves) && i < |ands| && Var(ands[i].lhs) in num
    requires (lit == ands[i].rhs0 || lit == ands[i].rhs1) && Var(lit) <= maxvar
    ensures lit < |code| && code[lit] == Rename(num, lit)
  {
    if lit >= 2 { InputNumbered(ands, num, leaves, i, lit); }
    CodeWhenNamed(code, num, maxvar, lit);
  }

  lemma CodeWhenNamed(code: seq<nat>, num: seq<nat>, maxvar: nat, lit: nat)
    requires Numbered(code, num, maxvar) && Named(num, lit) && Var(lit) <= maxvar
    ensures lit < |code| && code[lit] == Rename(num, lit)
  {
    if lit >= 2 { CodeOfLiteral(code, num, maxvar, lit); }
  }

  lemma InputNumbered(ands: seq<And>, num: seq<nat>, leaves: nat, i: nat, lit: nat)
    requires WellDefined(ands) && Topological(ands, num, leaves) && i < |ands| && Var(ands[i].lhs) in num
    requires (lit == ands[i].rhs0 || lit == ands[i].rhs1) && lit >= 2
    ensures Var(lit) in num
  {
    var v := Var(ands[i].lhs);
    assert ands[i].lhs == Lit(v);
    assert Feeds(ands, v, Var(lit)) && IsGate(ands, v);
    var k :| 0 <= k < |num| && num[k] == v;
    assert Var(lit) in num[..k];
  }

  lemma SelectedNext(num: seq<nat>, ands: seq<And>, i: nat)
    requires i < |ands|
    ensures Selected(num, ands[..i + 1]) ==
            Selected(num, ands[..i]) + if Var(ands[i].lhs) in num then [RenamedGate(num, ands[i])] else []
  {
    assert ands[..i + 1][..i] == ands[..i];
  }

  /** One gate: renamed into place j, or dropped. */
  lemma GateInPlace(gates: seq<And>, ands: seq<And>, num: seq<nat>, i: nat, j: nat, gate: And)
    requires j <= i < |gates| == |ands| && gates[i..] == ands[i..] && gates[..j] == Selected(num, ands[..i])
    requires Var(ands[i].lhs) in num && gate == RenamedGate(num, ands[i])
    ensures gates[j := gate][i + 1..] == ands[i + 1..] && gates[j := gate][..j + 1] == Selected(num, ands[..i + 1])
  {
    SelectedNext(num, ands, i);
    assert gates[j := gate][..j + 1] == gates[..j] + [gate];
    assert gates[i..][1..] == gates[i + 1..] && ands[i..][1..] == ands[i + 1..];
  }

  lemma GateDropped(gates: seq<And>, ands: seq<And>, num: seq<nat>, i: nat, j: nat)
    requires j <= i < |gates| == |ands| && gates[i..] == ands[i..] && gates[..j] == Selected(num, ands[..i])
    requires Var(ands[i].lhs) !in num
    ensures gates[i + 1..] == ands[i + 1..] && gates[..j] == Selected(num, ands[..i + 1])
  {
    SelectedNext(num, ands, i);
    assert gates[i..][1..] == gates[i + 1..] && ands[i..][1..] == ands[i + 1..];
  }

  lemma ReadyToSort(types: seq<VarType>, ands: seq<And>, maxvar: nat, code: seq<nat>, num: seq<nat>, leaves: nat)
    requires Ready(types, ands, maxvar, code, num, leaves) && Lit(|num|) < WORD
    ensures DistinctLhs(Selected(num, ands)) && |Selected(num, ands)| == |num| - leaves
    ensures Comparable(Selected(num, ands)) <==> OneSided(leaves, |Selected(num, ands)|)
    ensures Comparable(Selected(num, ands)) ==> Renumbered(ands, num, leaves, SortByLhs(Selected(num, ands)))
  {
    NumbersPositive(code, num, maxvar);
    ComparableIff(num, ands, leaves);
    SortedGates(num, ands, leaves);
  }

  lemma NumbersPositive(code: seq<nat>, num: seq<nat>, maxvar: nat)
    requires Numbered(code, num, maxvar)
    ensures forall k :: 0 <= k < |num| ==> 1 <= num[k] <= maxvar
  {
    forall k | 0 <= k < |num| ensures 1 <= num[k] <= maxvar {
      assert num[k] in num;
    }
  }

  /** Renames gate i into place j, or drops it when it has no code. */
  method RenameGate(gates: seq<And>, i: nat, j: nat, code: array<nat>, ghost ands: seq<And>, ghost num: seq<nat>)
    returns (renamed: seq<And>, k: nat)
    requires j <= i < |gates| == |ands| && gates[i..] == ands[i..] && gates[..j] == Selected(num, ands[..i])
    requires GateCoded(code[..], num, ands[i])
    ensures k <= i + 1 && |renamed| == |gates|
    ensures renamed[i + 1..] == ands[i + 1..] && renamed[..k] == Selected(num, ands[..i + 1])
  {
    assert gates[i] == gates[i..][0] == ands[i];
    var lhs := code[gates[i].lhs];
    if lhs == 0 {
      GateDropped(gates, ands, num, i, j);
      return gates, j;
    }
    var rhs0, rhs1 := code[gates[i].rhs0], code[gates[i].rhs1];
    if rhs0 < rhs1 { rhs0, rhs1 := rhs1, rhs0; }
    GateInPlace(gates, ands, num, i, j, And(lhs, rhs0, rhs1));
    renamed, k := gates[j := And(lhs, rhs0, rhs1)], j + 1;
  }

  /** Renames the gates that have a code, in place, and drops the others. */
  method RenameGates(ands: seq<And>, code: array<nat>, ghost num: seq<nat>) returns (kept: seq<And>)
    requires forall i :: 0 <= i < |ands| ==> GateCoded(code[..], num, ands[i])
    ensures kept == Selected(num, ands) && |kept| <= |ands|
  {
    var gates := ands;
    var i, j := 0, 0;
    while i < |gates|
      invariant 0 <= j <= i <= |gates| == |ands|
      invariant gates[i..] == ands[i..] && gates[..j] == Selected(num, ands[..i])
    {
      gates, j := RenameGate(gates, i, j, code, ands, num);
      i := i + 1;
    }
    assert ands[..i] == ands;
    kept := gates[..j];
  }

  method SortKept(kept: seq<And>, ghost ands: seq<And>, ghost num: seq<nat>, ghost leaves: nat)
    returns (sorted: bool, gates: seq<And>)
    requires DistinctLhs(kept) && leaves <= |num| == leaves + |kept|
    requires Comparable(kept) ==> Renumbered(ands, num, leaves, SortByLhs(kept))
    ensures sorted <==> Comparable(kept)
    ensures |gates| == |kept| && (sorted ==> Renumbered(ands, num, leaves, gates))
  {
    sorted, gates := Comparable(kept), kept;
    if sorted { gates := SortByLhs(kept); }
  }

  /** Drops the gates without a code, renames the others in place, and sorts them where qsort can. */
  method ReencodeGates(a: Aiger, code: array<nat>, ghost num: seq<nat>, ghost leaves: nat) returns (sorted: bool)
    requires Ready(a.types[..], a.ands, a.maxvar, code[..], num, leaves) && Lit(|num|) < WORD
    modifies a`ands
    ensures |a.ands| == |num| - leaves <= |old(a.ands)|
    ensures sorted <==> OneSided(leaves, |a.ands|)
    ensures sorted ==> Renumbered(old(a.ands), num, leaves, a.ands)
  {
    ghost var ands := a.ands;
    forall i | 0 <= i < |ands| ensures GateCoded(code[..], num, ands[i]) {
      GateCodes(a.types[..], ands, a.maxvar, code[..], num, leaves, i);
    }
    ReadyToSort(a.types[..], ands, a.maxvar, code[..], num, leaves);
    var kept := RenameGates(a.ands, code, num);
    var gates;
    sorted, gates := SortKept(kept, ands, num, leaves);
    a.ands := gates;
  }
}
