/** The canonical form of an AIGER network: testing for it, and fixing types and leaf literals. */
module AigerCanonical {
  import opened AigerNetwork
  import opened AigerTraversal
  import opened AigerCycles
  import opened AigerNumbering
  import opened AigerLibrary
  import opened AigerReencode
  import opened AigerGateOrder
  import opened AigerRenumbering
  import opened AigerRewrite

  // ---------- The types of the renumbered variables ----------

  /** The type of variable v in canonical numbering. */
  function CanonicalType(t: VarType, inputs: nat, leaves: nat, v: nat): VarType
    requires inputs <= leaves && v >= 1
  {
    if v <= inputs then t.(input := true, latch := false, isAnd := false, idx := v - 1)
    else if v <= leaves then t.(input := false, latch := true, isAnd := false, idx := v - inputs - 1)
    else t.(input := false, latch := false, isAnd := true, idx := v - leaves - 1)
  }

  function Blank(t: VarType): VarType {
    t.(input := false, latch := false, isAnd := false, idx := 0)
  }

  /** Clears the types of the variables 1 .. maxvar. */
  method ResetTypes(types: array<VarType>, maxvar: nat)
    requires maxvar < types.Length
    modifies types
    ensures forall v :: 1 <= v <= maxvar ==> types[v] == Blank(old(types[v]))
  {
    var i := 1;
    while i <= maxvar
      invariant 1 <= i <= maxvar + 1
      invariant forall v :: 1 <= v < i ==> types[v] == Blank(old(types[v]))
      invariant forall v :: i <= v < types.Length ==> types[v] == old(types[v])
    {
      types[i] := types[i].(input := false, latch := false, isAnd := false, idx := 0);
      i := i + 1;
    }
  }

  method TypeGates(a: Aiger, ghost leaves: nat)
    requires leaves + |a.ands| < a.types.Length
    requires forall k :: 0 <= k < |a.ands| ==> a.ands[k].lhs == Lit(leaves + k + 1)
    modifies a.types
    ensures forall v :: 0 <= v <= leaves ==> a.types[v] == old(a.types[v])
    ensures forall v :: leaves < v <= leaves + |a.ands| ==>
              a.types[v] == old(a.types[v]).(isAnd := true, idx := v - leaves - 1)
  {
    var i := 0;
    while i < |a.ands|
      invariant 0 <= i <= |a.ands|
      invariant forall v :: 0 <= v <= leaves || leaves + i < v < a.types.Length ==> a.types[v] == old(a.types[v])
      invariant forall v :: leaves < v <= leaves + i ==> a.types[v] == old(a.types[v]).(isAnd := true, idx := v - leaves - 1)
    {
      var v := Var(a.ands[i].lhs);
      a.types[v] := a.types[v].(isAnd := true, idx := i);
      i := i + 1;
    }
  }

  /** The i-th literal after index from. */
  function NumberAt(from: nat, i: nat): nat {
    Lit(from + i + 1)
  }

  function Numbers(from: nat, count: nat): (r: seq<nat>)
    ensures |r| == count && forall i :: 0 <= i < count ==> r[i] == NumberAt(from, i)
  {
    seq(count, i requires 0 <= i < count => NumberAt(from, i))
  }

  method RenumberInputs(a: Aiger, code: array<nat>)
    requires |a.inputs| < a.types.Length
    requires forall i :: 0 <= i < |a.inputs| ==> a.inputs[i] < code.Length && code[a.inputs[i]] == NumberAt(0, i)
    modifies a`inputs, a.types
    ensures a.inputs == Numbers(0, |old(a.inputs)|)
    ensures forall v :: 0 <= v < a.types.Length && (v == 0 || v > |a.inputs|) ==> a.types[v] == old(a.types[v])
    ensures forall v :: 1 <= v <= |a.inputs| ==> a.types[v] == old(a.types[v]).(input := true, idx := v - 1)
  {
    var i := 0;
    while i < |a.inputs|
      invariant 0 <= i <= |a.inputs| == |old(a.inputs)|
      invariant forall k :: 0 <= k < i ==> a.inputs[k] == NumberAt(0, k)
      invariant forall k :: i <= k < |a.inputs| ==> a.inputs[k] == old(a.inputs)[k]
      invariant forall v :: 0 <= v < a.types.Length && (v == 0 || v > i) ==> a.types[v] == old(a.types[v])
      invariant forall v :: 1 <= v <= i ==> a.types[v] == old(a.types[v]).(input := true, idx := v - 1)
    {
      a.inputs := a.inputs[i := code[a.inputs[i]]];
      var v := Var(a.inputs[i]);
      assert v == i + 1;
      a.types[v] := a.types[v].(input := true, idx := i);
      i := i + 1;
    }
  }

  function Relit(latches: seq<Latch>, lits: seq<nat>): (r: seq<Latch>)
    requires |latches| == |lits|
    ensures LatchLits(r) == lits && NextLits(r) == NextLits(latches) && ResetLits(r) == ResetLits(latches)
    ensures |r| == |latches| && forall i :: 0 <= i < |r| ==> r[i] == latches[i].(lit := lits[i])
  {
    seq(|latches|, i requires 0 <= i < |latches| => latches[i].(lit := lits[i]))
  }

  method RenumberLatches(a: Aiger, code: array<nat>, ghost inputs: nat)
    requires inputs + |a.latches| < a.types.Length
    requires forall i :: 0 <= i < |a.latches| ==>
               a.latches[i].lit < code.Length && code[a.latches[i].lit] == NumberAt(inputs, i)
    modifies a`latches, a.types
    ensures a.latches == Relit(old(a.latches), Numbers(inputs, |old(a.latches)|))
    ensures forall v :: 0 <= v < a.types.Length && (v <= inputs || v > inputs + |a.latches|) ==> a.types[v] == old(a.types[v])
    ensures forall v :: inputs < v <= inputs + |a.latches| ==>
              a.types[v] == old(a.types[v]).(latch := true, idx := v - inputs - 1)
  {
    var i := 0;
    while i < |a.latches|
      invariant 0 <= i <= |a.latches| == |old(a.latches)|
      invariant forall k :: 0 <= k < i ==> a.latches[k] == old(a.latches)[k].(lit := NumberAt(inputs, k))
      invariant forall k :: i <= k < |a.latches| ==> a.latches[k] == old(a.latches)[k]
      invariant forall v :: 0 <= v < a.types.Length && (v <= inputs || v > inputs + i) ==> a.types[v] == old(a.types[v])
      invariant forall v :: inputs < v <= inputs + i ==> a.types[v] == old(a.types[v]).(latch := true, idx := v - inputs - 1)
    {
      a.latches := a.latches[i := a.latches[i].(lit := code[a.latches[i].lit])];
      var v := Var(a.latches[i].lit);
      assert v == inputs + i + 1;
      a.types[v] := a.types[v].(latch := true, idx := i);
      i := i + 1;
    }
  }

  /** Rebuilds the types and renumbers the input and latch literals. */
  method FixTypes(a: Aiger, code: array<nat>)
    requires |a.inputs| + |a.latches| + |a.ands| == a.maxvar < a.types.Length
    requires forall k :: 0 <= k < |a.ands| ==> a.ands[k].lhs == Lit(|a.inputs| + |a.latches| + k + 1)
    requires forall i :: 0 <= i < |a.inputs| ==> a.inputs[i] < code.Length && code[a.inputs[i]] == NumberAt(0, i)
    requires forall i :: 0 <= i < |a.latches| ==>
               a.latches[i].lit < code.Length && code[a.latches[i].lit] == NumberAt(|a.inputs|, i)
    modifies a`inputs, a`latches, a.types
    ensures a.inputs == Numbers(0, |old(a.inputs)|)
    ensures a.latches == Relit(old(a.latches), Numbers(|a.inputs|, |old(a.latches)|))
    ensures forall v :: 1 <= v <= a.maxvar ==>
              a.types[v] == CanonicalType(old(a.types[v]), |a.inputs|, |a.inputs| + |a.latches|, v)
    ensures CanonicalTypes(a.types[..], |a.inputs|, |a.inputs| + |a.latches|, a.maxvar)
  {
    ghost var inputs, leaves := |a.inputs|, |a.inputs| + |a.latches|;
    ResetTypes(a.types, a.maxvar);
    ghost var blank := a.types[..];
    TypeGates(a, leaves);
    ghost var gates := a.types[..];
    RenumberInputs(a, code);
    ghost var typed := a.types[..];
    RenumberLatches(a, code, inputs);
    forall v | 1 <= v <= a.maxvar ensures a.types[v] == CanonicalType(old(a.types[v]), inputs, leaves, v) {
      assert blank[v] == Blank(old(a.types[v]));
      if v <= inputs {
        assert gates[v] == blank[v] && a.types[v] == typed[v];
      } else if v <= leaves {
        assert typed[v] == gates[v] == blank[v];
      } else {
        assert a.types[v] == typed[v] == gates[v];
      }
    }
  }

  // ---------- The test for canonical numbering ----------

  /** What the test checks: it lets a gate read itself, which the acyclicity check rules out. */
  predicate Reencoded(net: Network) {
    var leaves := |net.inputs| + |net.latches|;
    && (forall i :: 0 <= i < |net.inputs| ==> net.inputs[i] == Lit(i + 1))
    && (forall i :: 0 <= i < |net.latches| ==> net.latches[i].lit == Lit(|net.inputs| + i + 1))
    && forall k :: 0 <= k < |net.ands| ==>
      net.ands[k].lhs == Lit(leaves + k + 1) && net.ands[k].lhs >= net.ands[k].rhs0 >= net.ands[k].rhs1
  }

  lemma ReencodedIsCanonical(net: Network)
    requires Rankable(net.ands)
    ensures Reencoded(net) <==> Canonical(net)
  {
    var rank :| Ranked(net.ands, rank);
    if Reencoded(net) {
      forall k | 0 <= k < |net.ands| ensures net.ands[k].lhs != net.ands[k].rhs0 {
        var v := Var(net.ands[k].lhs);
        if net.ands[k].lhs == net.ands[k].rhs0 { assert Feeds(net.ands, v, v); }
      }
    }
  }

  /** In canonical numbering the variable itself is a rank. */
  lemma CanonicalRankable(net: Network)
    requires Canonical(net)
    ensures Rankable(net.ands)
  {
    var rank: nat -> nat := v => v;
    assert Ranked(net.ands, rank);
  }

  method MaxInputOrLatch(a: Aiger) returns (res: nat)
    ensures forall i :: 0 <= i < |a.inputs| ==> a.inputs[i] <= res
    ensures forall i :: 0 <= i < |a.latches| ==> a.latches[i].lit <= res
    ensures res == 0 || res in a.inputs || exists i :: 0 <= i < |a.latches| && a.latches[i].lit == res
  {
    res := 0;
    var i := 0;
    while i < |a.inputs|
      invariant 0 <= i <= |a.inputs|
      invariant forall k :: 0 <= k < i ==> a.inputs[k] <= res
      invariant res == 0 || res in a.inputs
    {
      if a.inputs[i] > res { res := a.inputs[i]; }
      i := i + 1;
    }
    i := 0;
    while i < |a.latches|
      invariant 0 <= i <= |a.latches|
      invariant forall k :: 0 <= k < |a.inputs| ==> a.inputs[k] <= res
      invariant forall k :: 0 <= k < i ==> a.latches[k].lit <= res
      invariant res == 0 || res in a.inputs || exists k :: 0 <= k < |a.latches| && a.latches[k].lit == res
    {
      if a.latches[i].lit > res { res := a.latches[i].lit; }
      i := i + 1;
    }
  }

  method IsReencoded(a: Aiger) returns (r: bool)
    ensures r <==> Reencoded(a.View())
  {
    var max := 0;
    var i := 0;
    while i < |a.inputs|
      invariant 0 <= i <= |a.inputs| && max == Lit(i)
      invariant forall k :: 0 <= k < i ==> a.inputs[k] == Lit(k + 1)
    {
      max := max + 2;
      if max != a.inputs[i] { return false; }
      i := i + 1;
    }
    i := 0;
    while i < |a.latches|
      invariant 0 <= i <= |a.latches| && max == Lit(|a.inputs| + i)
      invariant forall k :: 0 <= k < i ==> a.latches[k].lit == Lit(|a.inputs| + k + 1)
    {
      max := max + 2;
      if max != a.latches[i].lit { return false; }
      i := i + 1;
    }
    var lhs := MaxInputOrLatch(a);
    MaxIsLast(a.inputs, a.latches, lhs);
    r := GatesInOrder(a.ands, max, lhs + 2, |a.inputs| + |a.latches|);
  }

  method GatesInOrder(ands: seq<And>, max: nat, first: nat, ghost leaves: nat) returns (r: bool)
    requires max == Lit(leaves) && first == Lit(leaves + 1)
    ensures r <==> forall k :: 0 <= k < |ands| ==> ands[k].lhs == Lit(leaves + k + 1) && ands[k].lhs >= ands[k].rhs0 >= ands[k].rhs1
  {
    var lhs := first;
    var i := 0;
    while i < |ands|
      invariant 0 <= i <= |ands| && lhs == Lit(leaves + i + 1)
      invariant forall k :: 0 <= k < i ==> ands[k].lhs == Lit(leaves + k + 1) && ands[k].lhs >= ands[k].rhs0 >= ands[k].rhs1
    {
      var gate := ands[i];
      if gate.lhs <= max { return false; }
      if gate.lhs != lhs { return false; }
      if gate.lhs < gate.rhs0 { return false; }
      if gate.rhs0 < gate.rhs1 { return false; }
      lhs := lhs + 2;
      i := i + 1;
    }
    return true;
  }

  lemma MaxIsLast(inputs: seq<nat>, latches: seq<Latch>, max: nat)
    requires forall i :: 0 <= i < |inputs| ==> inputs[i] == Lit(i + 1)
    requires forall i :: 0 <= i < |latches| ==> latches[i].lit == Lit(|inputs| + i + 1)
    requires forall i :: 0 <= i < |inputs| ==> inputs[i] <= max
    requires forall i :: 0 <= i < |latches| ==> latches[i].lit <= max
    requires max == 0 || max in inputs || exists i :: 0 <= i < |latches| && latches[i].lit == max
    ensures max == Lit(|inputs| + |latches|)
  {
    if |latches| > 0 {
      assert latches[|latches| - 1].lit <= max;
    } else if |inputs| > 0 {
      assert inputs[|inputs| - 1] <= max;
    }
  }

  // ---------- The rewritten network ----------

  predicate CanonicalTypes(types: seq<VarType>, inputs: nat, leaves: nat, maxvar: nat)
    requires maxvar < |types| && inputs <= leaves
  {
    forall v :: 1 <= v <= maxvar ==> types[v] == CanonicalType(types[v], inputs, leaves, v)
  }

  lemma CanonicalWellTyped(types: seq<VarType>, net: Network, maxvar: nat)
    requires Canonical(net) && maxvar == |net.inputs| + |net.latches| + |net.ands| < |types|
    requires CanonicalTypes(types, |net.inputs|, |net.inputs| + |net.latches|, maxvar) && RootsInRange(net, maxvar)
    ensures WellTyped(types, net, maxvar)
  {
    CanonicalGatesTyped(types, net, maxvar);
    CanonicalInputsTyped(types, net, maxvar);
    CanonicalLatchesTyped(types, net, maxvar);
  }

  lemma CanonicalGatesTyped(types: seq<VarType>, net: Network, maxvar: nat)
    requires Canonical(net) && maxvar == |net.inputs| + |net.latches| + |net.ands| < |types|
    requires CanonicalTypes(types, |net.inputs|, |net.inputs| + |net.latches|, maxvar)
    ensures GatesTyped(types, net.ands, maxvar)
  {
    var inputs, leaves := |net.inputs|, |net.inputs| + |net.latches|;
    forall k | 0 <= k < |net.ands| ensures GateTyped(types, net.ands[k], k, maxvar) {
      var v := leaves + k + 1;
      assert types[v] == CanonicalType(types[v], inputs, leaves, v);
    }
    forall v | 1 <= v <= maxvar && types[v].isAnd
      ensures types[v].idx < |net.ands| && net.ands[types[v].idx].lhs == Lit(v)
    {
      assert types[v] == CanonicalType(types[v], inputs, leaves, v);
      assert v == leaves + types[v].idx + 1;
    }
  }

  lemma CanonicalInputsTyped(types: seq<VarType>, net: Network, maxvar: nat)
    requires Canonical(net) && maxvar == |net.inputs| + |net.latches| + |net.ands| < |types|
    requires CanonicalTypes(types, |net.inputs|, |net.inputs| + |net.latches|, maxvar)
    ensures forall i :: 0 <= i < |net.inputs| ==> InputTyped(types, net.inputs[i], i, maxvar)
    ensures forall v :: 1 <= v <= maxvar && types[v].input ==>
              types[v].idx < |net.inputs| && net.inputs[types[v].idx] == Lit(v)
  {
    var inputs, leaves := |net.inputs|, |net.inputs| + |net.latches|;
    forall i | 0 <= i < inputs ensures InputTyped(types, net.inputs[i], i, maxvar) {
      assert types[i + 1] == CanonicalType(types[i + 1], inputs, leaves, i + 1);
    }
    forall v | 1 <= v <= maxvar && types[v].input
      ensures types[v].idx < |net.inputs| && net.inputs[types[v].idx] == Lit(v)
    {
      assert types[v] == CanonicalType(types[v], inputs, leaves, v);
      assert v == types[v].idx + 1;
    }
  }

  lemma CanonicalLatchesTyped(types: seq<VarType>, net: Network, maxvar: nat)
    requires Canonical(net) && maxvar == |net.inputs| + |net.latches| + |net.ands| < |types|
    requires CanonicalTypes(types, |net.inputs|, |net.inputs| + |net.latches|, maxvar)
    ensures forall i :: 0 <= i < |net.latches| ==> LatchTyped(types, net.latches[i].lit, i, maxvar)
    ensures forall v :: 1 <= v <= maxvar && types[v].latch ==>
              types[v].idx < |net.latches| && net.latches[types[v].idx].lit == Lit(v)
  {
    var inputs, leaves := |net.inputs|, |net.inputs| + |net.latches|;
    forall i | 0 <= i < |net.latches| ensures LatchTyped(types, net.latches[i].lit, i, maxvar) {
      var v := inputs + i + 1;
      assert types[v] == CanonicalType(types[v], inputs, leaves, v);
    }
    forall v | 1 <= v <= maxvar && types[v].latch
      ensures types[v].idx < |net.latches| && net.latches[types[v].idx].lit == Lit(v)
    {
      assert types[v] == CanonicalType(types[v], inputs, leaves, v);
      assert v == inputs + types[v].idx + 1;
    }
  }

  lemma CanonicalDefined(types: seq<VarType>, net: Network, maxvar: nat)
    requires Canonical(net) && maxvar == |net.inputs| + |net.latches| + |net.ands| < |types|
    requires CanonicalTypes(types, |net.inputs|, |net.inputs| + |net.latches|, maxvar) && RootsInRange(net, maxvar)
    ensures NetworkDefined(types, net)
  {
    forall lits | InRange(lits, maxvar) ensures AllDefined(types, lits) {
      forall i | 0 <= i < |lits| ensures Var(lits[i]) < |types| && LiteralDefined(types, lits[i]) {
        var v := Var(lits[i]);
        assert v >= 1 ==> types[v] == CanonicalType(types[v], |net.inputs|, |net.inputs| + |net.latches|, v);
      }
    }
    var gates := GateLits(net.ands);
    forall i | 0 <= i < |gates| ensures Var(gates[i]) <= maxvar {
      var gate := net.ands[i / 2];
      assert gate.lhs == Lit(|net.inputs| + |net.latches| + i / 2 + 1);
    }
    assert InRange(gates, maxvar);
  }

  lemma RenamedInRange(num: seq<nat>, olds: seq<nat>, news: seq<nat>)
    requires RenamedList(num, olds, news)
    ensures InRange(news, |num|)
  {
    forall i | 0 <= i < |news| ensures Var(news[i]) <= |num| {
      assert Named(num, olds[i]);
      assert Rename(num, olds[i]) <= Lit(|num|) + 1;
    }
  }

  /** The code table at the start: only the constants. */
  method NewCodeTable(maxvar: nat) returns (code: array<nat>)
    ensures fresh(code) && Numbered(code[..], [], maxvar)
  {
    code := new nat[2 * (maxvar + 1)](_ => 0);
    code[1] := 1;
    forall v | 1 <= v <= maxvar ensures CodeOf(code[..], [], v) {
      assert Lit(v) + 1 < code.Length;
    }
  }
}
