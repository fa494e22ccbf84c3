/** The renumbering of a whole AIGER network: canonical, and with the same behaviour. */
module AigerRenumbering {
  import opened Sequences
  import opened AigerNetwork
  import opened AigerTraversal
  import opened AigerCycles
  import opened AigerNumbering
  import opened AigerCone
  import opened AigerLibrary
  import opened AigerReencode
  import opened AigerGateOrder

  // ---------- Renamed literals ----------

  predicate RenamedList(num: seq<nat>, olds: seq<nat>, news: seq<nat>) {
    |olds| == |news| && forall i :: 0 <= i < |olds| ==> Named(num, olds[i]) && news[i] == Rename(num, olds[i])
  }

  lemma RenamedListStable(num: seq<nat>, more: seq<nat>, olds: seq<nat>, news: seq<nat>)
    requires num <= more && RenamedList(num, olds, news)
    ensures RenamedList(more, olds, news)
  {
    forall i | 0 <= i < |olds| ensures Named(more, olds[i]) && news[i] == Rename(more, olds[i]) {
      assert Named(num, olds[i]);
      RenameStable(num, more, olds[i]);
      if olds[i] >= 2 { PositionStable(num, more, Var(olds[i])); }
    }
  }

  predicate RenamedLists(num: seq<nat>, olds: seq<seq<nat>>, news: seq<seq<nat>>) {
    |olds| == |news| && forall i :: 0 <= i < |olds| ==> RenamedList(num, olds[i], news[i])
  }

  ghost predicate RenamedRoots(num: seq<nat>, a: Network, b: Network) {
    && RenamedList(num, NextLits(a.latches), NextLits(b.latches))
    && RenamedList(num, ResetLits(a.latches), ResetLits(b.latches))
    && RenamedList(num, a.outputs, b.outputs) && RenamedList(num, a.bad, b.bad)
    && RenamedList(num, a.constraints, b.constraints) && RenamedLists(num, a.justice, b.justice)
    && RenamedList(num, a.fairness, b.fairness)
  }

  // ---------- Renaming keeps the behaviour ----------

  ghost predicate Agrees(num: seq<nat>, v: Valuation, w: Valuation) {
    !v(0) && !w(0) && forall i :: 0 <= i < |num| ==> w(i + 1) == v(num[i])
  }

  lemma RenamedListSame(num: seq<nat>, olds: seq<nat>, news: seq<nat>, v: Valuation, w: Valuation)
    requires Distinct(num) && RenamedList(num, olds, news) && Agrees(num, v, w)
    ensures SameValues(v, olds, w, news)
  {
    forall i | 0 <= i < |olds| ensures LitValue(v, olds[i]) == LitValue(w, news[i]) {
      assert Named(num, olds[i]);
      if olds[i] >= 2 {
        var p := Position(num, Var(olds[i]));
        assert num[p - 1] == Var(olds[i]);
        assert w(p - 1 + 1) == v(num[p - 1]);
      }
      RenamedLiteral(num, v, w, olds[i]);
    }
  }

  lemma RenamedRootsSame(num: seq<nat>, a: Network, b: Network, v: Valuation, w: Valuation)
    requires Distinct(num) && RenamedRoots(num, a, b) && Agrees(num, v, w)
    ensures SameRoots(a, v, b, w)
  {
    RenamedListSame(num, NextLits(a.latches), NextLits(b.latches), v, w);
    RenamedListSame(num, ResetLits(a.latches), ResetLits(b.latches), v, w);
    RenamedListSame(num, a.outputs, b.outputs, v, w);
    RenamedListSame(num, a.bad, b.bad, v, w);
    RenamedListSame(num, a.constraints, b.constraints, v, w);
    forall i | 0 <= i < |a.justice| ensures SameValues(v, a.justice[i], w, b.justice[i]) {
      RenamedListSame(num, a.justice[i], b.justice[i], v, w);
    }
    RenamedListSame(num, a.fairness, b.fairness, v, w);
  }

  /** The variables of the inputs and latches in the order in which they are numbered. */
  function LeafVars(inputs: seq<nat>, latches: seq<Latch>): (r: seq<nat>)
    ensures |r| == |inputs| + |latches|
  {
    seq(|inputs| + |latches|, i requires 0 <= i < |inputs| + |latches| =>
      if i < |inputs| then Var(inputs[i]) else Var(latches[i - |inputs|].lit))
  }

  /** b is a renumbered along num. */
  ghost predicate RenumberedAlong(num: seq<nat>, a: Network, b: Network) {
    var leaves := LeafCount(a);
    && WellDefined(a.ands) && Distinct(num) && (forall i :: 0 <= i < |num| ==> num[i] >= 1)
    && Topological(a.ands, num, leaves) && num[..leaves] == LeafVars(a.inputs, a.latches)
    && Renumbered(a.ands, num, leaves, b.ands) && RenamedRoots(num, a, b)
    && RenamedList(num, a.inputs, b.inputs) && RenamedList(num, LatchLits(a.latches), LatchLits(b.latches))
  }

  function LeafLit(net: Network, i: nat): nat
    requires i < |net.inputs| + |net.latches|
  {
    if i < |net.inputs| then net.inputs[i] else net.latches[i - |net.inputs|].lit
  }

  lemma LeafNumber(num: seq<nat>, a: Network, b: Network, i: nat)
    requires RenumberedAlong(num, a, b) && i < |a.inputs| + |a.latches|
    ensures |a.inputs| == |b.inputs| && |a.latches| == |b.latches| && i < |num|
    ensures num[i] == Var(LeafLit(a, i)) && LeafLit(b, i) == Lit(i + 1) + LeafLit(a, i) % 2
  {
    var leaf := LeafVars(a.inputs, a.latches)[i];
    assert num[..|a.inputs| + |a.latches|][i] == leaf;
    PositionAt(num, i);
    if i >= |a.inputs| {
      assert LatchLits(a.latches)[i - |a.inputs|] == a.latches[i - |a.inputs|].lit;
      assert LatchLits(b.latches)[i - |a.inputs|] == b.latches[i - |a.inputs|].lit;
    }
  }

  lemma LeafValue(num: seq<nat>, a: Network, b: Network, v: Valuation, w: Valuation, i: nat)
    requires RenumberedAlong(num, a, b) && i < |a.inputs| + |a.latches|
    requires SameValues(v, a.inputs, w, b.inputs) && SameValues(v, LatchLits(a.latches), w, LatchLits(b.latches))
    ensures i < |num| && w(i + 1) == v(num[i])
  {
    LeafNumber(num, a, b, i);
    LeafLitSame(a, b, v, w, i);
    SameVariable(v, w, LeafLit(a, i), LeafLit(b, i), i + 1);
  }

  lemma LeafLitSame(a: Network, b: Network, v: Valuation, w: Valuation, i: nat)
    requires |a.inputs| == |b.inputs| && |a.latches| == |b.latches| && i < |a.inputs| + |a.latches|
    requires SameValues(v, a.inputs, w, b.inputs) && SameValues(v, LatchLits(a.latches), w, LatchLits(b.latches))
    ensures LitValue(v, LeafLit(a, i)) == LitValue(w, LeafLit(b, i))
  {
    if i >= |a.inputs| {
      var l := i - |a.inputs|;
      assert LitValue(v, LatchLits(a.latches)[l]) == LitValue(w, LatchLits(b.latches)[l]);
    }
  }

  lemma SameVariable(v: Valuation, w: Valuation, lit: nat, mapped: nat, u: nat)
    requires LitValue(v, lit) == LitValue(w, mapped) && mapped == Lit(u) + lit % 2
    ensures w(u) == v(Var(lit))
  {
    assert Var(mapped) == u && mapped % 2 == lit % 2;
  }

  /** A network and its renumbering compute the same functions. */
  lemma RenumberingKeepsBehaviour(num: seq<nat>, a: Network, b: Network)
    requires RenumberedAlong(num, a, b)
    ensures SameBehaviour(a, b)
  {
    forall v: Valuation, w: Valuation |
      && Consistent(a.ands, v) && Consistent(b.ands, w)
      && SameValues(v, a.inputs, w, b.inputs) && SameValues(v, LatchLits(a.latches), w, LatchLits(b.latches))
      ensures SameRoots(a, v, b, w)
    {
      AllValuesKept(num, a, b, v, w);
      RenamedRootsSame(num, a, b, v, w);
    }
  }

  lemma AllValuesKept(num: seq<nat>, a: Network, b: Network, v: Valuation, w: Valuation)
    requires RenumberedAlong(num, a, b) && Consistent(a.ands, v) && Consistent(b.ands, w)
    requires SameValues(v, a.inputs, w, b.inputs) && SameValues(v, LatchLits(a.latches), w, LatchLits(b.latches))
    ensures Agrees(num, v, w)
  {
    AllLeavesKept(num, a, b, v, w);
    forall i | 0 <= i < |num| ensures w(i + 1) == v(num[i]) {
      ValueKept(num, a, b, v, w, i);
    }
  }

  lemma ValueKept(num: seq<nat>, a: Network, b: Network, v: Valuation, w: Valuation, i: nat)
    requires RenumberedAlong(num, a, b) && Consistent(a.ands, v) && Consistent(b.ands, w) && i < |num|
    requires LeavesKept(num, LeafCount(a), v, w)
    ensures w(i + 1) == v(num[i])
  {
    ValuesKept(a.ands, num, LeafCount(a), b.ands, v, w, i);
  }

  lemma AllLeavesKept(num: seq<nat>, a: Network, b: Network, v: Valuation, w: Valuation)
    requires RenumberedAlong(num, a, b)
    requires SameValues(v, a.inputs, w, b.inputs) && SameValues(v, LatchLits(a.latches), w, LatchLits(b.latches))
    ensures LeavesKept(num, LeafCount(a), v, w)
  {
    forall l | 0 <= l < |a.inputs| + |a.latches| ensures w(l + 1) == v(num[l]) {
      LeafValue(num, a, b, v, w, l);
    }
  }

  /** The renumbered gates are consecutive and sorted topologically. */
  lemma RenumberingIsCanonical(num: seq<nat>, a: Network, b: Network)
    requires RenumberedAlong(num, a, b)
    requires forall i :: 0 <= i < |a.inputs| ==> a.inputs[i] % 2 == 0
    requires forall i :: 0 <= i < |a.latches| ==> a.latches[i].lit % 2 == 0
    ensures Canonical(b)
  {
    LeavesCanonical(num, a, b);
    var leaves := LeafCount(a);
    forall k | 0 <= k < |b.ands|
      ensures b.ands[k].lhs == Lit(leaves + k + 1) && b.ands[k].lhs > b.ands[k].rhs0 >= b.ands[k].rhs1
    {
      assert GateAt(a.ands, num, leaves + k, b.ands[k]);
      GateIsAbove(num, a.ands, leaves, leaves + k, b.ands[k]);
    }
  }

  lemma LeavesCanonical(num: seq<nat>, a: Network, b: Network)
    requires RenumberedAlong(num, a, b)
    requires forall i :: 0 <= i < |a.inputs| ==> a.inputs[i] % 2 == 0
    requires forall i :: 0 <= i < |a.latches| ==> a.latches[i].lit % 2 == 0
    ensures |b.inputs| == |a.inputs| && |b.latches| == |a.latches|
    ensures forall i :: 0 <= i < |b.inputs| ==> b.inputs[i] == Lit(i + 1)
    ensures forall i :: 0 <= i < |b.latches| ==> b.latches[i].lit == Lit(|b.inputs| + i + 1)
  {
    assert |LatchLits(b.latches)| == |LatchLits(a.latches)|;
    forall i | 0 <= i < |b.inputs| ensures b.inputs[i] == Lit(i + 1) {
      LeafNumber(num, a, b, i);
    }
    forall i | 0 <= i < |b.latches| ensures b.latches[i].lit == Lit(|b.inputs| + i + 1) {
      LeafNumber(num, a, b, |a.inputs| + i);
    }
  }

  lemma GateIsAbove(num: seq<nat>, ands: seq<And>, leaves: nat, i: nat, gate: And)
    requires Distinct(num) && Topological(ands, num, leaves) && leaves <= i < |num| && num[i] >= 1
    requires GateAt(ands, num, i, gate)
    ensures gate.lhs == Lit(i + 1) && gate.lhs > gate.rhs0 >= gate.rhs1
  {
    var j :| 0 <= j < |ands| && ands[j].lhs == Lit(num[i]) && gate == RenamedGate(num, ands[j]);
    PositionAt(num, i);
    RenamedBelow(num, ands, leaves, i, j, ands[j].rhs0);
    RenamedBelow(num, ands, leaves, i, j, ands[j].rhs1);
  }

  lemma RenamedBelow(num: seq<nat>, ands: seq<And>, leaves: nat, i: nat, j: nat, lit: nat)
    requires Topological(ands, num, leaves) && leaves <= i < |num| && j < |ands| && ands[j].lhs == Lit(num[i])
    requires lit == ands[j].rhs0 || lit == ands[j].rhs1
    ensures Rename(num, lit) < Lit(i + 1)
  {
    if lit >= 2 {
      assert Feeds(ands, num[i], Var(lit));
      PositionBefore(num, i, Var(lit));
    }
  }

  // ---------- Numbering the inputs and latches ----------

  lemma LeafTyped(types: seq<VarType>, net: Network, maxvar: nat, i: nat)
    requires WellTyped(types, net, maxvar) && i < |net.inputs| + |net.latches|
    ensures var v := LeafVars(net.inputs, net.latches)[i];
      && 1 <= v <= maxvar && !types[v].isAnd && (types[v].input || types[v].latch)
      && (types[v].input <==> i < |net.inputs|) && (types[v].latch <==> i >= |net.inputs|)
      && types[v].idx == if i < |net.inputs| then i else i - |net.inputs|
  {
    if i < |net.inputs| {
      assert InputTyped(types, net.inputs[i], i, maxvar);
    } else {
      assert LatchTyped(types, net.latches[i - |net.inputs|].lit, i - |net.inputs|, maxvar);
    }
  }

  lemma LeavesInRange(types: seq<VarType>, net: Network, maxvar: nat)
    requires WellTyped(types, net, maxvar)
    ensures forall v :: v in LeafVars(net.inputs, net.latches) ==> 1 <= v <= maxvar
  {
    var vars := LeafVars(net.inputs, net.latches);
    forall v | v in vars ensures 1 <= v <= maxvar {
      var i :| 0 <= i < |vars| && vars[i] == v;
      LeafTyped(types, net, maxvar, i);
    }
  }

  /** No variable is listed twice. */
  lemma LeavesDistinct(types: seq<VarType>, net: Network, maxvar: nat)
    requires WellTyped(types, net, maxvar)
    ensures Distinct(LeafVars(net.inputs, net.latches))
  {
    var vars := LeafVars(net.inputs, net.latches);
    forall i, j | 0 <= i < j < |vars| ensures vars[i] != vars[j] {
      LeafTyped(types, net, maxvar, i);
      LeafTyped(types, net, maxvar, j);
    }
  }

  /** Inputs and latches are numbered. */
  ghost predicate LeavesNamed(types: seq<VarType>, maxvar: nat, num: seq<nat>)
    requires maxvar < |types|
  {
    forall v :: 1 <= v <= maxvar && (types[v].input || types[v].latch) ==> v in num
  }

  lemma AllLeavesNamed(types: seq<VarType>, net: Network, maxvar: nat)
    requires WellTyped(types, net, maxvar)
    ensures LeavesNamed(types, maxvar, LeafVars(net.inputs, net.latches))
  {
    var vars := LeafVars(net.inputs, net.latches);
    forall v | 1 <= v <= maxvar && (types[v].input || types[v].latch) ensures v in vars {
      if types[v].input {
        assert vars[types[v].idx] == v;
      } else {
        assert vars[|net.inputs| + types[v].idx] == v;
      }
    }
  }

  /** With the inputs and latches numbered, the traversals can start. */
  lemma LeavesReady(types: seq<VarType>, net: Network, maxvar: nat, code: seq<nat>)
    requires WellTyped(types, net, maxvar) && NetworkDefined(types, net) && Rankable(net.ands)
    requires OnStack(types, maxvar, []) && Numbered(code, LeafVars(net.inputs, net.latches), maxvar)
    ensures Ready(types, net.ands, maxvar, code, LeafVars(net.inputs, net.latches), LeafCount(net))
  {
    var num := LeafVars(net.inputs, net.latches);
    RankedAcyclic(net.ands);
    AllLeavesNamed(types, net, maxvar);
    NoGateIsLeaf(types, net, maxvar);
    forall v, c | Feeds(net.ands, v, c) ensures IsGate(net.ands, c) || c in num {
      DefinedInput(types, net.ands, maxvar, v, c);
    }
    forall i | 0 <= i < |num| ensures !IsGate(net.ands, num[i]) {
      LeafTyped(types, net, maxvar, i);
      TypedGate(types, net.ands, maxvar, num[i]);
    }
  }

  lemma NoGateIsLeaf(types: seq<VarType>, net: Network, maxvar: nat)
    requires WellTyped(types, net, maxvar)
    ensures forall v :: 1 <= v <= maxvar && types[v].isAnd ==> !types[v].input && !types[v].latch
  {
    forall v | 1 <= v <= maxvar && (types[v].input || types[v].latch) ensures !types[v].isAnd {
      if types[v].input {
        assert InputTyped(types, net.inputs[types[v].idx], types[v].idx, maxvar);
      } else {
        assert LatchTyped(types, net.latches[types[v].idx].lit, types[v].idx, maxvar);
      }
    }
  }

  method NumberLeaves(a: Aiger, code: array<nat>) returns (unused: nat, ghost num: seq<nat>)
    requires a.Valid() && Numbered(code[..], [], a.maxvar)
    modifies code
    ensures num == LeafVars(a.inputs, a.latches) && Numbered(code[..], num, a.maxvar) && unused == Lit(|num| + 1)
  {
    ghost var vars := LeafVars(a.inputs, a.latches);
    LeavesDistinct(a.types[..], a.View(), a.maxvar);
    LeavesInRange(a.types[..], a.View(), a.maxvar);
    unused, num := 2, [];
    var i := 0;
    while i < |a.inputs|
      invariant 0 <= i <= |a.inputs| && num == vars[..i] && unused == Lit(i + 1)
      invariant Numbered(code[..], num, a.maxvar)
    {
      unused, num := NumberLeaf(vars, a.maxvar, i, Var(a.inputs[i]), unused, code, num);
      i := i + 1;
    }
    i := 0;
    while i < |a.latches|
      invariant 0 <= i <= |a.latches| && num == vars[..|a.inputs| + i] && unused == Lit(|a.inputs| + i + 1)
      invariant Numbered(code[..], num, a.maxvar)
    {
      unused, num := NumberLeaf(vars, a.maxvar, |a.inputs| + i, Var(a.latches[i].lit), unused, code, num);
      i := i + 1;
    }
    assert vars[..|vars|] == vars;
  }

  method NumberLeaf(ghost vars: seq<nat>, ghost maxvar: nat, ghost i: nat, v: nat, unused: nat, code: array<nat>,
                    ghost num: seq<nat>)
    returns (next: nat, ghost more: seq<nat>)
    requires Distinct(vars) && i < |vars| && v == vars[i] && 1 <= v <= maxvar
    requires num == vars[..i] && unused == Lit(i + 1) && Numbered(code[..], num, maxvar)
    modifies code
    ensures more == vars[..i + 1] && next == Lit(i + 1 + 1) && Numbered(code[..], more, maxvar)
  {
    more := num + [v];
    NextIsNew(vars, i, num, more);
    NumberedMore(code[..], num, maxvar, v);
    next := NewCode(v, unused, code, |num| + 1);
  }

  lemma NextIsNew(vars: seq<nat>, i: nat, num: seq<nat>, more: seq<nat>)
    requires Distinct(vars) && i < |vars| && num == vars[..i] && more == num + [vars[i]]
    ensures vars[i] !in num && more == vars[..i + 1] && |num| == i
  {
  }

  // ---------- Renaming the roots ----------

  predicate Nameable(ands: seq<And>, maxvar: nat, num: seq<nat>, lit: nat) {
    Var(lit) <= maxvar && (lit < 2 || IsGate(ands, Var(lit)) || Var(lit) in num)
  }

  predicate AllNameable(ands: seq<And>, maxvar: nat, num: seq<nat>, lits: seq<nat>) {
    forall i :: 0 <= i < |lits| ==> Nameable(ands, maxvar, num, lits[i])
  }

  lemma DefinedNameable(types: seq<VarType>, net: Network, maxvar: nat, num: seq<nat>, lits: seq<nat>)
    requires WellTyped(types, net, maxvar) && LeavesNamed(types, maxvar, num)
    requires InRange(lits, maxvar) && AllDefined(types, lits)
    ensures AllNameable(net.ands, maxvar, num, lits)
  {
    forall i | 0 <= i < |lits| ensures Nameable(net.ands, maxvar, num, lits[i]) {
      assert LiteralDefined(types, lits[i]);
      if lits[i] >= 2 { TypedGate(types, net.ands, maxvar, Var(lits[i])); }
    }
  }

  method ReencodeList(a: Aiger, lits: seq<nat>, unused: nat, code: array<nat>, ghost first: seq<nat>, ghost num: seq<nat>,
                      ghost leaves: nat)
    returns (renamed: seq<nat>, next: nat, ghost more: seq<nat>)
    requires Ready(a.types[..], a.ands, a.maxvar, code[..], num, leaves) && unused == Lit(|num| + 1)
    requires AllNameable(a.ands, a.maxvar, first, lits) && first <= num
    modifies a.types, code
    ensures Ready(a.types[..], a.ands, a.maxvar, code[..], more, leaves) && next == Lit(|more| + 1)
    ensures ConeAdded(a.ands, num, more, SetOf(lits)) && RenamedList(more, lits, renamed)
    ensures SameKinds(old(a.types[..]), a.types[..])
  {
    renamed, next, more := [], unused, num;
    NothingAdded(a.ands, num, leaves, SetOf(lits[..0]));
    var i := 0;
    while i < |lits|
      invariant 0 <= i <= |lits|
      invariant Ready(a.types[..], a.ands, a.maxvar, code[..], more, leaves) && next == Lit(|more| + 1)
      invariant ConeAdded(a.ands, num, more, SetOf(lits[..i])) && RenamedList(more, lits[..i], renamed)
      invariant SameKinds(old(a.types[..]), a.types[..])
    {
      var lit;
      ghost var known := more;
      lit, next, more := ReencodeNext(a, lits, i, renamed, next, code, first, more, leaves, old(a.types[..]));
      OneMoreLit(lits, i);
      ConeAddedTwice(a.ands, num, known, more, SetOf(lits[..i]), {lits[i]}, SetOf(lits[..i + 1]));
      renamed := renamed + [lit];
      i := i + 1;
    }
    assert lits[..i] == lits;
  }

  method ReencodeNext(a: Aiger, lits: seq<nat>, i: nat, ghost renamed: seq<nat>, unused: nat, code: array<nat>,
                      ghost first: seq<nat>, ghost num: seq<nat>, ghost leaves: nat, ghost kinds: seq<VarType>)
    returns (lit: nat, next: nat, ghost more: seq<nat>)
    requires Ready(a.types[..], a.ands, a.maxvar, code[..], num, leaves) && unused == Lit(|num| + 1)
    requires i < |lits| && AllNameable(a.ands, a.maxvar, first, lits) && first <= num
    requires RenamedList(num, lits[..i], renamed) && SameKinds(kinds, a.types[..])
    modifies a.types, code
    ensures Ready(a.types[..], a.ands, a.maxvar, code[..], more, leaves) && next == Lit(|more| + 1)
    ensures ConeAdded(a.ands, num, more, {lits[i]}) && RenamedList(more, lits[..i + 1], renamed + [lit])
    ensures SameKinds(kinds, a.types[..])
  {
    assert Nameable(a.ands, a.maxvar, first, lits[i]);
    StillNameable(a.ands, a.maxvar, first, num, lits[i]);
    ghost var before := a.types[..];
    lit, next, more := ReencodeLit(a, lits[i], unused, code, num, leaves);
    RenamedPrefix(num, more, lits, i, renamed, lit);
    SameKindsTransitive(kinds, before, a.types[..]);
  }

  lemma RenamedPrefix(num: seq<nat>, more: seq<nat>, lits: seq<nat>, i: nat, renamed: seq<nat>, lit: nat)
    requires i < |lits| && num <= more && RenamedList(num, lits[..i], renamed)
    requires Named(more, lits[i]) && lit == Rename(more, lits[i])
    ensures RenamedList(more, lits[..i + 1], renamed + [lit])
  {
    RenamedListMore(num, more, lits[..i], renamed, lits[i], lit);
    assert lits[..i + 1] == lits[..i] + [lits[i]];
  }

  lemma StillNameable(ands: seq<And>, maxvar: nat, num: seq<nat>, more: seq<nat>, lit: nat)
    requires num <= more && Nameable(ands, maxvar, num, lit)
    ensures Nameable(ands, maxvar, more, lit)
  {
    if Var(lit) in num { PositionStable(num, more, Var(lit)); }
  }

  lemma RenamedListMore(num: seq<nat>, more: seq<nat>, olds: seq<nat>, news: seq<nat>, lit: nat, renamed: nat)
    requires num <= more && RenamedList(num, olds, news) && Named(more, lit) && renamed == Rename(more, lit)
    ensures RenamedList(more, olds + [lit], news + [renamed])
  {
    RenamedListStable(num, more, olds, news);
  }

  method ReencodeJustice(a: Aiger, unused: nat, code: array<nat>, ghost first: seq<nat>, ghost num: seq<nat>, ghost leaves: nat)
    returns (renamed: seq<seq<nat>>, next: nat, ghost more: seq<nat>)
    requires Ready(a.types[..], a.ands, a.maxvar, code[..], num, leaves) && unused == Lit(|num| + 1)
    requires (forall i :: 0 <= i < |a.justice| ==> AllNameable(a.ands, a.maxvar, first, a.justice[i])) && first <= num
    modifies a.types, code
    ensures Ready(a.types[..], a.ands, a.maxvar, code[..], more, leaves) && next == Lit(|more| + 1)
    ensures ConeAdded(a.ands, num, more, AllLits(a.justice)) && RenamedLists(more, a.justice, renamed)
    ensures SameKinds(old(a.types[..]), a.types[..])
  {
    renamed, next, more := [], unused, num;
    NothingAdded(a.ands, num, leaves, AllLits(a.justice[..0]));
    var i := 0;
    while i < |a.justice|
      invariant 0 <= i <= |a.justice|
      invariant Ready(a.types[..], a.ands, a.maxvar, code[..], more, leaves) && next == Lit(|more| + 1)
      invariant ConeAdded(a.ands, num, more, AllLits(a.justice[..i])) && RenamedLists(more, a.justice[..i], renamed)
      invariant SameKinds(old(a.types[..]), a.types[..])
    {
      ghost var kinds, before := a.types[..], more;
      var lits;
      lits, next, more := ReencodeList(a, a.justice[i], next, code, first, more, leaves);
      RenamedListsMore(before, more, a.justice, i, renamed, lits);
      ConeOfListAdded(a.ands, a.justice, i, num, before, more);
      renamed := renamed + [lits];
      SameKindsTransitive(old(a.types[..]), kinds, a.types[..]);
      i := i + 1;
    }
    assert a.justice[..i] == a.justice;
  }

  lemma RenamedListsMore(num: seq<nat>, more: seq<nat>, olds: seq<seq<nat>>, i: nat, news: seq<seq<nat>>, renamed: seq<nat>)
    requires i < |olds| && num <= more && RenamedLists(num, olds[..i], news) && RenamedList(more, olds[i], renamed)
    ensures RenamedLists(more, olds[..i + 1], news + [renamed])
  {
    RenamedListsStable(num, more, olds[..i], news);
    assert olds[..i + 1] == olds[..i] + [olds[i]];
  }

  lemma ConeOfListAdded(ands: seq<And>, lists: seq<seq<nat>>, i: nat, num: seq<nat>, before: seq<nat>, more: seq<nat>)
    requires i < |lists| && ConeAdded(ands, num, before, AllLits(lists[..i]))
    requires ConeAdded(ands, before, more, SetOf(lists[i]))
    ensures ConeAdded(ands, num, more, AllLits(lists[..i + 1]))
  {
    OneMoreList(lists, i);
    ConeAddedTwice(ands, num, before, more, AllLits(lists[..i]), SetOf(lists[i]), AllLits(lists[..i + 1]));
  }

  lemma RenamedListsStable(num: seq<nat>, more: seq<nat>, olds: seq<seq<nat>>, news: seq<seq<nat>>)
    requires num <= more && RenamedLists(num, olds, news)
    ensures RenamedLists(more, olds, news)
  {
    forall i | 0 <= i < |olds| ensures RenamedList(more, olds[i], news[i]) {
      RenamedListStable(num, more, olds[i], news[i]);
    }
  }

  /** The next-state and the reset literal of one latch. */
  method ReencodeLatch(a: Aiger, i: nat, ghost nexts: seq<nat>, ghost resets: seq<nat>, unused: nat, code: array<nat>,
                       ghost first: seq<nat>, ghost num: seq<nat>, ghost leaves: nat, ghost kinds: seq<VarType>)
    returns (lit: nat, reset: nat, next: nat, ghost more: seq<nat>)
    requires Ready(a.types[..], a.ands, a.maxvar, code[..], num, leaves) && unused == Lit(|num| + 1) && i < |a.latches|
    requires AllNameable(a.ands, a.maxvar, first, NextLits(a.latches)) && AllNameable(a.ands, a.maxvar, first, ResetLits(a.latches))
    requires ConeAdded(a.ands, first, num, LatchRoots(a.latches, i)) && SameKinds(kinds, a.types[..])
    requires RenamedList(num, NextLits(a.latches)[..i], nexts) && RenamedList(num, ResetLits(a.latches)[..i], resets)
    modifies a.types, code
    ensures Ready(a.types[..], a.ands, a.maxvar, code[..], more, leaves) && next == Lit(|more| + 1)
    ensures ConeAdded(a.ands, first, more, LatchRoots(a.latches, i + 1)) && SameKinds(kinds, a.types[..])
    ensures RenamedList(more, NextLits(a.latches)[..i + 1], nexts + [lit])
    ensures RenamedList(more, ResetLits(a.latches)[..i + 1], resets + [reset])
  {
    lit, next, more := ReencodeNext(a, NextLits(a.latches), i, nexts, unused, code, first, num, leaves, kinds);
    RenamedListStable(num, more, ResetLits(a.latches)[..i], resets);
    ghost var between := more;
    reset, next, more := ReencodeNext(a, ResetLits(a.latches), i, resets, next, code, first, more, leaves, kinds);
    RenamedListStable(between, more, NextLits(a.latches)[..i + 1], nexts + [lit]);
    OneMoreLatch(a.ands, a.latches, i, first, num, between, more);
  }

  /** The next-state and reset literals, latch by latch. */
  method ReencodeLatches(a: Aiger, unused: nat, code: array<nat>, ghost num: seq<nat>, ghost leaves: nat)
    returns (renamed: seq<Latch>, next: nat, ghost more: seq<nat>)
    requires Ready(a.types[..], a.ands, a.maxvar, code[..], num, leaves) && unused == Lit(|num| + 1)
    requires AllNameable(a.ands, a.maxvar, num, NextLits(a.latches)) && AllNameable(a.ands, a.maxvar, num, ResetLits(a.latches))
    modifies a.types, code
    ensures Ready(a.types[..], a.ands, a.maxvar, code[..], more, leaves) && next == Lit(|more| + 1)
    ensures ConeAdded(a.ands, num, more, SetOf(NextLits(a.latches)) + SetOf(ResetLits(a.latches)))
    ensures SameKinds(old(a.types[..]), a.types[..]) && LatchLits(renamed) == LatchLits(a.latches)
    ensures RenamedList(more, NextLits(a.latches), NextLits(renamed))
    ensures RenamedList(more, ResetLits(a.latches), ResetLits(renamed))
  {
    next, more := unused, num;
    var nexts: seq<nat>, resets: seq<nat> := [], [];
    NothingAdded(a.ands, num, leaves, LatchRoots(a.latches, 0));
    var i := 0;
    while i < |a.latches|
      invariant 0 <= i <= |a.latches|
      invariant Ready(a.types[..], a.ands, a.maxvar, code[..], more, leaves) && next == Lit(|more| + 1)
      invariant ConeAdded(a.ands, num, more, LatchRoots(a.latches, i))
      invariant RenamedList(more, NextLits(a.latches)[..i], nexts) && RenamedList(more, ResetLits(a.latches)[..i], resets)
      invariant SameKinds(old(a.types[..]), a.types[..])
    {
      var lit, reset;
      lit, reset, next, more := ReencodeLatch(a, i, nexts, resets, next, code, num, more, leaves, old(a.types[..]));
      nexts, resets := nexts + [lit], resets + [reset];
      i := i + 1;
    }
    AllLatches(a.ands, a.latches, i, num, more, nexts, resets);
    renamed := Rebuilt(a.latches, nexts, resets);
  }

  /** The roots of the first i latches. */
  function LatchRoots(latches: seq<Latch>, i: nat): set<nat>
    requires i <= |latches|
  {
    SetOf(NextLits(latches)[..i]) + SetOf(ResetLits(latches)[..i])
  }

  lemma OneMoreLatch(ands: seq<And>, latches: seq<Latch>, i: nat, num: seq<nat>, before: seq<nat>, between: seq<nat>,
                     more: seq<nat>)
    requires i < |latches| && ConeAdded(ands, num, before, LatchRoots(latches, i))
    requires ConeAdded(ands, before, between, {NextLits(latches)[i]})
    requires ConeAdded(ands, between, more, {ResetLits(latches)[i]})
    ensures ConeAdded(ands, num, more, LatchRoots(latches, i + 1))
  {
    var next, reset := {NextLits(latches)[i]}, {ResetLits(latches)[i]};
    ConeAddedTwice(ands, before, between, more, next, reset, next + reset);
    OneMoreLit(NextLits(latches), i);
    OneMoreLit(ResetLits(latches), i);
    ConeAddedTwice(ands, num, before, more, LatchRoots(latches, i), next + reset, LatchRoots(latches, i + 1));
  }

  lemma AllLatches(ands: seq<And>, latches: seq<Latch>, i: nat, num: seq<nat>, more: seq<nat>, nexts: seq<nat>, resets: seq<nat>)
    requires i == |latches| && ConeAdded(ands, num, more, LatchRoots(latches, i))
    requires RenamedList(more, NextLits(latches)[..i], nexts) && RenamedList(more, ResetLits(latches)[..i], resets)
    ensures ConeAdded(ands, num, more, SetOf(NextLits(latches)) + SetOf(ResetLits(latches)))
    ensures RenamedList(more, NextLits(latches), nexts) && RenamedList(more, ResetLits(latches), resets)
  {
    assert NextLits(latches)[..i] == NextLits(latches) && ResetLits(latches)[..i] == ResetLits(latches);
  }

  function Rebuilt(latches: seq<Latch>, nexts: seq<nat>, resets: seq<nat>): (r: seq<Latch>)
    requires |latches| == |nexts| == |resets|
    ensures LatchLits(r) == LatchLits(latches) && NextLits(r) == nexts && ResetLits(r) == resets
  {
    seq(|latches|, i requires 0 <= i < |latches| => Latch(latches[i].lit, nexts[i], resets[i]))
  }
}
