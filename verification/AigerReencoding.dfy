/** Rewriting an AIGER network: every value is kept and the result is canonical. */
module AigerReencoding {
  import opened Sequences
  import opened AigerNetwork
  import opened AigerTraversal
  import opened AigerCycles
  import opened AigerNumbering
  import opened AigerCone
  import opened AigerKeptCone
  import opened AigerLibrary
  import opened AigerReencode
  import opened AigerGateOrder
  import opened AigerRenumbering
  import opened AigerRewrite
  import opened AigerCanonical
  import opened AigerBinary

  /** The largest variable of an unsigned literal; 2 * (maxvar + 1) wraps to 0 for it. */
  const LAST_VARIABLE := 0x7fff_ffff

  /** mid is before with roots and gates renamed along num; inputs and latch literals are still the old ones. */
  ghost predicate HalfRenamed(before: Network, mid: Network, num: seq<nat>) {
    var leaves := LeafCount(before);
    && mid.inputs == before.inputs && LatchLits(mid.latches) == LatchLits(before.latches)
    && WellDefined(before.ands) && Distinct(num) && (forall i :: 0 <= i < |num| ==> num[i] >= 1)
    && Topological(before.ands, num, leaves) && num[..leaves] == LeafVars(before.inputs, before.latches)
    && Renumbered(before.ands, num, leaves, mid.ands) && RenamedRoots(num, before, mid)
    && EvenLeaves(before)
  }

  predicate EvenLeaves(net: Network) {
    && (forall i :: 0 <= i < |net.inputs| ==> net.inputs[i] % 2 == 0 && net.inputs[i] >= 2)
    && (forall i :: 0 <= i < |net.latches| ==> net.latches[i].lit % 2 == 0 && net.latches[i].lit >= 2)
  }

  /** Every reset is a constant or the latch itself. */
  predicate PlainResets(net: Network) {
    forall i :: 0 <= i < |net.latches| ==> net.latches[i].reset <= 1 || net.latches[i].reset == net.latches[i].lit
  }

  lemma ResetsPlain(types: seq<VarType>, net: Network, maxvar: nat)
    requires WellTyped(types, net, maxvar)
    ensures PlainResets(net)
  {
  }

  lemma LeavesEven(types: seq<VarType>, net: Network, maxvar: nat)
    requires WellTyped(types, net, maxvar)
    ensures EvenLeaves(net)
  {
    forall i | 0 <= i < |net.inputs| ensures net.inputs[i] % 2 == 0 && net.inputs[i] >= 2 {
      assert InputTyped(types, net.inputs[i], i, maxvar);
    }
    forall i | 0 <= i < |net.latches| ensures net.latches[i].lit % 2 == 0 && net.latches[i].lit >= 2 {
      assert LatchTyped(types, net.latches[i].lit, i, maxvar);
    }
  }

  /** roots is before with the root literals renamed along num, which numbers the leaves and the cone of the roots. */
  ghost predicate RootsRenamed(before: Network, roots: Network, num: seq<nat>) {
    && roots.inputs == before.inputs && LatchLits(roots.latches) == LatchLits(before.latches) && roots.ands == before.ands
    && RenamedRoots(num, before, roots) && EvenLeaves(before)
    && ConeAdded(before.ands, LeafVars(before.inputs, before.latches), num, RootLits(before))
    && |num| == LeafCount(before) + |Cone(before)|
  }

  /** Builds the code table: leaves first, then exactly the gates that the roots depend on. */
  method RenameRoots(a: Aiger, ghost before: Network) returns (code: array<nat>, unused: nat, ghost num: seq<nat>)
    requires before == a.View() && a.Valid() && NetworkDefined(a.types[..], before) && Rankable(a.ands) && a.OffStack()
    modifies a`latches, a`outputs, a`bad, a`constraints, a`justice, a`fairness, a.types
    ensures Ready(a.types[..], a.ands, a.maxvar, code[..], num, LeafCount(before)) && unused == Lit(|num| + 1)
    ensures RootsRenamed(before, a.View(), num) && SameKinds(old(a.types[..]), a.types[..])
  {
    ghost var leaves := LeafCount(before);
    code := NewCodeTable(a.maxvar);
    unused, num := NumberLeaves(a, code);
    LeavesReady(a.types[..], before, a.maxvar, code[..]);
    LeavesEven(a.types[..], before, a.maxvar);
    RootsAreNameable(a.types[..], before, a.maxvar);
    unused, num := ReencodeRoots(a, unused, code, num, leaves);
    ReadyCone(a.types[..], before, a.maxvar, code[..], num);
  }

  /** Renames roots and gates along one numbering. */
  method RenameAll(a: Aiger, ghost before: Network) returns (sorted: bool, code: array<nat>, ghost num: seq<nat>)
    requires before == a.View() && a.Valid() && NetworkDefined(a.types[..], before) && Rankable(a.ands) && a.OffStack()
    requires a.maxvar < LAST_VARIABLE
    modifies a`latches, a`outputs, a`bad, a`constraints, a`justice, a`fairness, a`ands, a`maxvar, a.types
    ensures a.maxvar == |num| <= old(a.maxvar) && SameKinds(old(a.types[..]), a.types[..])
    ensures |a.ands| == |Cone(before)| <= |before.ands| && (sorted <==> OneSided(LeafCount(before), |Cone(before)|))
    ensures Numbered(code[..], num, old(a.maxvar)) && (sorted ==> HalfRenamed(before, a.View(), num))
    ensures |num| == LeafCount(before) + |Cone(before)|
    ensures ConeAdded(before.ands, LeafVars(before.inputs, before.latches), num, RootLits(before))
  {
    var unused;
    code, unused, num := RenameRoots(a, before);
    sorted := RenameAnds(a, code, unused, num, before);
  }

  /** Renames the gates along the numbering that the roots have completed. */
  method RenameAnds(a: Aiger, code: array<nat>, unused: nat, ghost num: seq<nat>, ghost before: Network) returns (sorted: bool)
    requires Ready(a.types[..], a.ands, a.maxvar, code[..], num, LeafCount(before)) && unused == Lit(|num| + 1)
    requires RootsRenamed(before, a.View(), num) && a.maxvar < LAST_VARIABLE
    modifies a`ands, a`maxvar
    ensures a.maxvar == |num| <= old(a.maxvar) && Numbered(code[..], num, old(a.maxvar))
    ensures |a.ands| == |Cone(before)| <= |before.ands| && (sorted <==> OneSided(LeafCount(before), |Cone(before)|))
    ensures sorted ==> HalfRenamed(before, a.View(), num)
  {
    ghost var roots := a.View();
    ReadyFits(a.types[..], a.ands, a.maxvar, code[..], num, LeafCount(before));
    sorted := ReencodeGates(a, code, num, LeafCount(before));
    if sorted { HalfWay(a.types[..], before, roots, a.View(), a.maxvar, code[..], num); }
    a.maxvar := Var(unused - 1);
  }

  lemma ReadyFits(types: seq<VarType>, ands: seq<And>, maxvar: nat, code: seq<nat>, num: seq<nat>, leaves: nat)
    requires Ready(types, ands, maxvar, code, num, leaves)
    ensures |num| <= maxvar && Numbered(code, num, maxvar)
  {
    NumberingFits(num, maxvar);
  }

  lemma ReadyCone(types: seq<VarType>, net: Network, maxvar: nat, code: seq<nat>, num: seq<nat>)
    requires Ready(types, net.ands, maxvar, code, num, LeafCount(net))
    requires ConeAdded(net.ands, LeafVars(net.inputs, net.latches), num, RootLits(net))
    ensures |Cone(net)| == |num| - LeafCount(net)
  {
    ConeSize(net, LeafVars(net.inputs, net.latches), num);
  }

  lemma HalfWay(types: seq<VarType>, before: Network, roots: Network, mid: Network, maxvar: nat, code: seq<nat>, num: seq<nat>)
    requires Ready(types, before.ands, maxvar, code, num, LeafCount(before)) && RootsRenamed(before, roots, num)
    requires mid == roots.(ands := mid.ands)
    requires Renumbered(before.ands, num, LeafCount(before), mid.ands)
    ensures HalfRenamed(before, mid, num)
  {
    NumbersPositive(code, num, maxvar);
    RootsIgnoreGates(num, before, roots, mid);
    assert num[..LeafCount(before)] == LeafVars(before.inputs, before.latches);
  }

  lemma RootsIgnoreGates(num: seq<nat>, before: Network, roots: Network, mid: Network)
    requires RenamedRoots(num, before, roots) && mid == roots.(ands := mid.ands)
    ensures RenamedRoots(num, before, mid)
  {
    assert NextLits(mid.latches) == NextLits(roots.latches) && ResetLits(mid.latches) == ResetLits(roots.latches);
  }

  /** The literal of a leaf is coded as its place in the numbering. */
  lemma LeafCode(code: seq<nat>, num: seq<nat>, maxvar: nat, net: Network, i: nat)
    requires Numbered(code, num, maxvar) && EvenLeaves(net) && i < |net.inputs| + |net.latches| <= |num|
    requires num[..|net.inputs| + |net.latches|] == LeafVars(net.inputs, net.latches)
    ensures var lit := if i < |net.inputs| then net.inputs[i] else net.latches[i - |net.inputs|].lit;
      lit < |code| && Rename(num, lit) == code[lit] == Lit(i + 1) && Named(num, lit)
  {
    var lit := if i < |net.inputs| then net.inputs[i] else net.latches[i - |net.inputs|].lit;
    assert num[..|net.inputs| + |net.latches|][i] == Var(lit) == num[i];
    assert num[i] in num;
    PositionAt(num, i);
    CodeOfLiteral(code, num, maxvar, lit);
  }

  /** The leaves get their new literals as well. */
  lemma LeavesRenamed(code: seq<nat>, num: seq<nat>, maxvar: nat, before: Network, mid: Network, after: Network)
    requires HalfRenamed(before, mid, num) && Numbered(code, num, maxvar)
    requires after.inputs == Numbers(0, |mid.inputs|)
    requires after.latches == Relit(mid.latches, Numbers(|mid.inputs|, |mid.latches|))
    requires after == mid.(inputs := after.inputs, latches := after.latches)
    ensures RenumberedAlong(num, before, after)
  {
    InputsRenamed(code, num, maxvar, before, after.inputs);
    LatchesRenamed(code, num, maxvar, before, LatchLits(after.latches));
    assert |LatchLits(mid.latches)| == |LatchLits(before.latches)|;
  }

  lemma InputsRenamed(code: seq<nat>, num: seq<nat>, maxvar: nat, net: Network, inputs: seq<nat>)
    requires Numbered(code, num, maxvar) && EvenLeaves(net) && LeafCount(net) <= |num|
    requires num[..LeafCount(net)] == LeafVars(net.inputs, net.latches) && inputs == Numbers(0, |net.inputs|)
    ensures RenamedList(num, net.inputs, inputs)
  {
    forall i | 0 <= i < |net.inputs| ensures Named(num, net.inputs[i]) && inputs[i] == Rename(num, net.inputs[i]) {
      LeafCode(code, num, maxvar, net, i);
    }
  }

  lemma LatchesRenamed(code: seq<nat>, num: seq<nat>, maxvar: nat, net: Network, lits: seq<nat>)
    requires Numbered(code, num, maxvar) && EvenLeaves(net) && LeafCount(net) <= |num|
    requires num[..LeafCount(net)] == LeafVars(net.inputs, net.latches) && lits == Numbers(|net.inputs|, |net.latches|)
    ensures RenamedList(num, LatchLits(net.latches), lits)
  {
    forall i | 0 <= i < |net.latches|
      ensures Named(num, LatchLits(net.latches)[i]) && lits[i] == Rename(num, LatchLits(net.latches)[i])
    {
      LeafCode(code, num, maxvar, net, |net.inputs| + i);
    }
  }

  lemma RenamedRootsInRange(num: seq<nat>, before: Network, after: Network)
    requires RenumberedAlong(num, before, after)
    requires PlainResets(before)
    ensures RootsInRange(after, |num|)
  {
    RenamedInRange(num, NextLits(before.latches), NextLits(after.latches));
    RenamedInRange(num, before.outputs, after.outputs);
    RenamedInRange(num, before.bad, after.bad);
    RenamedInRange(num, before.constraints, after.constraints);
    forall i | 0 <= i < |after.justice| ensures InRange(after.justice[i], |num|) {
      RenamedInRange(num, before.justice[i], after.justice[i]);
    }
    RenamedInRange(num, before.fairness, after.fairness);
    forall i | 0 <= i < |after.latches|
      ensures after.latches[i].reset <= 1 || after.latches[i].reset == after.latches[i].lit
    {
      assert LatchLits(after.latches)[i] == Rename(num, LatchLits(before.latches)[i]);
      assert ResetLits(after.latches)[i] == Rename(num, ResetLits(before.latches)[i]);
    }
  }

  predicate SameShape(x: Network, y: Network) {
    && |x.inputs| == |y.inputs| && |x.latches| == |y.latches| && |x.outputs| == |y.outputs| && |x.bad| == |y.bad|
    && |x.constraints| == |y.constraints| && |x.justice| == |y.justice| && |x.fairness| == |y.fairness|
  }

  /** The network is rewritten in canonical numbering, without what no root depends on. */
  method Rewrite(a: Aiger) returns (sorted: bool)
    requires a.Valid() && NetworkDefined(a.types[..], a.View()) && Rankable(a.ands) && a.OffStack()
    requires a.maxvar < LAST_VARIABLE
    modifies a`inputs, a`latches, a`outputs, a`bad, a`constraints, a`justice, a`fairness, a`ands, a`maxvar, a.types
    ensures |a.ands| == |Cone(old(a.View()))| <= |old(a.ands)|
    ensures sorted <==> OneSided(LeafCount(old(a.View())), |Cone(old(a.View()))|)
    ensures a.maxvar == LeafCount(old(a.View())) + |Cone(old(a.View()))|
    ensures sorted ==> a.Valid() && NetworkDefined(a.types[..], a.View()) && Canonical(a.View()) && a.maxvar <= old(a.maxvar)
    ensures sorted ==> AllNeeded(a.View())
    ensures sorted ==> SameBehaviour(old(a.View()), a.View()) && SameShape(old(a.View()), a.View())
  {
    ghost var before, maxvar := a.View(), a.maxvar;
    ResetsPlain(a.types[..], before, maxvar);
    var code;
    ghost var num;
    sorted, code, num := RenameAll(a, before);
    if sorted { FinishRewriting(a, code, num, before, maxvar); }
  }

  method FinishRewriting(a: Aiger, code: array<nat>, ghost num: seq<nat>, ghost before: Network, ghost maxvar: nat)
    requires HalfRenamed(before, a.View(), num) && Numbered(code[..], num, maxvar) && a.maxvar == |num| < a.types.Length
    requires PlainResets(before) && ConeAdded(before.ands, LeafVars(before.inputs, before.latches), num, RootLits(before))
    modifies a`inputs, a`latches, a.types
    ensures a.Valid() && NetworkDefined(a.types[..], a.View()) && Canonical(a.View()) && AllNeeded(a.View())
    ensures SameBehaviour(before, a.View()) && SameShape(before, a.View())
  {
    FinishRenaming(a, code, num, before, maxvar);
    RewriteDone(num, before, a.View(), a.types[..], a.maxvar);
    KeptIsNeeded(num, before, a.View());
  }

  method FinishRenaming(a: Aiger, code: array<nat>, ghost num: seq<nat>, ghost before: Network, ghost maxvar: nat)
    requires HalfRenamed(before, a.View(), num) && Numbered(code[..], num, maxvar) && a.maxvar == |num| < a.types.Length
    modifies a`inputs, a`latches, a.types
    ensures RenumberedAlong(num, before, a.View())
    ensures CanonicalTypes(a.types[..], |a.inputs|, |a.inputs| + |a.latches|, a.maxvar)
  {
    ghost var mid := a.View();
    LeavesToFix(before, mid, num, code[..], maxvar);
    FixTypes(a, code);
    LeavesRenamed(code[..], num, maxvar, before, mid, a.View());
  }

  /** What fixing the types relies on. */
  lemma LeavesToFix(before: Network, mid: Network, num: seq<nat>, code: seq<nat>, maxvar: nat)
    requires HalfRenamed(before, mid, num) && Numbered(code, num, maxvar)
    ensures |mid.inputs| + |mid.latches| + |mid.ands| == |num| && |mid.latches| == |before.latches|
    ensures forall k :: 0 <= k < |mid.ands| ==> mid.ands[k].lhs == Lit(|mid.inputs| + |mid.latches| + k + 1)
    ensures forall i :: 0 <= i < |mid.inputs| ==> mid.inputs[i] < |code| && code[mid.inputs[i]] == NumberAt(0, i)
    ensures forall i :: 0 <= i < |mid.latches| ==>
              mid.latches[i].lit < |code| && code[mid.latches[i].lit] == NumberAt(|mid.inputs|, i)
  {
    var leaves := LeafCount(before);
    assert |LatchLits(mid.latches)| == |LatchLits(before.latches)|;
    forall k | 0 <= k < |mid.ands| ensures mid.ands[k].lhs == Lit(leaves + k + 1) {
      assert GateAt(before.ands, num, leaves + k, mid.ands[k]);
      GateIsAbove(num, before.ands, leaves, leaves + k, mid.ands[k]);
    }
    forall i | 0 <= i < |mid.inputs| ensures mid.inputs[i] < |code| && code[mid.inputs[i]] == NumberAt(0, i) {
      LeafCode(code, num, maxvar, before, i);
    }
    forall i | 0 <= i < |mid.latches|
      ensures mid.latches[i].lit < |code| && code[mid.latches[i].lit] == NumberAt(|mid.inputs|, i)
    {
      assert LatchLits(mid.latches)[i] == LatchLits(before.latches)[i];
      LeafCode(code, num, maxvar, before, |before.inputs| + i);
    }
  }

  lemma RewriteDone(num: seq<nat>, before: Network, after: Network, types: seq<VarType>, maxvar: nat)
    requires RenumberedAlong(num, before, after) && EvenLeaves(before) && maxvar == |num| < |types|
    requires PlainResets(before)
    requires CanonicalTypes(types, |after.inputs|, |after.inputs| + |after.latches|, maxvar)
    ensures WellTyped(types, after, maxvar) && NetworkDefined(types, after) && Canonical(after)
    ensures SameBehaviour(before, after) && SameShape(before, after)
  {
    RenumberingIsCanonical(num, before, after);
    RenumberingKeepsBehaviour(num, before, after);
    RenamedRootsInRange(num, before, after);
    assert |LatchLits(after.latches)| == |LatchLits(before.latches)|;
    CanonicalWellTyped(types, after, maxvar);
    CanonicalDefined(types, after, maxvar);
  }

  // ---------- A defined network determines its values ----------

  lemma LeafAgrees(types: seq<VarType>, net: Network, maxvar: nat, v: Valuation, w: Valuation, u: nat)
    requires WellTyped(types, net, maxvar) && 1 <= u <= maxvar && (types[u].input || types[u].latch)
    requires SameValues(v, net.inputs, w, net.inputs) && SameValues(v, LatchLits(net.latches), w, LatchLits(net.latches))
    ensures v(u) == w(u)
  {
    var i := types[u].idx;
    if types[u].input {
      assert LitValue(v, net.inputs[i]) == LitValue(w, net.inputs[i]);
    } else {
      assert LitValue(v, LatchLits(net.latches)[i]) == LitValue(w, LatchLits(net.latches)[i]);
    }
  }

  lemma DefinedAgrees(types: seq<VarType>, net: Network, maxvar: nat, rank: nat -> nat, v: Valuation, w: Valuation, lit: nat)
    requires WellTyped(types, net, maxvar) && AllDefined(types, GateLits(net.ands)) && Ranked(net.ands, rank)
    requires Consistent(net.ands, v) && Consistent(net.ands, w)
    requires SameValues(v, net.inputs, w, net.inputs) && SameValues(v, LatchLits(net.latches), w, LatchLits(net.latches))
    requires Var(lit) <= maxvar && LiteralDefined(types, lit)
    ensures LitValue(v, lit) == LitValue(w, lit)
  {
    var u := Var(lit);
    NoGateIsLeaf(types, net, maxvar);
    RankedAcyclic(net.ands);
    if u != 0 {
      if types[u].input || types[u].latch {
        LeafAgrees(types, net, maxvar, v, w, u);
      } else {
        forall g, c | Feeds(net.ands, g, c) && !IsGate(net.ands, c) ensures v(c) == w(c) {
          DefinedInput(types, net.ands, maxvar, g, c);
          LeafAgrees(types, net, maxvar, v, w, c);
        }
        TypedGate(types, net.ands, maxvar, u);
        ValuationUnique(net.ands, rank, v, w, u);
      }
    }
  }

  lemma ListAgrees(types: seq<VarType>, net: Network, maxvar: nat, rank: nat -> nat, v: Valuation, w: Valuation, lits: seq<nat>)
    requires WellTyped(types, net, maxvar) && AllDefined(types, GateLits(net.ands)) && Ranked(net.ands, rank)
    requires Consistent(net.ands, v) && Consistent(net.ands, w)
    requires SameValues(v, net.inputs, w, net.inputs) && SameValues(v, LatchLits(net.latches), w, LatchLits(net.latches))
    requires InRange(lits, maxvar) && AllDefined(types, lits)
    ensures SameValues(v, lits, w, lits)
  {
    forall i | 0 <= i < |lits| ensures LitValue(v, lits[i]) == LitValue(w, lits[i]) {
      assert LiteralDefined(types, lits[i]);
      DefinedAgrees(types, net, maxvar, rank, v, w, lits[i]);
    }
  }

  lemma ResetAgrees(net: Network, v: Valuation, w: Valuation)
    requires !v(0) && !w(0) && SameValues(v, LatchLits(net.latches), w, LatchLits(net.latches))
    requires forall i :: 0 <= i < |net.latches| ==> net.latches[i].reset <= 1 || net.latches[i].reset == net.latches[i].lit
    ensures SameValues(v, ResetLits(net.latches), w, ResetLits(net.latches))
  {
    forall i | 0 <= i < |net.latches|
      ensures LitValue(v, ResetLits(net.latches)[i]) == LitValue(w, ResetLits(net.latches)[i])
    {
      assert LitValue(v, LatchLits(net.latches)[i]) == LitValue(w, LatchLits(net.latches)[i]);
    }
  }

  /** The roots of a checked network are functions of its inputs and latches. */
  lemma BehaviourDetermined(types: seq<VarType>, net: Network, maxvar: nat)
    requires WellTyped(types, net, maxvar) && NetworkDefined(types, net) && Rankable(net.ands)
    ensures SameBehaviour(net, net)
  {
    var rank :| Ranked(net.ands, rank);
    forall v: Valuation, w: Valuation |
      && Consistent(net.ands, v) && Consistent(net.ands, w)
      && SameValues(v, net.inputs, w, net.inputs) && SameValues(v, LatchLits(net.latches), w, LatchLits(net.latches))
      ensures SameRoots(net, v, net, w)
    {
      ListAgrees(types, net, maxvar, rank, v, w, NextLits(net.latches));
      ResetAgrees(net, v, w);
      ListAgrees(types, net, maxvar, rank, v, w, net.outputs);
      ListAgrees(types, net, maxvar, rank, v, w, net.bad);
      ListAgrees(types, net, maxvar, rank, v, w, net.constraints);
      forall i | 0 <= i < |net.justice| ensures SameValues(v, net.justice[i], w, net.justice[i]) {
        ListAgrees(types, net, maxvar, rank, v, w, net.justice[i]);
      }
      ListAgrees(types, net, maxvar, rank, v, w, net.fairness);
    }
  }

  // ---------- The whole operation ----------

  /** Reencoding is defined for a network that is in canonical numbering already, and otherwise if the
      code table has a representable size and qsort gets literals on one side of 2^31. */
  ghost predicate ReencodingDefined(before: Network, maxvar: nat) {
    Canonical(before) || (maxvar < LAST_VARIABLE && OneSided(LeafCount(before), |Cone(before)|))
  }

  /** A checked network in canonical numbering is left alone, and any other is brought into it without its dead
      gates. Every next state, reset, output and property keeps its value under every assignment to inputs and
      latches. The result is false where C leaves the outcome undefined. */
  method Reencode(a: Aiger) returns (defined: bool)
    requires a.Valid() && NetworkDefined(a.types[..], a.View()) && Rankable(a.ands) && a.OffStack()
    requires a.maxvar <= LAST_VARIABLE
    modifies a`inputs, a`latches, a`outputs, a`bad, a`constraints, a`justice, a`fairness, a`ands, a`maxvar, a.types
    ensures defined <==> ReencodingDefined(old(a.View()), old(a.maxvar))
    ensures |a.ands| <= |old(a.ands)|
    ensures Canonical(old(a.View())) ==>
              defined && a.View() == old(a.View()) && a.maxvar == old(a.maxvar) && a.types[..] == old(a.types[..])
    ensures defined && !Canonical(old(a.View())) ==>
              |a.ands| == |Cone(old(a.View()))| && a.maxvar == LeafCount(old(a.View())) + |a.ands| && AllNeeded(a.View())
    ensures old(a.maxvar) < LAST_VARIABLE && LeafCount(old(a.View())) + |old(a.ands)| < 0x4000_0000 ==> defined
    ensures defined ==> a.Valid() && NetworkDefined(a.types[..], a.View())
    ensures defined ==> Canonical(a.View()) && Rankable(a.ands) && a.maxvar <= old(a.maxvar)
    ensures defined ==> SameBehaviour(old(a.View()), a.View()) && SameShape(old(a.View()), a.View())
  {
    var already := IsReencoded(a);
    ReencodedIsCanonical(a.View());
    if already {
      BehaviourDetermined(a.types[..], a.View(), a.maxvar);
      return true;
    }
    if a.maxvar == LAST_VARIABLE { return false; }
    defined := Rewrite(a);
    if defined { CanonicalRankable(a.View()); }
  }

  lemma CanonicalIsOrdered(net: Network)
    requires Canonical(net)
    ensures Ordered(net.ands, Lit(|net.inputs| + |net.latches|) + 2)
  {
  }

  /** The bytes of the gates of a canonical network. */
  function GateBytes(net: Network): seq<Byte>
    requires Canonical(net)
  {
    Section(net.ands)
  }

  /** The bytes from pos on are read as the gates of net. */
  ghost predicate ReadsBack(data: seq<Byte>, pos: nat, net: Network) {
    pos <= |data| && ParseAnds(data, pos, Lit(|net.inputs| + |net.latches|), |net.ands|) == Ands(net.ands, |data|)
  }

  lemma WrittenReadsBack(before: seq<Byte>, types: seq<VarType>, net: Network, maxvar: nat)
    requires WellTyped(types, net, maxvar) && Canonical(net) && maxvar <= LAST_VARIABLE
    ensures ReadsBack(before + GateBytes(net), |before|, net)
  {
    CanonicalIsOrdered(net);
    GatesFit(types, net, maxvar);
    AppendedRoundTrip(before, net.ands, Lit(|net.inputs| + |net.latches|));
  }

  /** Writes the gates of a canonical network. */
  method WriteGates(a: Aiger, sink: Sink) returns (ok: bool)
    requires a.Valid() && Canonical(a.View()) && a.maxvar <= LAST_VARIABLE && sink.Valid()
    modifies sink
    ensures ok <==> |old(sink.written)| + |GateBytes(a.View())| <= sink.capacity
    ensures ok ==> sink.written == old(sink.written) + GateBytes(a.View())
    ensures ok ==> ReadsBack(sink.written, |old(sink.written)|, a.View())
  {
    CanonicalIsOrdered(a.View());
    var max := MaxInputOrLatch(a);
    MaxIsLast(a.inputs, a.latches, max);
    WrittenReadsBack(sink.written, a.types[..], a.View(), a.maxvar);
    ok := WriteAnds(a.ands, max + 2, sink);
  }

  /** Writes a checked network: what is written for its gates is read back as the gates of a canonical
      network with the same behaviour. */
  method WriteBinary(a: Aiger, sink: Sink) returns (defined: bool, ok: bool)
    requires a.Valid() && NetworkDefined(a.types[..], a.View()) && Rankable(a.ands) && a.OffStack()
    requires a.maxvar <= LAST_VARIABLE && sink.Valid()
    modifies a`inputs, a`latches, a`outputs, a`bad, a`constraints, a`justice, a`fairness, a`ands, a`maxvar, a.types, sink
    ensures defined <==> ReencodingDefined(old(a.View()), old(a.maxvar))
    ensures defined ==> a.Valid() && Canonical(a.View()) && SameBehaviour(old(a.View()), a.View())
    ensures defined ==> (ok <==> |old(sink.written)| + |GateBytes(a.View())| <= sink.capacity)
    ensures defined && ok ==> ReadsBack(sink.written, |old(sink.written)|, a.View())
    ensures Canonical(old(a.View())) ==> defined && a.View() == old(a.View())
    ensures defined && !Canonical(old(a.View())) ==> |a.ands| == |Cone(old(a.View()))|
  {
    defined := Reencode(a);
    ok := false;
    if defined { ok := WriteGates(a, sink); }
  }

  lemma GatesFit(types: seq<VarType>, net: Network, maxvar: nat)
    requires WellTyped(types, net, maxvar) && Canonical(net)
    ensures |net.inputs| + |net.latches| + |net.ands| <= maxvar
    ensures maxvar <= LAST_VARIABLE ==> Lit(|net.inputs| + |net.latches|) + 2 * |net.ands| < AigerBinary.WORD
  {
    if net.ands != [] {
      var k := |net.ands| - 1;
      assert GateTyped(types, net.ands[k], k, maxvar);
    } else if net.latches != [] {
      var i := |net.latches| - 1;
      assert LatchTyped(types, net.latches[i].lit, i, maxvar);
    } else if net.inputs != [] {
      var i := |net.inputs| - 1;
      assert InputTyped(types, net.inputs[i], i, maxvar);
    }
  }
}
