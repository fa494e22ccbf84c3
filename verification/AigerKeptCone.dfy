/** Renumbering along the cone of influence leaves no gate that no root depends on. */
module AigerKeptCone {
  import opened Sequences
  import opened AigerNetwork
  import opened AigerNumbering
  import opened AigerReencode
  import opened AigerRenumbering
  import opened AigerCone

  /** Every gate is needed for some root. */
  ghost predicate AllNeeded(net: Network) {
    forall k :: 0 <= k < |net.ands| ==> InCone(net.ands, RootLits(net), Var(net.ands[k].lhs))
  }

  // ---------- Roots ----------

  lemma RenamedMember(num: seq<nat>, olds: seq<nat>, news: seq<nat>, l: nat)
    requires RenamedList(num, olds, news) && l in olds
    ensures Named(num, l) && Rename(num, l) in news
  {
    var i :| 0 <= i < |olds| && olds[i] == l;
    assert news[i] == Rename(num, l);
  }

  lemma RootRenamed(num: seq<nat>, before: Network, after: Network, l: nat)
    requires RenamedRoots(num, before, after) && l in RootLits(before)
    ensures Named(num, l) && Rename(num, l) in RootLits(after)
  {
    if l in NextLits(before.latches) {
      RenamedMember(num, NextLits(before.latches), NextLits(after.latches), l);
    } else if l in ResetLits(before.latches) {
      RenamedMember(num, ResetLits(before.latches), ResetLits(after.latches), l);
    } else if l in before.outputs {
      RenamedMember(num, before.outputs, after.outputs, l);
    } else if l in before.bad {
      RenamedMember(num, before.bad, after.bad, l);
    } else if l in before.constraints {
      RenamedMember(num, before.constraints, after.constraints, l);
    } else if l in before.fairness {
      RenamedMember(num, before.fairness, after.fairness, l);
    } else {
      JusticeRenamed(num, before.justice, after.justice, l);
    }
  }

  lemma JusticeRenamed(num: seq<nat>, olds: seq<seq<nat>>, news: seq<seq<nat>>, l: nat)
    requires RenamedLists(num, olds, news) && l in AllLits(olds)
    ensures Named(num, l) && Rename(num, l) in AllLits(news)
  {
    var i :| 0 <= i < |olds| && l in olds[i];
    RenamedMember(num, olds[i], news[i], l);
  }

  // ---------- Paths ----------

  /** An edge between gates becomes an edge between their new variables. */
  lemma EdgeRenamed(ands: seq<And>, num: seq<nat>, leaves: nat, renamed: seq<And>, p: nat, c: nat)
    requires WellDefined(ands) && Topological(ands, num, leaves) && Renumbered(ands, num, leaves, renamed)
    requires p >= 1 && p in num && c in num && Feeds(ands, p, c)
    ensures Feeds(renamed, Position(num, p), Position(num, c))
  {
    var i := Position(num, p) - 1;
    var k :| 0 <= k < |ands| && ands[k].lhs == Lit(p) && (c == Var(ands[k].rhs0) || c == Var(ands[k].rhs1));
    assert IsGate(ands, num[i]);
    assert GateAt(ands, num, leaves + (i - leaves), renamed[i - leaves]);
    var j :| 0 <= j < |ands| && ands[j].lhs == Lit(num[i]) && renamed[i - leaves] == RenamedGate(num, ands[j]);
    assert j == k;
    GateInputRenamed(num, ands[k], p, c);
  }

  lemma GateInputRenamed(num: seq<nat>, gate: And, p: nat, c: nat)
    requires gate.lhs == Lit(p) && p >= 1 && c >= 1 && (c == Var(gate.rhs0) || c == Var(gate.rhs1))
    ensures RenamedGate(num, gate).lhs == Lit(Position(num, p))
    ensures Position(num, c) == Var(RenamedGate(num, gate).rhs0) || Position(num, c) == Var(RenamedGate(num, gate).rhs1)
  {
    assert Var(gate.lhs) == p && gate.lhs % 2 == 0;
    InputRenamed(num, gate.rhs0);
    InputRenamed(num, gate.rhs1);
  }

  lemma InputRenamed(num: seq<nat>, lit: nat)
    ensures lit >= 2 ==> Var(Rename(num, lit)) == Position(num, Var(lit))
  {
  }

  lemma PathRenamed(ands: seq<And>, num: seq<nat>, leaves: nat, renamed: seq<And>, v: nat, x: nat)
    requires WellDefined(ands) && Topological(ands, num, leaves) && Renumbered(ands, num, leaves, renamed)
    requires (forall i :: 0 <= i < |num| ==> num[i] >= 1) && v in num && DependsOn(ands, v, x)
    ensures DependsOn(renamed, Position(num, v), Position(num, x))
  {
    var path :| PathFromTo(ands, path, v, x);
    var mapped := seq(|path|, i requires 0 <= i < |path| => Position(num, path[i]));
    forall i | 0 <= i < |mapped| - 1 ensures Feeds(renamed, mapped[i], mapped[i + 1]) {
      PathNumbered(ands, num, leaves, path, i);
      PathNumbered(ands, num, leaves, path, i + 1);
      assert Feeds(ands, path[i], path[i + 1]);
      EdgeRenamed(ands, num, leaves, renamed, path[i], path[i + 1]);
    }
    assert PathFromTo(renamed, mapped, Position(num, v), Position(num, x));
  }

  // ---------- Every gate that is kept is needed ----------

  lemma KeptIsNeeded(num: seq<nat>, before: Network, after: Network)
    requires RenumberedAlong(num, before, after)
    requires ConeAdded(before.ands, LeafVars(before.inputs, before.latches), num, RootLits(before))
    ensures AllNeeded(after)
  {
    forall k | 0 <= k < |after.ands| ensures InCone(after.ands, RootLits(after), Var(after.ands[k].lhs)) {
      GateNeeded(num, before, after, k);
    }
  }

  lemma GateNeeded(num: seq<nat>, before: Network, after: Network, k: nat)
    requires RenumberedAlong(num, before, after) && k < |after.ands|
    requires ConeAdded(before.ands, LeafVars(before.inputs, before.latches), num, RootLits(before))
    ensures InCone(after.ands, RootLits(after), Var(after.ands[k].lhs))
  {
    var x := KeptGate(num, before, after, k);
    GateNotLeaf(num, LeafVars(before.inputs, before.latches), Position(num, x) - 1);
    var l :| l in RootLits(before) && l >= 2 && DependsOn(before.ands, Var(l), x);
    RootRenamed(num, before, after, l);
    PathRenamed(before.ands, num, LeafCount(before), after.ands, Var(l), x);
    RenamedIsVariable(num, l);
  }

  lemma KeptGate(num: seq<nat>, before: Network, after: Network, k: nat) returns (x: nat)
    requires RenumberedAlong(num, before, after) && k < |after.ands|
    ensures x in num && LeafCount(before) < Position(num, x) && Var(after.ands[k].lhs) == Position(num, x)
  {
    x := GateOfNumber(before.ands, num, LeafCount(before), after.ands, k);
  }

  lemma GateOfNumber(ands: seq<And>, num: seq<nat>, leaves: nat, renamed: seq<And>, k: nat) returns (x: nat)
    requires Distinct(num) && (forall i :: 0 <= i < |num| ==> num[i] >= 1)
    requires Renumbered(ands, num, leaves, renamed) && k < |renamed|
    ensures x in num && leaves < Position(num, x) && Var(renamed[k].lhs) == Position(num, x)
  {
    var i := leaves + k;
    assert GateAt(ands, num, leaves + k, renamed[k]);
    x := num[i];
    PositionAt(num, i);
    var j :| 0 <= j < |ands| && ands[j].lhs == Lit(x) && renamed[k] == RenamedGate(num, ands[j]);
    InputRenamed(num, ands[j].lhs);
  }

  lemma GateNotLeaf(num: seq<nat>, first: seq<nat>, i: nat)
    requires Distinct(num) && first <= num && |first| <= i < |num|
    ensures num[i] !in first
  {
    forall k | 0 <= k < |first| ensures first[k] != num[i] { assert first[k] == num[k]; }
  }

  lemma RenamedIsVariable(num: seq<nat>, lit: nat)
    requires lit >= 2 && Var(lit) in num
    ensures Rename(num, lit) >= 2 && Var(Rename(num, lit)) == Position(num, Var(lit))
  {
  }
}
