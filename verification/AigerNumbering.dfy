/** Renumbering an AIGER network: the numbering a traversal builds up, and why renaming along it
    keeps every value. */
module AigerNumbering {
  import opened Sequences
  import opened AigerNetwork
  import opened AigerTraversal
  import opened AigerCycles

  /** The new literal of an old one; num[i] is the variable that gets index i + 1. */
  function Rename(num: seq<nat>, lit: nat): nat {
    if lit < 2 then lit else Lit(Position(num, Var(lit))) + lit % 2
  }

  /** The code table holds the new literals of the numbered variables and 0 elsewhere. */
  ghost predicate Numbered(code: seq<nat>, num: seq<nat>, maxvar: nat) {
    && |code| == 2 * (maxvar + 1) && code[0] == 0 && code[1] == 1
    && Distinct(num) && (forall v :: v in num ==> 1 <= v <= maxvar)
    && forall v :: 1 <= v <= maxvar ==> CodeOf(code, num, v)
  }

  predicate CodeOf(code: seq<nat>, num: seq<nat>, v: nat)
    requires Lit(v) + 1 < |code|
  {
    && code[Lit(v)] == Lit(Position(num, v))
    && code[Lit(v) + 1] == if v in num then Lit(Position(num, v)) + 1 else 0
  }

  /** The first leaves variables are inputs and latches; a gate comes after everything it uses. */
  ghost predicate Topological(ands: seq<And>, num: seq<nat>, leaves: nat) {
    && leaves <= |num|
    && (forall i :: 0 <= i < leaves ==> !IsGate(ands, num[i]))
    && (forall i :: leaves <= i < |num| ==> IsGate(ands, num[i]))
    && forall i, c :: leaves <= i < |num| && Feeds(ands, num[i], c) ==> c in num[..i]
  }

  lemma {:induction false} PositionAt(num: seq<nat>, i: nat)
    requires Distinct(num) && i < |num|
    ensures Position(num, num[i]) == i + 1
  {
    var r := Position(num, num[i]);
    assert num[i] in num;
  }

  /** Numbers once given stay. */
  lemma PositionStable(num: seq<nat>, more: seq<nat>, v: nat)
    requires num <= more && v in num
    ensures v in more && Position(more, v) == Position(num, v)
  {
    var r := Position(num, v);
    assert more[r - 1] == v;
    var r' := Position(more, v);
    assert r' <= r && num[r' - 1] == more[r' - 1] == v;
  }

  lemma PositionAppended(num: seq<nat>, v: nat, u: nat)
    requires v !in num
    ensures Position(num + [v], u) == if u == v then |num| + 1 else Position(num, u)
  {
    assert (num + [v])[..|num|] == num;
  }

  lemma RenameStable(num: seq<nat>, more: seq<nat>, lit: nat)
    requires num <= more && (lit < 2 || Var(lit) in num)
    ensures Rename(more, lit) == Rename(num, lit)
  {
    if lit >= 2 { PositionStable(num, more, Var(lit)); }
  }

  /** The code table after variable v gets index n. */
  function Coded(code: seq<nat>, v: nat, n: nat): seq<nat>
    requires Lit(v) + 1 < |code|
  {
    code[Lit(v) := Lit(n)][Lit(v) + 1 := Lit(n) + 1]
  }

  /** Giving a variable the next code. */
  lemma NumberedMore(code: seq<nat>, num: seq<nat>, maxvar: nat, v: nat)
    requires Numbered(code, num, maxvar) && 1 <= v <= maxvar && v !in num
    ensures Lit(v) + 1 < |code|
    ensures Numbered(Coded(code, v, |num| + 1), num + [v], maxvar)
  {
    var code' := Coded(code, v, |num| + 1);
    var more := num + [v];
    forall u | 1 <= u <= maxvar ensures CodeOf(code', more, u) {
      PositionAppended(num, v, u);
      assert CodeOf(code, num, u);
      assert u in more <==> u == v || u in num;
    }
  }

  lemma TopologicalMore(ands: seq<And>, num: seq<nat>, leaves: nat, v: nat)
    requires Topological(ands, num, leaves) && IsGate(ands, v)
    requires forall c :: Feeds(ands, v, c) ==> c in num
    ensures Topological(ands, num + [v], leaves)
  {
    var more := num + [v];
    assert forall i :: 0 <= i < |num| ==> more[i] == num[i];
    forall i, c | leaves <= i < |more| && Feeds(ands, more[i], c) ensures c in more[..i] {
      if i < |num| {
        assert more[..i] == num[..i];
      } else {
        assert more[..i] == num;
      }
    }
  }

  /** There are no more numbered variables than variables. */
  lemma NumberingFits(num: seq<nat>, maxvar: nat)
    requires Distinct(num) && forall v :: v in num ==> 1 <= v <= maxvar
    ensures |num| <= maxvar
  {
    DistinctSize(num);
    var vars := Variables(maxvar);
    assert SetOf(num) <= vars by {
      forall v | v in SetOf(num) ensures v in vars { }
    }
    SubsetSize(SetOf(num), vars);
  }

  function Variables(maxvar: nat): (r: set<nat>)
    ensures |r| == maxvar && forall v :: v in r <==> 1 <= v <= maxvar
  {
    if maxvar == 0 then {} else Variables(maxvar - 1) + {maxvar}
  }

  // ---------- The renamed gates ----------

  function RenamedGate(num: seq<nat>, gate: And): And {
    var r0, r1 := Rename(num, gate.rhs0), Rename(num, gate.rhs1);
    And(Rename(num, gate.lhs), if r0 < r1 then r1 else r0, if r0 < r1 then r0 else r1)
  }

  /** The gates of the renumbered network: one for each numbered gate, in numbering order. */
  ghost predicate Renumbered(ands: seq<And>, num: seq<nat>, leaves: nat, renamed: seq<And>) {
    && leaves <= |num| && |renamed| == |num| - leaves
    && forall k :: 0 <= k < |renamed| ==> GateAt(ands, num, leaves + k, renamed[k])
  }

  ghost predicate GateAt(ands: seq<And>, num: seq<nat>, i: nat, renamed: And)
    requires i < |num|
  {
    exists j :: 0 <= j < |ands| && ands[j].lhs == Lit(num[i]) && renamed == RenamedGate(num, ands[j])
  }

  /** Renaming keeps the value of a literal whose variable keeps its value. */
  lemma RenamedLiteral(num: seq<nat>, v: Valuation, w: Valuation, lit: nat)
    requires !v(0) && !w(0)
    requires lit >= 2 ==> w(Position(num, Var(lit))) == v(Var(lit))
    ensures LitValue(w, Rename(num, lit)) == LitValue(v, lit)
  {
    if lit >= 2 {
      assert Var(Rename(num, lit)) == Position(num, Var(lit));
      assert Rename(num, lit) % 2 == lit % 2;
    }
  }

  /** The leaves have the same values under their old and new numbers. */
  ghost predicate LeavesKept(num: seq<nat>, leaves: nat, v: Valuation, w: Valuation) {
    leaves <= |num| && forall l :: 0 <= l < leaves ==> w(l + 1) == v(num[l])
  }

  /** Every numbered variable keeps its value. */
  lemma {:induction false} ValuesKept(ands: seq<And>, num: seq<nat>, leaves: nat, renamed: seq<And>, v: Valuation, w: Valuation, i: nat)
    requires Topological(ands, num, leaves) && Distinct(num) && Renumbered(ands, num, leaves, renamed)
    requires Consistent(ands, v) && Consistent(renamed, w) && WellDefined(ands)
    requires LeavesKept(num, leaves, v, w)
    requires i < |num| && forall l :: 0 <= l < |num| ==> num[l] >= 1
    ensures w(i + 1) == v(num[i])
    decreases i
  {
    if i >= leaves {
      forall c | Feeds(ands, num[i], c) ensures w(Position(num, c)) == v(c) {
        PositionBefore(num, i, c);
        ValuesKept(ands, num, leaves, renamed, v, w, Position(num, c) - 1);
      }
      RenamedGateHolds(ands, num, leaves, renamed, v, w, i);
    }
  }

  lemma RenamedGateHolds(ands: seq<And>, num: seq<nat>, leaves: nat, renamed: seq<And>, v: Valuation, w: Valuation, i: nat)
    requires Distinct(num) && Renumbered(ands, num, leaves, renamed) && leaves <= i < |num| && num[i] >= 1
    requires Consistent(ands, v) && Consistent(renamed, w)
    requires forall c :: Feeds(ands, num[i], c) ==> w(Position(num, c)) == v(c)
    ensures w(i + 1) == v(num[i])
  {
    var k := i - leaves;
    assert GateAt(ands, num, leaves + k, renamed[k]);
    var j :| 0 <= j < |ands| && ands[j].lhs == Lit(num[i]) && renamed[k] == RenamedGate(num, ands[j]);
    assert GateHolds(ands[j], v) && GateHolds(renamed[k], w);
    PositionAt(num, i);
    GateValueKept(ands, num, j, num[i], v, w);
  }

  lemma GateValueKept(ands: seq<And>, num: seq<nat>, j: nat, u: nat, v: Valuation, w: Valuation)
    requires j < |ands| && ands[j].lhs == Lit(u) && u >= 1 && !v(0) && !w(0)
    requires GateHolds(ands[j], v) && GateHolds(RenamedGate(num, ands[j]), w)
    requires forall c :: Feeds(ands, u, c) ==> w(Position(num, c)) == v(c)
    ensures w(Position(num, u)) == v(u)
  {
    var gate := ands[j];
    InputKept(ands, num, j, u, v, w, gate.rhs0);
    InputKept(ands, num, j, u, v, w, gate.rhs1);
    GateTransfers(num, gate, u, v, w);
  }

  lemma InputKept(ands: seq<And>, num: seq<nat>, j: nat, u: nat, v: Valuation, w: Valuation, lit: nat)
    requires j < |ands| && ands[j].lhs == Lit(u) && u >= 1 && !v(0) && !w(0)
    requires lit == ands[j].rhs0 || lit == ands[j].rhs1
    requires forall c :: Feeds(ands, u, c) ==> w(Position(num, c)) == v(c)
    ensures LitValue(w, Rename(num, lit)) == LitValue(v, lit)
  {
    if lit >= 2 { assert Feeds(ands, u, Var(lit)); }
    RenamedLiteral(num, v, w, lit);
  }

  lemma GateTransfers(num: seq<nat>, gate: And, u: nat, v: Valuation, w: Valuation)
    requires gate.lhs == Lit(u) && u >= 1
    requires GateHolds(gate, v) && GateHolds(RenamedGate(num, gate), w)
    requires LitValue(w, Rename(num, gate.rhs0)) == LitValue(v, gate.rhs0)
    requires LitValue(w, Rename(num, gate.rhs1)) == LitValue(v, gate.rhs1)
    ensures w(Position(num, u)) == v(u)
  {
    assert Var(Rename(num, gate.lhs)) == Position(num, u);
  }
}
