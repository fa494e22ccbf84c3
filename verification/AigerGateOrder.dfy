/** Selecting, renaming and sorting the gates of a renumbered AIGER network. */
module AigerGateOrder {
  import opened Sequences
  import opened AigerNetwork
  import opened AigerTraversal
  import opened AigerNumbering

  // ---------- The comparison of qsort ----------

  const SIGN_BIT := 0x8000_0000
  const WORD := 0x1_0000_0000

  /** An unsigned word read as a signed one. */
  function ToInt(x: nat): int
    requires x < WORD
  {
    if x < SIGN_BIT then x else x - WORD
  }

  /** What cmp_lhs returns: a difference of ints, which C leaves undefined where no int can hold it. */
  datatype Comparison = Difference(value: int) | Overflow

  function CmpLhs(c: And, d: And): Comparison
    requires c.lhs < WORD && d.lhs < WORD
  {
    var difference := ToInt(c.lhs) - ToInt(d.lhs);
    if -SIGN_BIT <= difference < SIGN_BIT then Difference(difference) else Overflow
  }

  /** The comparison is defined and orders the two gates by their unsigned left-hand sides. */
  predicate RightlyCompared(c: And, d: And) {
    && c.lhs < WORD && d.lhs < WORD && CmpLhs(c, d).Difference?
    && (CmpLhs(c, d).value <= 0 <==> c.lhs <= d.lhs)
  }

  /** The comparison is right exactly when the top bits agree. Otherwise it overflows when the
      left-hand sides are near each other, and orders them the wrong way around when they are not. */
  lemma CmpLhsOrdersIff(c: And, d: And)
    requires c.lhs < WORD && d.lhs < WORD
    ensures RightlyCompared(c, d) <==> (c.lhs < SIGN_BIT <==> d.lhs < SIGN_BIT)
    ensures CmpLhs(c, d).Overflow? <==>
      (c.lhs < SIGN_BIT <= d.lhs <= c.lhs + SIGN_BIT) || (d.lhs < SIGN_BIT <= c.lhs < d.lhs + SIGN_BIT)
  {
  }

  /** Neighbouring gates on both sides of 2^31 overflow; distant ones are ordered wrongly. */
  lemma CmpLhsFails(first: And, below: And, above: And, last: And)
    requires first.lhs == 2 && below.lhs == SIGN_BIT - 2 && above.lhs == SIGN_BIT && last.lhs == SIGN_BIT + 4
    ensures CmpLhs(below, above) == CmpLhs(above, below) == Overflow
    ensures CmpLhs(first, last).Difference? && CmpLhs(first, last).value > 0
  {
  }

  /** What qsort needs of the gates it is given. */
  predicate Comparable(gates: seq<And>) {
    forall g, h :: g in gates && h in gates ==> RightlyCompared(g, h)
  }

  predicate StrictlySorted(gates: seq<And>) {
    forall i, j :: 0 <= i < j < |gates| ==> gates[i].lhs < gates[j].lhs
  }

  predicate DistinctLhs(gates: seq<And>) {
    forall i, j :: 0 <= i < j < |gates| ==> gates[i].lhs != gates[j].lhs
  }

  /** Stands for qsort with CmpLhs. */
  function SortByLhs(gates: seq<And>): (r: seq<And>)
    requires Comparable(gates) && DistinctLhs(gates)
    ensures StrictlySorted(r) && forall g :: g in r <==> g in gates
  {
    if gates == [] then []
    else
      assert forall g :: g in gates <==> g == gates[0] || g in gates[1..];
      InsertByLhs(gates[0], SortByLhs(gates[1..]))
  }

  function InsertByLhs(g: And, sorted: seq<And>): (r: seq<And>)
    requires StrictlySorted(sorted) && forall h :: h in sorted ==> h.lhs != g.lhs && RightlyCompared(g, h)
    ensures StrictlySorted(r) && forall h :: h in r <==> h == g || h in sorted
  {
    if sorted == [] then [g]
    else if RightlyBefore(g, sorted[0]) then [g] + sorted
    else
      assert forall h :: h in sorted <==> h == sorted[0] || h in sorted[1..];
      var rest := InsertByLhs(g, sorted[1..]);
      assert forall k :: 0 <= k < |rest| ==> rest[k] in rest && sorted[0].lhs < rest[k].lhs;
      [sorted[0]] + rest
  }

  predicate RightlyBefore(c: And, d: And)
    requires RightlyCompared(c, d)
    ensures RightlyBefore(c, d) <==> c.lhs <= d.lhs
  {
    CmpLhs(c, d).value <= 0
  }

  /** A strictly sorted list is determined by its elements. */
  lemma {:induction false} SortedUnique(a: seq<And>, b: seq<And>)
    requires StrictlySorted(a) && StrictlySorted(b) && forall g :: g in a <==> g in b
    ensures a == b
  {
    BothEmpty(a, b);
    if a != [] {
      var x, y := a[|a| - 1], b[|b| - 1];
      assert x in b && y in a;
      SortedLast(a, y);
      SortedLast(b, x);
      assert x == y;
      var frontA, frontB := a[..|a| - 1], b[..|b| - 1];
      InitElements(a, frontA);
      InitElements(b, frontB);
      SortedUnique(frontA, frontB);
      assert a == frontA + [x] && b == frontB + [y];
    }
  }

  lemma BothEmpty(a: seq<And>, b: seq<And>)
    requires forall g :: g in a <==> g in b
    ensures a == [] <==> b == []
  {
    if a != [] { assert a[0] in a; }
    if b != [] { assert b[0] in b; }
  }

  lemma SortedLast(a: seq<And>, g: And)
    requires StrictlySorted(a) && g in a
    ensures g.lhs <= a[|a| - 1].lhs && (g.lhs == a[|a| - 1].lhs ==> g == a[|a| - 1])
  {
    var i :| 0 <= i < |a| && a[i] == g;
  }

  lemma InitElements(a: seq<And>, init: seq<And>)
    requires StrictlySorted(a) && a != [] && init == a[..|a| - 1]
    ensures StrictlySorted(init) && forall g :: g in init <==> g in a && g != a[|a| - 1]
  {
    var last := a[|a| - 1];
    assert a == init + [last];
    forall g | g in init ensures g != last {
      var i :| 0 <= i < |init| && init[i] == g;
      assert a[i].lhs < a[|a| - 1].lhs;
    }
  }

  // ---------- The gates that are kept ----------

  /** The renamed numbered gates, in their old order. */
  function Selected(num: seq<nat>, ands: seq<And>): seq<And> {
    if ands == [] then []
    else
      var before := Selected(num, ands[..|ands| - 1]);
      var last := ands[|ands| - 1];
      if Var(last.lhs) in num then before + [RenamedGate(num, last)] else before
  }

  ghost predicate Selects(num: seq<nat>, ands: seq<And>, g: And) {
    exists i :: 0 <= i < |ands| && Var(ands[i].lhs) in num && g == RenamedGate(num, ands[i])
  }

  lemma {:induction false} SelectedElements(num: seq<nat>, ands: seq<And>, g: And)
    ensures g in Selected(num, ands) <==> Selects(num, ands, g)
  {
    if ands != [] {
      var n := |ands| - 1;
      var init := ands[..n];
      SelectedElements(num, init, g);
      if Selects(num, init, g) {
        var i :| 0 <= i < |init| && Var(init[i].lhs) in num && g == RenamedGate(num, init[i]);
        assert ands[i] == init[i];
      }
      if Selects(num, ands, g) {
        var i :| 0 <= i < |ands| && Var(ands[i].lhs) in num && g == RenamedGate(num, ands[i]);
        assert i < n ==> init[i] == ands[i];
        assert i < n ==> Selects(num, init, g);
      }
    }
  }

  /** Different gates get different left-hand sides. */
  lemma {:induction false} SelectedDistinct(num: seq<nat>, ands: seq<And>)
    requires WellDefined(ands) && Distinct(num)
    ensures DistinctLhs(Selected(num, ands))
  {
    if ands != [] {
      var n := |ands| - 1;
      var init, last := ands[..n], ands[n];
      SelectedDistinct(num, init);
      var before := Selected(num, init);
      if Var(last.lhs) in num {
        forall k | 0 <= k < |before| ensures before[k].lhs != RenamedGate(num, last).lhs {
          assert before[k] in before;
          SelectedElements(num, init, before[k]);
          var i :| 0 <= i < |init| && Var(init[i].lhs) in num && before[k] == RenamedGate(num, init[i]);
          RenameInjective(num, ands[i].lhs, last.lhs);
        }
      }
    }
  }

  lemma RenameInjective(num: seq<nat>, a: nat, b: nat)
    requires a >= 2 && b >= 2 && a % 2 == 0 && b % 2 == 0 && Var(a) in num && Var(b) in num && a != b
    ensures Rename(num, a) != Rename(num, b)
  {
    var p, q := Position(num, Var(a)), Position(num, Var(b));
    assert num[p - 1] == Var(a) && num[q - 1] == Var(b);
  }

  // ---------- Sorting the kept gates gives the renumbered gates ----------

  ghost function GateOf(ands: seq<And>, v: nat): (r: And)
    requires IsGate(ands, v)
    ensures exists j :: 0 <= j < |ands| && ands[j].lhs == Lit(v) && r == ands[j]
  {
    var j :| 0 <= j < |ands| && ands[j].lhs == Lit(v);
    ands[j]
  }

  lemma Target(ands: seq<And>, num: seq<nat>, leaves: nat) returns (target: seq<And>)
    requires Distinct(num) && Topological(ands, num, leaves) && forall i :: 0 <= i < |num| ==> num[i] >= 1
    ensures Renumbered(ands, num, leaves, target) && StrictlySorted(target)
    ensures forall k :: 0 <= k < |target| ==> target[k].lhs == Lit(leaves + k + 1)
  {
    target := seq(|num| - leaves, k requires 0 <= k < |num| - leaves => RenamedGate(num, GateOf(ands, num[leaves + k])));
    forall k | 0 <= k < |target| ensures GateAt(ands, num, leaves + k, target[k]) && target[k].lhs == Lit(leaves + k + 1) {
      TargetGate(ands, num, leaves + k);
    }
  }

  lemma TargetGate(ands: seq<And>, num: seq<nat>, i: nat)
    requires i < |num| && Distinct(num) && IsGate(ands, num[i]) && num[i] >= 1
    ensures GateAt(ands, num, i, RenamedGate(num, GateOf(ands, num[i])))
    ensures RenamedGate(num, GateOf(ands, num[i])).lhs == Lit(i + 1)
  {
    PositionAt(num, i);
    var j :| 0 <= j < |ands| && ands[j].lhs == Lit(num[i]) && GateOf(ands, num[i]) == ands[j];
  }

  lemma TargetElements(ands: seq<And>, num: seq<nat>, leaves: nat, target: seq<And>, g: And)
    requires WellDefined(ands) && Topological(ands, num, leaves) && Renumbered(ands, num, leaves, target)
    ensures g in target <==> Selects(num, ands, g)
  {
    if g in target {
      var k :| 0 <= k < |target| && target[k] == g;
      assert GateAt(ands, num, leaves + k, target[k]);
      var j :| 0 <= j < |ands| && ands[j].lhs == Lit(num[leaves + k]) && g == RenamedGate(num, ands[j]);
      assert Var(ands[j].lhs) == num[leaves + k];
    }
    if Selects(num, ands, g) {
      var j :| 0 <= j < |ands| && Var(ands[j].lhs) in num && g == RenamedGate(num, ands[j]);
      SelectedAt(ands, num, leaves, target, j);
    }
  }

  lemma SelectedAt(ands: seq<And>, num: seq<nat>, leaves: nat, target: seq<And>, j: nat)
    requires WellDefined(ands) && Topological(ands, num, leaves) && Renumbered(ands, num, leaves, target)
    requires j < |ands| && Var(ands[j].lhs) in num
    ensures RenamedGate(num, ands[j]) in target
  {
    var i :| 0 <= i < |num| && num[i] == Var(ands[j].lhs);
    assert ands[j].lhs == Lit(num[i]);
    assert IsGate(ands, num[i]);
    var k := i - leaves;
    assert GateAt(ands, num, leaves + k, target[k]);
    var j' :| 0 <= j' < |ands| && ands[j'].lhs == Lit(num[i]) && target[k] == RenamedGate(num, ands[j']);
    assert j' == j;
  }

  /** The kept gates are those of the renumbered network, in another order. */
  lemma KeptGates(num: seq<nat>, ands: seq<And>, leaves: nat) returns (target: seq<And>)
    requires WellDefined(ands) && Distinct(num) && Topological(ands, num, leaves)
    requires forall i :: 0 <= i < |num| ==> num[i] >= 1
    ensures DistinctLhs(Selected(num, ands)) && |Selected(num, ands)| == |target|
    ensures forall g :: g in Selected(num, ands) <==> g in target
    ensures Renumbered(ands, num, leaves, target) && StrictlySorted(target)
    ensures forall k :: 0 <= k < |target| ==> target[k].lhs == Lit(leaves + k + 1)
  {
    SelectedDistinct(num, ands);
    target := Target(ands, num, leaves);
    var kept := Selected(num, ands);
    forall g ensures g in kept <==> g in target {
      SelectedElements(num, ands, g);
      TargetElements(ands, num, leaves, target, g);
    }
    SameSize(kept, target);
  }

  lemma SameSize(kept: seq<And>, target: seq<And>)
    requires DistinctLhs(kept) && StrictlySorted(target) && forall g :: g in kept <==> g in target
    ensures |kept| == |target|
  {
    DistinctSize(kept);
    DistinctSize(target);
    assert SetOf(kept) == SetOf(target);
  }

  lemma SortedGates(num: seq<nat>, ands: seq<And>, leaves: nat)
    requires WellDefined(ands) && Distinct(num) && Topological(ands, num, leaves)
    requires forall i :: 0 <= i < |num| ==> num[i] >= 1
    ensures DistinctLhs(Selected(num, ands))
    ensures Comparable(Selected(num, ands)) ==> Renumbered(ands, num, leaves, SortByLhs(Selected(num, ands)))
  {
    var target := KeptGates(num, ands, leaves);
    if Comparable(Selected(num, ands)) { SortedUnique(SortByLhs(Selected(num, ands)), target); }
  }

  /** The literals of so many gates after so many leaves lie on one side of 2^31. */
  predicate OneSided(leaves: nat, gates: nat) {
    gates == 0 || Lit(leaves + gates) < SIGN_BIT || Lit(leaves + 1) >= SIGN_BIT
  }

  lemma KeptLiteral(target: seq<And>, leaves: nat, g: And)
    requires g in target && forall k :: 0 <= k < |target| ==> target[k].lhs == Lit(leaves + k + 1)
    ensures Lit(leaves + 1) <= g.lhs <= Lit(leaves + |target|)
  {
    var i :| 0 <= i < |target| && target[i] == g;
  }

  lemma SameSide(leaves: nat, gates: nat, g: And, h: And)
    requires OneSided(leaves, gates) && gates > 0 && Lit(leaves + gates) < WORD
    requires Lit(leaves + 1) <= g.lhs <= Lit(leaves + gates) && Lit(leaves + 1) <= h.lhs <= Lit(leaves + gates)
    ensures RightlyCompared(g, h)
  {
    CmpLhsOrdersIff(g, h);
  }

  /** qsort orders the kept gates exactly when their literals lie on one side of 2^31. */
  lemma ComparableIff(num: seq<nat>, ands: seq<And>, leaves: nat)
    requires WellDefined(ands) && Distinct(num) && Topological(ands, num, leaves) && Lit(|num|) < WORD
    requires forall i :: 0 <= i < |num| ==> num[i] >= 1
    ensures |Selected(num, ands)| == |num| - leaves
    ensures Comparable(Selected(num, ands)) <==> OneSided(leaves, |Selected(num, ands)|)
  {
    var target := KeptGates(num, ands, leaves);
    var kept := Selected(num, ands);
    if OneSided(leaves, |kept|) {
      forall g, h | g in kept && h in kept ensures RightlyCompared(g, h) {
        KeptLiteral(target, leaves, g);
        KeptLiteral(target, leaves, h);
        SameSide(leaves, |kept|, g, h);
      }
    } else {
      var k := Var(SIGN_BIT) - leaves - 2;
      CmpLhsOrdersIff(target[k], target[k + 1]);
      assert target[k] in kept && target[k + 1] in kept;
    }
  }
}
