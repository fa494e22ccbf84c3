/** The recurrence-diameter formulas: all states pairwise distinct, directly and through an
    in-place bitonic sort of the state vectors. Every claim is about all models of the clauses
    the solver holds afterwards, and no assignment to the earlier variables is excluded. */
module Diameter {
  import opened Sequences
  import opened PropSolver
  import opened BitonicNetwork

  type Word = seq<Literal>

  predicate WellTyped(v: seq<Word>, width: nat, vars: nat) {
    forall w :: w in v ==> |w| == width && AllBelow(w, vars)
  }

  /** A word read as a number, most significant bit first. */
  ghost function Number(w: Word, m: seq<bool>): nat {
    if w == [] then 0
    else 2 * Number(w[..|w| - 1], m) + if w[|w| - 1].Eval(m) then 1 else 0
  }

  ghost function Numbers(v: seq<Word>, m: seq<bool>): (r: seq<int>)
    ensures |r| == |v|
  {
    seq(|v|, k requires 0 <= k < |v| => Number(v[k], m))
  }

  lemma TypedLater(v: seq<Word>, width: nat, c0: Cnf, c1: Cnf)
    requires WellTyped(v, width, c0.vars) && Extends(c0, c1)
    ensures WellTyped(v, width, c1.vars)
  {
  }

  function Bit(b: bool): nat { if b then 1 else 0 }

  // ---------- The on-line comparator ----------

  /** After some leading bits with values a and b: is the direction fixed, and does a come first? */
  ghost predicate Online(s: bool, t: bool, a: int, b: int) {
    (s <==> a != b) && (a != b ==> (t <==> a < b))
  }

  function Lesser(dir: bool, a: int, b: int): int { if dir then Min(a, b) else Max(a, b) }

  lemma OnlineStep(dir: bool, s: bool, t: bool, a: int, b: int, x: bool, y: bool)
    requires Online(s, t, a, b)
    ensures var t' := if s then t else y;
      var ordering := t' == dir;
      && Online((x != y) || s, t', 2 * a + Bit(x), 2 * b + Bit(y))
      && Lesser(dir, 2 * a + Bit(x), 2 * b + Bit(y)) == 2 * Lesser(dir, a, b) + Bit(if ordering then x else y)
      && Lesser(!dir, 2 * a + Bit(x), 2 * b + Bit(y)) == 2 * Lesser(!dir, a, b) + Bit(if ordering then y else x)
  {
  }

  /** One bit of the comparator in terms of literal values. */
  ghost predicate BitStep(dir: bool, s: bool, t: bool, x: bool, y: bool, s': bool, t': bool, oa: bool, ob: bool) {
    && t' == (if s then t else y)
    && s' == ((x != y) || s)
    && oa == (if t' == dir then x else y)
    && ob == (if t' == dir then y else x)
  }

  lemma EitherEval(x: Literal, y: Literal, m: seq<bool>)
    ensures (exists l :: l in [x, y] && l.Eval(m)) <==> x.Eval(m) || y.Eval(m)
  {
    assert [x, y][0] == x && [x, y][1] == y;
    assert x in [x, y] && y in [x, y];
  }

  method CompareBit(solver: Prop, x: Literal, y: Literal, s: Literal, t: Literal, dir: bool)
    returns (s': Literal, t': Literal, oa: Literal, ob: Literal)
    requires solver.cnf.Valid() && AllBelow([x, y, s, t], solver.cnf.vars)
    modifies solver
    ensures Extends(old(solver.cnf), solver.cnf)
    ensures s'.Below(solver.cnf.vars) && t'.Below(solver.cnf.vars)
    ensures oa.Below(solver.cnf.vars) && ob.Below(solver.cnf.vars)
    ensures forall m :: solver.cnf.Models(m) ==>
      BitStep(dir, s.Eval(m), t.Eval(m), x.Eval(m), y.Eval(m), s'.Eval(m), t'.Eval(m), oa.Eval(m), ob.Eval(m))
  {
    FourBelow(x, y, s, t, solver.cnf.vars);
    ghost var c0 := solver.cnf;
    t' := solver.Select(t, y, s);
    ghost var c1 := solver.cnf;
    var differ := solver.Lxor(x, y);
    ghost var c2 := solver.cnf;
    s' := solver.Lor([differ, s]);
    ghost var c3 := solver.cnf;
    var ordering := if dir then t' else t'.Neg();
    oa := solver.Select(x, y, ordering);
    ghost var c4 := solver.cnf;
    ob := solver.Select(y, x, ordering);
    ExtendsTransitive(c0, c1, c2);
    ExtendsTransitive(c0, c2, c3);
    ExtendsTransitive(c0, c3, c4);
    ExtendsTransitive(c0, c4, solver.cnf);
    forall m | solver.cnf.Models(m)
      ensures BitStep(dir, s.Eval(m), t.Eval(m), x.Eval(m), y.Eval(m), s'.Eval(m), t'.Eval(m), oa.Eval(m), ob.Eval(m))
    {
      ExtendsModels(c4, solver.cnf, m);
      ExtendsModels(c3, c4, m);
      ExtendsModels(c2, c3, m);
      ExtendsModels(c1, c2, m);
      EitherEval(differ, s, m);
      NegEval(t', solver.cnf.vars, m);
    }
  }

  lemma FourBelow(x: Literal, y: Literal, s: Literal, t: Literal, n: nat)
    requires AllBelow([x, y, s, t], n)
    ensures x.Below(n) && y.Below(n) && s.Below(n) && t.Below(n)
  {
    var ls := [x, y, s, t];
    assert ls[0] in ls && ls[1] in ls && ls[2] in ls && ls[3] in ls;
  }

  lemma NegEval(l: Literal, n: nat, m: seq<bool>)
    requires l.Below(n) && |m| >= n
    ensures l.Neg().Eval(m) == !l.Eval(m)
  {
  }

  ghost predicate InOrder(s: bool, t: bool, dir: bool, na: int, nb: int, noa: int, nob: int) {
    Online(s, t, na, nb) && noa == Lesser(dir, na, nb) && nob == Lesser(!dir, na, nb)
  }

  /** The first i output bits are the smaller and larger of the first i input bits. */
  ghost predicate Compared(a: Word, b: Word, oa: Word, ob: Word, s: Literal, t: Literal, dir: bool, i: nat, m: seq<bool>)
    requires i <= |a| == |b| == |oa| == |ob|
  {
    InOrder(s.Eval(m), t.Eval(m), dir, Number(a[..i], m), Number(b[..i], m), Number(oa[..i], m), Number(ob[..i], m))
  }

  lemma NumberStep(w: Word, i: nat, m: seq<bool>)
    requires i < |w|
    ensures Number(w[..i + 1], m) == 2 * Number(w[..i], m) + Bit(w[i].Eval(m))
  {
    assert w[..i + 1][..i] == w[..i];
  }

  lemma NumberUpdate(w: Word, i: nat, l: Literal, m: seq<bool>)
    requires i < |w|
    ensures Number(w[i := l][..i + 1], m) == 2 * Number(w[..i], m) + Bit(l.Eval(m))
  {
    NumberStep(w[i := l], i, m);
    assert w[i := l][..i] == w[..i];
  }

  lemma ComparedStep(a: Word, b: Word, oa: Word, ob: Word, s: Literal, t: Literal, dir: bool, i: nat,
                     s': Literal, t': Literal, la: Literal, lb: Literal, m: seq<bool>)
    requires i < |a| == |b| == |oa| == |ob| && Compared(a, b, oa, ob, s, t, dir, i, m)
    requires BitStep(dir, s.Eval(m), t.Eval(m), a[i].Eval(m), b[i].Eval(m), s'.Eval(m), t'.Eval(m), la.Eval(m), lb.Eval(m))
    ensures Compared(a, b, oa[i := la], ob[i := lb], s', t', dir, i + 1, m)
  {
    NumberStep(a, i, m);
    NumberStep(b, i, m);
    NumberUpdate(oa, i, la, m);
    NumberUpdate(ob, i, lb, m);
    InOrderStep(dir, s.Eval(m), t.Eval(m), Number(a[..i], m), Number(b[..i], m), Number(oa[..i], m), Number(ob[..i], m),
                a[i].Eval(m), b[i].Eval(m), s'.Eval(m), t'.Eval(m), la.Eval(m), lb.Eval(m));
  }

  lemma InOrderStep(dir: bool, s: bool, t: bool, na: int, nb: int, noa: int, nob: int,
                    x: bool, y: bool, s': bool, t': bool, la: bool, lb: bool)
    requires InOrder(s, t, dir, na, nb, noa, nob) && BitStep(dir, s, t, x, y, s', t', la, lb)
    ensures InOrder(s', t', dir, 2 * na + Bit(x), 2 * nb + Bit(y), 2 * noa + Bit(la), 2 * nob + Bit(lb))
  {
    OnlineStep(dir, s, t, na, nb, x, y);
  }

  /** The bit-serial compare-exchange puts the two words in order, in every model. */
  method CompareWords(solver: Prop, a: Word, b: Word, dir: bool) returns (oa: Word, ob: Word)
    requires solver.cnf.Valid() && |a| == |b| && AllBelow(a, solver.cnf.vars) && AllBelow(b, solver.cnf.vars)
    modifies solver
    ensures Extends(old(solver.cnf), solver.cnf) && |oa| == |ob| == |a|
    ensures AllBelow(oa, solver.cnf.vars) && AllBelow(ob, solver.cnf.vars)
    ensures forall m :: solver.cnf.Models(m) ==>
      && Number(oa, m) == Lesser(dir, Number(a, m), Number(b, m))
      && Number(ob, m) == Lesser(!dir, Number(a, m), Number(b, m))
  {
    ghost var c0 := solver.cnf;
    ExtendsReflexive(c0);
    oa, ob := a, b;
    var s, t := Const(false), Const(false);
    var i := 0;
    while i < |a|
      invariant 0 <= i <= |a| == |oa| == |ob|
      invariant Extends(c0, solver.cnf) && s.Below(solver.cnf.vars) && t.Below(solver.cnf.vars)
      invariant AllBelow(oa, solver.cnf.vars) && AllBelow(ob, solver.cnf.vars)
      invariant oa[i..] == a[i..] && ob[i..] == b[i..]
      invariant forall m :: solver.cnf.Models(m) ==> Compared(a, b, oa, ob, s, t, dir, i, m)
    {
      assert oa[i] == oa[i..][0] == a[i] && ob[i] == ob[i..][0] == b[i];
      assert oa[i] in oa && ob[i] in ob;
      ghost var before, s0, t0, oa0, ob0 := solver.cnf, s, t, oa, ob;
      var la, lb;
      s, t, la, lb := CompareBit(solver, oa[i], ob[i], s, t, dir);
      oa, ob := oa[i := la], ob[i := lb];
      ExtendsTransitive(c0, before, solver.cnf);
      UpdatedBelow(oa0, i, la, before, solver.cnf);
      UpdatedBelow(ob0, i, lb, before, solver.cnf);
      forall m | solver.cnf.Models(m) ensures Compared(a, b, oa, ob, s, t, dir, i + 1, m) {
        ExtendsModels(before, solver.cnf, m);
        ComparedStep(a, b, oa0, ob0, s0, t0, dir, i, s, t, la, lb, m);
      }
      assert oa[i + 1..] == oa0[i..][1..] && ob[i + 1..] == ob0[i..][1..];
      i := i + 1;
    }
    assert a[..i] == a && b[..i] == b && oa[..i] == oa && ob[..i] == ob;
  }

  lemma UpdatedBelow(w: Word, i: nat, l: Literal, c0: Cnf, c1: Cnf)
    requires i < |w| && AllBelow(w, c0.vars) && Extends(c0, c1) && l.Below(c1.vars)
    ensures AllBelow(w[i := l], c1.vars)
  {
    forall x | x in w[i := l] ensures x.Below(c1.vars) {
      var k :| 0 <= k < |w| && w[i := l][k] == x;
      assert w[k] in w;
    }
  }

  /** In every model the words at i and j are the smaller and the larger number, in the given order. */
  ghost predicate Exchanges(c: Cnf, before: seq<Word>, now: seq<Word>, i: nat, j: nat, dir: bool) {
    && i < |before| == |now| && j < |before| && i != j
    && forall m :: c.Models(m) ==> Numbers(now, m) == Exchange(Numbers(before, m), i, j, dir)
  }

  /** compare(v, i, j, dir) on the vector of state words. */
  method Compare(solver: Prop, v: array<Word>, i: nat, j: nat, dir: bool, ghost width: nat)
    requires solver.cnf.Valid() && i < v.Length && j < v.Length && i != j
    requires WellTyped(v[..], width, solver.cnf.vars)
    modifies solver, v
    ensures Extends(old(solver.cnf), solver.cnf) && WellTyped(v[..], width, solver.cnf.vars)
    ensures Exchanges(solver.cnf, old(v[..]), v[..], i, j, dir)
  {
    ghost var before, c0 := v[..], solver.cnf;
    assert v[i] in v[..] && v[j] in v[..];
    var oa, ob := CompareWords(solver, v[i], v[j], dir);
    v[i] := oa;
    v[j] := ob;
    TypedLater(before, width, c0, solver.cnf);
    assert v[..] == before[i := oa][j := ob];
    forall m | solver.cnf.Models(m) ensures Numbers(v[..], m) == Exchange(Numbers(before, m), i, j, dir) {
      assert Numbers(v[..], m) == Numbers(before, m)[i := Number(oa, m)][j := Number(ob, m)];
    }
  }

  /** In every model the words are now what the merge network makes of the old ones. */
  ghost predicate Merges(c: Cnf, before: seq<Word>, now: seq<Word>, lo: nat, cnt: nat, dir: bool, high: nat) {
    && PowerOfTwo(cnt) && high < |before| == |now|
    && forall m :: c.Models(m) ==> Numbers(now, m) == MergedNumbers(before, m, lo, cnt, dir, high)
  }

  ghost function MergedNumbers(before: seq<Word>, m: seq<bool>, lo: nat, cnt: nat, dir: bool, high: nat): seq<int>
    requires PowerOfTwo(cnt) && high < |before|
  {
    MergeNetwork(Numbers(before, m), lo, cnt, dir, high)
  }

  method BitonicMerge(solver: Prop, v: array<Word>, lo: nat, cnt: nat, dir: bool, high: nat, ghost width: nat)
    requires solver.cnf.Valid() && PowerOfTwo(cnt) && high < v.Length
    requires WellTyped(v[..], width, solver.cnf.vars)
    modifies solver, v
    ensures Extends(old(solver.cnf), solver.cnf) && WellTyped(v[..], width, solver.cnf.vars)
    ensures Merges(solver.cnf, old(v[..]), v[..], lo, cnt, dir, high)
    decreases cnt
  {
    ghost var before, c0 := v[..], solver.cnf;
    ExtendsReflexive(c0);
    if cnt > 1 {
      var k := cnt / 2;
      HalfCleanInPlace(solver, v, lo, k, dir, high, width);
      ghost var cleaned, c1 := v[..], solver.cnf;
      BitonicMerge(solver, v, lo, k, dir, high, width);
      ghost var left, c2 := v[..], solver.cnf;
      BitonicMerge(solver, v, lo + k, k, dir, high, width);
      ExtendsTransitive(c0, c1, c2);
      ExtendsTransitive(c0, c2, solver.cnf);
      forall m | solver.cnf.Models(m)
        ensures Numbers(v[..], m) == MergeNetwork(Numbers(before, m), lo, cnt, dir, high)
      {
        ExtendsModels(c2, solver.cnf, m);
        ExtendsModels(c1, c2, m);
      }
    }
  }

  lemma HalfCleanAdvance(x: seq<int>, y: seq<int>, i: nat, end: nat, k: nat, dir: bool, high: nat)
    requires i < end && 0 < k && high < |x| == |y|
    requires y == if i + k <= high then Exchange(x, i, i + k, dir) else x
    ensures HalfClean(x, i, end, k, dir, high) == HalfClean(y, i + 1, end, k, dir, high)
  {
  }

  /** Half-cleaning the rest of the current words finishes half-cleaning the original ones. */
  ghost predicate Cleaning(c: Cnf, now: seq<Word>, before: seq<Word>, i: nat, lo: nat, k: nat, dir: bool, high: nat) {
    && 0 < k && lo <= i <= lo + k && high < |now| == |before|
    && forall m :: c.Models(m) ==>
      HalfClean(Numbers(now, m), i, lo + k, k, dir, high) == HalfClean(Numbers(before, m), lo, lo + k, k, dir, high)
  }

  lemma CleaningStep(c1: Cnf, c2: Cnf, now: seq<Word>, next: seq<Word>, before: seq<Word>,
                     i: nat, j: nat, lo: nat, k: nat, dir: bool, high: nat)
    requires Cleaning(c1, now, before, i, lo, k, dir, high) && i < lo + k && j == i + k <= high && |next| == |now|
    requires Extends(c1, c2) && Exchanges(c2, now, next, i, j, dir)
    ensures Cleaning(c2, next, before, i + 1, lo, k, dir, high)
  {
    forall m | c2.Models(m)
      ensures HalfClean(Numbers(next, m), i + 1, lo + k, k, dir, high)
           == HalfClean(Numbers(before, m), lo, lo + k, k, dir, high)
    {
      ExtendsModels(c1, c2, m);
      HalfCleanAdvance(Numbers(now, m), Numbers(next, m), i, lo + k, k, dir, high);
    }
  }

  method HalfCleanInPlace(solver: Prop, v: array<Word>, lo: nat, k: nat, dir: bool, high: nat, ghost width: nat)
    requires solver.cnf.Valid() && 0 < k && high < v.Length
    requires WellTyped(v[..], width, solver.cnf.vars)
    modifies solver, v
    ensures Extends(old(solver.cnf), solver.cnf) && WellTyped(v[..], width, solver.cnf.vars)
    ensures forall m :: solver.cnf.Models(m) ==>
      Numbers(v[..], m) == HalfClean(Numbers(old(v[..]), m), lo, lo + k, k, dir, high)
  {
    ghost var before, c0 := v[..], solver.cnf;
    ExtendsReflexive(c0);
    var i := lo;
    while i < lo + k
      invariant lo <= i <= lo + k
      invariant Extends(c0, solver.cnf) && WellTyped(v[..], width, solver.cnf.vars)
      invariant Cleaning(solver.cnf, v[..], before, i, lo, k, dir, high)
    {
      ghost var c1 := solver.cnf;
      CleanOne(solver, v, i, lo, k, dir, high, width, before);
      ExtendsTransitive(c0, c1, solver.cnf);
      i := i + 1;
    }
    CleaningDone(solver.cnf, v[..], before, lo, k, dir, high);
  }

  lemma CleaningDone(c: Cnf, now: seq<Word>, before: seq<Word>, lo: nat, k: nat, dir: bool, high: nat)
    requires Cleaning(c, now, before, lo + k, lo, k, dir, high)
    ensures forall m :: c.Models(m) ==>
      Numbers(now, m) == HalfClean(Numbers(before, m), lo, lo + k, k, dir, high)
  {
  }

  method CleanOne(solver: Prop, v: array<Word>, i: nat, lo: nat, k: nat, dir: bool, high: nat, ghost width: nat,
                  ghost before: seq<Word>)
    requires solver.cnf.Valid() && high < v.Length && WellTyped(v[..], width, solver.cnf.vars)
    requires lo <= i < lo + k && Cleaning(solver.cnf, v[..], before, i, lo, k, dir, high)
    modifies solver, v
    ensures Extends(old(solver.cnf), solver.cnf) && WellTyped(v[..], width, solver.cnf.vars)
    ensures Cleaning(solver.cnf, v[..], before, i + 1, lo, k, dir, high)
  {
    ghost var now, c1 := v[..], solver.cnf;
    ExtendsReflexive(c1);
    var j := i + k;
    if j <= high {
      Compare(solver, v, i, j, dir, width);
      CleaningStep(c1, solver.cnf, now, v[..], before, i, j, lo, k, dir, high);
    } else {
      CleaningSkip(c1, now, before, i, lo, k, dir, high);
    }
  }

  lemma CleaningSkip(c: Cnf, now: seq<Word>, before: seq<Word>, i: nat, lo: nat, k: nat, dir: bool, high: nat)
    requires Cleaning(c, now, before, i, lo, k, dir, high) && i < lo + k && i + k > high
    ensures Cleaning(c, now, before, i + 1, lo, k, dir, high)
  {
    forall m | c.Models(m)
      ensures HalfClean(Numbers(now, m), i + 1, lo + k, k, dir, high)
           == HalfClean(Numbers(before, m), lo, lo + k, k, dir, high)
    {
      HalfCleanAdvance(Numbers(now, m), Numbers(now, m), i, lo + k, k, dir, high);
    }
  }

  /** The smallest power of two not below i. */
  method Power2(i: nat) returns (result: nat)
    ensures result == CeilPower(i, 1)
    ensures PowerOfTwo(result) && result >= i && (result == 1 || result / 2 < i)
  {
    result := 1;
    while result < i
      invariant PowerOfTwo(result) && (result == 1 || result / 2 < i)
      invariant CeilPower(i, result) == CeilPower(i, 1)
      decreases i - result
    {
      DoublePower(result);
      result := result * 2;
    }
  }

  /** In every model the words of the range are now sorted and are the words that were there. */
  ghost predicate SortsWords(c: Cnf, before: seq<Word>, now: seq<Word>, lo: nat, cnt: nat, dir: bool) {
    && |now| == |before| && lo + cnt <= |before|
    && forall m :: c.Models(m) ==>
      && SortedIn(Numbers(now, m), lo, lo + cnt, dir)
      && Permutes(Numbers(before, m), Numbers(now, m), lo, lo + cnt)
  }

  ghost predicate FourDone(c: Cnf, before: seq<Word>, now: seq<Word>, lo: nat, dir: bool, steps: nat) {
    && |now| == |before| && lo + 4 <= |before|
    && forall m :: c.Models(m) ==> Numbers(now, m) == FourSort(Numbers(before, m), lo, dir, steps)
  }

  lemma FourSortNext(s: seq<int>, lo: nat, dir: bool, steps: nat, i: nat, j: nat)
    requires lo + 4 <= |s| && i == lo + FourFirst(steps + 1) && j == lo + FourSecond(steps + 1)
    ensures FourSort(s, lo, dir, steps + 1) == Exchange(FourSort(s, lo, dir, steps), i, j, dir)
  {
  }

  lemma FourStep(c1: Cnf, c2: Cnf, before: seq<Word>, now: seq<Word>, next: seq<Word>, lo: nat, i: nat, j: nat, dir: bool,
                 steps: nat)
    requires Extends(c1, c2) && FourDone(c1, before, now, lo, dir, steps) && Exchanges(c2, now, next, i, j, dir)
    requires i == lo + FourFirst(steps + 1) && j == lo + FourSecond(steps + 1)
    ensures FourDone(c2, before, next, lo, dir, steps + 1)
  {
    forall m | c2.Models(m) ensures Numbers(next, m) == FourSort(Numbers(before, m), lo, dir, steps + 1) {
      ExtendsModels(c1, c2, m);
      FourSortNext(Numbers(before, m), lo, dir, steps, i, j);
    }
  }

  /** One of the five comparators. */
  method CompareFour(solver: Prop, v: array<Word>, lo: nat, i: nat, j: nat, dir: bool, ghost width: nat,
                     ghost c0: Cnf, ghost before: seq<Word>, ghost steps: nat)
    requires solver.cnf.Valid() && lo + 4 <= v.Length && WellTyped(v[..], width, solver.cnf.vars)
    requires i < 4 && j < 4 && i != j && i == FourFirst(steps + 1) && j == FourSecond(steps + 1)
    requires Extends(c0, solver.cnf) && FourDone(solver.cnf, before, v[..], lo, dir, steps)
    modifies solver, v
    ensures WellTyped(v[..], width, solver.cnf.vars)
    ensures Extends(c0, solver.cnf) && FourDone(solver.cnf, before, v[..], lo, dir, steps + 1)
  {
    ghost var c1, now := solver.cnf, v[..];
    var p, q := lo + i, lo + j;
    Compare(solver, v, p, q, dir, width);
    ExtendsTransitive(c0, c1, solver.cnf);
    FourStep(c1, solver.cnf, before, now, v[..], lo, p, q, dir, steps);
  }

  method SortFour(solver: Prop, v: array<Word>, lo: nat, dir: bool, ghost width: nat)
    requires solver.cnf.Valid() && lo + 4 <= v.Length && WellTyped(v[..], width, solver.cnf.vars)
    modifies solver, v
    ensures Extends(old(solver.cnf), solver.cnf) && WellTyped(v[..], width, solver.cnf.vars)
    ensures SortsWords(solver.cnf, old(v[..]), v[..], lo, 4, dir)
  {
    ghost var c0, before := solver.cnf, v[..];
    ExtendsReflexive(c0);
    for step := 0 to 5
      invariant WellTyped(v[..], width, solver.cnf.vars)
      invariant Extends(c0, solver.cnf) && FourDone(solver.cnf, before, v[..], lo, dir, step)
    {
      CompareFour(solver, v, lo, FourFirst(step + 1), FourSecond(step + 1), dir, width, c0, before, step);
    }
    forall m | solver.cnf.Models(m)
      ensures SortedIn(Numbers(v[..], m), lo, lo + 4, dir)
      ensures Permutes(Numbers(before, m), Numbers(v[..], m), lo, lo + 4)
    {
      FourSortSorts(Numbers(before, m), lo, dir);
    }
  }

  method MergeRuns(solver: Prop, v: array<Word>, lo: nat, k: nat, cnt: nat, pow: nat, dir: bool, ghost width: nat,
                   ghost c1: Cnf, ghost before: seq<Word>, ghost first: seq<Word>)
    requires solver.cnf.Valid() && Extends(c1, solver.cnf) && WellTyped(v[..], width, solver.cnf.vars)
    requires PowerOfTwo(pow) && k <= cnt <= pow && 0 < cnt && lo + cnt <= v.Length == |before|
    requires SortsWords(c1, before, first, lo, k, !dir)
    requires SortsWords(solver.cnf, first, v[..], lo + k, cnt - k, dir)
    modifies solver, v
    ensures Extends(old(solver.cnf), solver.cnf) && WellTyped(v[..], width, solver.cnf.vars)
    ensures SortsWords(solver.cnf, before, v[..], lo, cnt, dir)
  {
    ghost var c2, halves := solver.cnf, v[..];
    var high := lo + cnt - 1;
    BitonicMerge(solver, v, lo, pow, dir, high, width);
    MergedRuns(c1, c2, solver.cnf, before, first, halves, v[..], lo, k, cnt, pow, dir, high);
  }

  lemma SecondRun(x: seq<int>, y: seq<int>, mid: nat, rest: nat, end: nat, dir: bool)
    requires mid + rest == end <= |y| && SortedIn(y, mid, mid + rest, dir) && Permutes(x, y, mid, mid + rest)
    ensures SortedIn(y, mid, end, dir) && Permutes(x, y, mid, end)
  {
  }

  lemma MergedRuns(c1: Cnf, c2: Cnf, c3: Cnf, before: seq<Word>, first: seq<Word>, halves: seq<Word>, r: seq<Word>,
                   lo: nat, k: nat, cnt: nat, pow: nat, dir: bool, high: nat)
    requires Extends(c1, c2) && Extends(c2, c3) && PowerOfTwo(pow) && k <= cnt <= pow && 0 < cnt && lo + cnt <= |before|
    requires SortsWords(c1, before, first, lo, k, !dir) && SortsWords(c2, first, halves, lo + k, cnt - k, dir)
    requires high == lo + cnt - 1 && Merges(c3, halves, r, lo, pow, dir, high)
    ensures SortsWords(c3, before, r, lo, cnt, dir)
  {
    forall m | c3.Models(m)
      ensures SortedIn(Numbers(r, m), lo, lo + cnt, dir) && Permutes(Numbers(before, m), Numbers(r, m), lo, lo + cnt)
    {
      ExtendsModels(c2, c3, m);
      ExtendsModels(c1, c2, m);
      SecondRun(Numbers(first, m), Numbers(halves, m), lo + k, cnt - k, lo + cnt, dir);
      SortedRunsMerge(Numbers(before, m), Numbers(first, m), Numbers(halves, m), lo, lo + k, lo + cnt, pow, dir, high);
    }
  }

  /** Sorts the range in place, in every model, for any number of words. */
  method BitonicSort(solver: Prop, v: array<Word>, lo: nat, cnt: nat, dir: bool, ghost width: nat)
    requires solver.cnf.Valid() && lo + cnt <= v.Length && WellTyped(v[..], width, solver.cnf.vars)
    modifies solver, v
    ensures Extends(old(solver.cnf), solver.cnf) && WellTyped(v[..], width, solver.cnf.vars)
    ensures SortsWords(solver.cnf, old(v[..]), v[..], lo, cnt, dir)
    decreases cnt
  {
    ghost var c0, before := solver.cnf, v[..];
    ExtendsReflexive(c0);
    if cnt > 1 {
      if cnt == 4 {
        SortFour(solver, v, lo, dir, width);
        return;
      }
      var pow := Power2(cnt);
      var k := pow / 2;
      BitonicSort(solver, v, lo, k, !dir, width);
      ghost var c1, first := solver.cnf, v[..];
      BitonicSort(solver, v, lo + k, cnt - k, dir, width);
      ghost var c2 := solver.cnf;
      ExtendsTransitive(c0, c1, c2);
      MergeRuns(solver, v, lo, k, cnt, pow, dir, width, c1, before, first);
      ExtendsTransitive(c0, c2, solver.cnf);
    }
  }

  // ---------- Equality and distinctness ----------

  ghost predicate SameBits(a: Word, b: Word, m: seq<bool>)
    requires |a| == |b|
  {
    forall i :: 0 <= i < |a| ==> a[i].Eval(m) == b[i].Eval(m)
  }

  lemma {:induction false} SameBitsSameNumber(a: Word, b: Word, m: seq<bool>)
    requires |a| == |b|
    ensures SameBits(a, b, m) <==> Number(a, m) == Number(b, m)
  {
    if a != [] {
      var last := |a| - 1;
      SameBitsSameNumber(a[..last], b[..last], m);
      if Number(a, m) == Number(b, m) {
        assert a[last].Eval(m) == b[last].Eval(m);
        forall i | 0 <= i < |a| ensures a[i].Eval(m) == b[i].Eval(m) {
          if i < last { assert a[..last][i].Eval(m) == b[..last][i].Eval(m); }
        }
      }
    }
  }

  /** A literal that is true exactly when the two words are equal. */
  method Comparator(solver: Prop, a: Word, b: Word) returns (equal: Literal)
    requires solver.cnf.Valid() && |a| == |b| && AllBelow(a, solver.cnf.vars) && AllBelow(b, solver.cnf.vars)
    modifies solver
    ensures Extends(old(solver.cnf), solver.cnf) && equal.Below(solver.cnf.vars)
    ensures forall m :: solver.cnf.Models(m) ==> (equal.Eval(m) <==> Number(a, m) == Number(b, m))
  {
    ghost var c0 := solver.cnf;
    ExtendsReflexive(c0);
    var xors: seq<Literal> := [];
    while |xors| < |a|
      invariant |xors| <= |a| && Extends(c0, solver.cnf) && AllBelow(xors, solver.cnf.vars)
      invariant forall m :: solver.cnf.Models(m) ==> XorsSoFar(xors, a, b, m)
      decreases |a| - |xors|
    {
      ghost var before, earlier := solver.cnf, xors;
      assert a[|xors|] in a && b[|xors|] in b;
      var x := solver.Lxor(a[|xors|], b[|xors|]);
      ExtendsTransitive(c0, before, solver.cnf);
      xors := xors + [x];
      forall m | solver.cnf.Models(m) ensures XorsSoFar(xors, a, b, m) {
        ExtendsModels(before, solver.cnf, m);
        assert XorsSoFar(earlier, a, b, m);
      }
    }
    ghost var before := solver.cnf;
    var literal := solver.Lor(xors);
    ExtendsTransitive(c0, before, solver.cnf);
    equal := literal.Neg();
    forall m | solver.cnf.Models(m) ensures equal.Eval(m) <==> Number(a, m) == Number(b, m) {
      ExtendsModels(before, solver.cnf, m);
      NegEval(literal, solver.cnf.vars, m);
      XorsDecide(xors, a, b, m);
      SameBitsSameNumber(a, b, m);
    }
  }

  ghost predicate XorsSoFar(xors: seq<Literal>, a: Word, b: Word, m: seq<bool>) {
    |xors| <= |a| && |xors| <= |b| && forall i :: 0 <= i < |xors| ==> xors[i].Eval(m) == (a[i].Eval(m) != b[i].Eval(m))
  }

  lemma XorsDecide(xors: seq<Literal>, a: Word, b: Word, m: seq<bool>)
    requires |xors| == |a| == |b| && XorsSoFar(xors, a, b, m)
    ensures (exists l :: l in xors && l.Eval(m)) <==> !SameBits(a, b, m)
  {
    if l :| l in xors && l.Eval(m) {
      var i :| 0 <= i < |xors| && xors[i] == l;
      assert a[i].Eval(m) != b[i].Eval(m);
    }
    if !SameBits(a, b, m) {
      var i :| 0 <= i < |a| && a[i].Eval(m) != b[i].Eval(m);
      assert xors[i] in xors && xors[i].Eval(m);
    }
  }

  lemma {:induction false} DistinctCounts(s: seq<int>)
    ensures Distinct(s) <==> forall x :: multiset(s)[x] <= 1
  {
    if s != [] {
      var last := |s| - 1;
      var front := s[..last];
      assert s == front + [s[last]];
      DistinctCounts(front);
      if Distinct(s) {
        assert s[last] !in front;
        forall x ensures multiset(s)[x] <= 1 {}
      }
      if forall x :: multiset(s)[x] <= 1 {
        forall x ensures multiset(front)[x] <= 1 { assert multiset(s)[x] <= 1; }
        assert multiset(s)[s[last]] <= 1;
        assert s[last] !in front;
        assert forall i :: 0 <= i < last ==> s[i] == front[i] && front[i] in front;
      }
    }
  }

  predicate NeighboursDiffer(s: seq<int>) {
    forall i :: 0 <= i < |s| - 1 ==> s[i] != s[i + 1]
  }

  /** In a sorted sequence looking at neighbours suffices. */
  lemma NeighboursSuffice(s: seq<int>, t: seq<int>)
    requires SortedIn(s, 0, |s|, true) && multiset(s) == multiset(t)
    ensures NeighboursDiffer(s) <==> Distinct(t)
  {
    DistinctCounts(s);
    DistinctCounts(t);
    if NeighboursDiffer(s) {
      forall i, j | 0 <= i < j < |s| ensures s[i] != s[j] {
        assert s[i] != s[i + 1] && s[i] <= s[i + 1] <= s[j];
      }
    }
  }

  // ---------- The two diameter formulas ----------

  /** The comparators listed so far: one for each pair in the list. */
  ghost predicate PairLiterals(ls: seq<Literal>, pairs: seq<(nat, nat)>, v: seq<Word>, m: seq<bool>) {
    && |ls| == |pairs|
    && forall k :: 0 <= k < |ls| ==> (ls[k].Eval(m) <==> EqualPair(pairs[k], v, m))
  }

  ghost predicate EqualPair(p: (nat, nat), v: seq<Word>, m: seq<bool>) {
    p.0 < |v| && p.1 < |v| && Number(v[p.0], m) == Number(v[p.1], m)
  }

  ghost predicate SomeEqual(pairs: seq<(nat, nat)>, v: seq<Word>, m: seq<bool>) {
    exists k :: 0 <= k < |pairs| && EqualPair(pairs[k], v, m)
  }

  /** Adds the comparator of states i and j to the list. */
  method AddComparator(solver: Prop, v: seq<Word>, i: nat, j: nat, ls: seq<Literal>, ghost pairs: seq<(nat, nat)>,
                       ghost width: nat, ghost c0: Cnf) returns (ls': seq<Literal>)
    requires solver.cnf.Valid() && WellTyped(v, width, solver.cnf.vars) && i < |v| && j < |v|
    requires Extends(c0, solver.cnf) && AllBelow(ls, solver.cnf.vars)
    requires forall m :: solver.cnf.Models(m) ==> PairLiterals(ls, pairs, v, m)
    modifies solver
    ensures Extends(c0, solver.cnf) && AllBelow(ls', solver.cnf.vars) && WellTyped(v, width, solver.cnf.vars)
    ensures forall m :: solver.cnf.Models(m) ==> PairLiterals(ls', pairs + [(i, j)], v, m)
  {
    ghost var c1 := solver.cnf;
    assert v[i] in v && v[j] in v;
    var equal := Comparator(solver, v[i], v[j]);
    ls' := ls + [equal];
    ExtendsTransitive(c0, c1, solver.cnf);
    TypedLater(v, width, c1, solver.cnf);
    forall m | solver.cnf.Models(m) ensures PairLiterals(ls', pairs + [(i, j)], v, m) {
      ExtendsModels(c1, solver.cnf, m);
      assert PairLiterals(ls, pairs, v, m);
    }
  }

  /** The disjunction of the listed comparators, negated: no listed pair is equal. */
  lemma PairsDecide(ls: seq<Literal>, pairs: seq<(nat, nat)>, v: seq<Word>, m: seq<bool>)
    requires PairLiterals(ls, pairs, v, m)
    ensures (exists l :: l in ls && l.Eval(m)) <==> SomeEqual(pairs, v, m)
  {
    if l :| l in ls && l.Eval(m) {
      var k :| 0 <= k < |ls| && ls[k] == l;
      assert EqualPair(pairs[k], v, m);
    }
    if k :| 0 <= k < |pairs| && EqualPair(pairs[k], v, m) {
      assert ls[k] in ls && ls[k].Eval(m);
    }
  }

  /** Compares all pairs: true exactly in the models where the states are pairwise distinct. */
  method SimpleDiameter(solver: Prop, states: seq<Word>, ghost width: nat) returns (r: Literal)
    requires solver.cnf.Valid() && |states| > 1 && WellTyped(states, width, solver.cnf.vars)
    modifies solver
    ensures Extends(old(solver.cnf), solver.cnf)
    ensures forall m :: solver.cnf.Models(m) ==> (r.Eval(m) <==> Distinct(Numbers(states, m)))
  {
    ghost var c0 := solver.cnf;
    ExtendsReflexive(c0);
    var comparators: seq<Literal> := [];
    ghost var pairs: seq<(nat, nat)> := [];
    var i := 0;
    while i < |states|
      invariant 0 <= i <= |states| && Extends(c0, solver.cnf) && AllBelow(comparators, solver.cnf.vars)
      invariant WellTyped(states, width, solver.cnf.vars)
      invariant forall p :: p in pairs <==> p.0 < p.1 < |states| && p.0 < i
      invariant forall m :: solver.cnf.Models(m) ==> PairLiterals(comparators, pairs, states, m)
    {
      var j := i + 1;
      while j < |states|
        invariant i + 1 <= j <= |states| && Extends(c0, solver.cnf) && AllBelow(comparators, solver.cnf.vars)
        invariant WellTyped(states, width, solver.cnf.vars)
        invariant forall p :: p in pairs <==> p.0 < p.1 < |states| && (p.0 < i || (p.0 == i && p.1 < j))
        invariant forall m :: solver.cnf.Models(m) ==> PairLiterals(comparators, pairs, states, m)
      {
        comparators := AddComparator(solver, states, i, j, comparators, pairs, width, c0);
        pairs := pairs + [(i, j)];
        j := j + 1;
      }
      i := i + 1;
    }
    ghost var c1 := solver.cnf;
    var any := solver.Lor(comparators);
    ExtendsTransitive(c0, c1, solver.cnf);
    r := any.Neg();
    forall m | solver.cnf.Models(m) ensures r.Eval(m) <==> Distinct(Numbers(states, m)) {
      ExtendsModels(c1, solver.cnf, m);
      NegEval(any, solver.cnf.vars, m);
      PairsDecide(comparators, pairs, states, m);
      AllPairsDistinct(pairs, states, m);
    }
  }

  lemma AllPairsDistinct(pairs: seq<(nat, nat)>, v: seq<Word>, m: seq<bool>)
    requires forall p :: p in pairs <==> p.0 < p.1 < |v|
    ensures Distinct(Numbers(v, m)) <==> !SomeEqual(pairs, v, m)
  {
    var s := Numbers(v, m);
    if k :| 0 <= k < |pairs| && EqualPair(pairs[k], v, m) {
      assert pairs[k] in pairs;
      assert s[pairs[k].0] == s[pairs[k].1];
    }
    if !Distinct(s) {
      var i, j :| 0 <= i < j < |s| && s[i] == s[j];
      assert (i, j) in pairs;
      var k :| 0 <= k < |pairs| && pairs[k] == (i, j);
      assert EqualPair(pairs[k], v, m);
    }
  }

  /** Sorts the states and compares neighbours only; true in the same models as SimpleDiameter. */
  method EfficientDiameter(solver: Prop, states: seq<Word>, ghost width: nat) returns (r: Literal)
    requires solver.cnf.Valid() && |states| > 1 && WellTyped(states, width, solver.cnf.vars)
    modifies solver
    ensures Extends(old(solver.cnf), solver.cnf)
    ensures forall m :: solver.cnf.Models(m) ==> (r.Eval(m) <==> Distinct(Numbers(states, m)))
  {
    ghost var c0 := solver.cnf;
    var v := new Word[|states|](k requires 0 <= k < |states| => states[k]);
    assert v[..] == states;
    BitonicSort(solver, v, 0, |states|, ASCENDING, width);
    var sorted := v[..];
    ghost var c1 := solver.cnf;
    var comparators: seq<Literal> := [];
    ghost var pairs: seq<(nat, nat)> := [];
    var i := 0;
    while i < |sorted| - 1
      invariant 0 <= i <= |sorted| - 1 && Extends(c1, solver.cnf) && AllBelow(comparators, solver.cnf.vars)
      invariant WellTyped(sorted, width, solver.cnf.vars)
      invariant |pairs| == i && forall k :: 0 <= k < i ==> pairs[k] == (k, k + 1)
      invariant forall m :: solver.cnf.Models(m) ==> PairLiterals(comparators, pairs, sorted, m)
    {
      comparators := AddComparator(solver, sorted, i, i + 1, comparators, pairs, width, c1);
      pairs := pairs + [(i, i + 1)];
      i := i + 1;
    }
    ghost var c2 := solver.cnf;
    var any := solver.Lor(comparators);
    ExtendsTransitive(c0, c1, c2);
    ExtendsTransitive(c0, c2, solver.cnf);
    r := any.Neg();
    forall m | solver.cnf.Models(m) ensures r.Eval(m) <==> Distinct(Numbers(states, m)) {
      ExtendsModels(c2, solver.cnf, m);
      ExtendsModels(c1, c2, m);
      NegEval(any, solver.cnf.vars, m);
      PairsDecide(comparators, pairs, sorted, m);
      NeighbourPairs(pairs, sorted, m);
      NeighboursSuffice(Numbers(sorted, m), Numbers(states, m));
    }
  }

  lemma NeighbourPairs(pairs: seq<(nat, nat)>, v: seq<Word>, m: seq<bool>)
    requires |v| > 0 && |pairs| == |v| - 1 && forall k :: 0 <= k < |pairs| ==> pairs[k] == (k, k + 1)
    ensures NeighboursDiffer(Numbers(v, m)) <==> !SomeEqual(pairs, v, m)
  {
    var s := Numbers(v, m);
    if k :| 0 <= k < |pairs| && EqualPair(pairs[k], v, m) {
      assert s[k] == s[k + 1];
    }
    if i :| 0 <= i < |s| - 1 && s[i] == s[i + 1] {
      assert EqualPair(pairs[i], v, m);
    }
  }
}
