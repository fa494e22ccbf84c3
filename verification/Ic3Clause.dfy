/** Latch literals, cubes, and the sorted frame clauses of the IC3 solver. */
module Ic3Clause {
  import opened Sequences
  import opened Vectors

  /** The current-state literal of a latch, plain or negated. */
  datatype Lit = Lit(latch: nat, positive: bool) {
    function Code(): nat {
      2 * latch + (if positive then 0 else 1)
    }

    function Not(): Lit {
      Lit(latch, !positive)
    }

    predicate Holds(s: Vector) {
      latch < |s| && s[latch] == positive
    }
  }

  type Cube = seq<Lit>
  type Clause = seq<Lit>

  predicate InRange(c: seq<Lit>, n: nat) {
    forall l :: l in c ==> l.latch < n
  }

  /** A cube or clause the solver may hold: literals of existing latches, none repeated. */
  predicate Proper(c: seq<Lit>, n: nat) {
    InRange(c, n) && Distinct(c)
  }

  function LitSet(c: seq<Lit>): set<Lit> {
    set l | l in c
  }

  predicate CubeHolds(c: Cube, s: Vector) {
    forall l :: l in c ==> l.Holds(s)
  }

  predicate ClauseHolds(c: Clause, s: Vector) {
    exists l :: l in c && l.Holds(s)
  }

  function Negate(c: seq<Lit>): (r: seq<Lit>)
    ensures |r| == |c| && forall i :: 0 <= i < |c| ==> r[i] == c[i].Not()
  {
    seq(|c|, i requires 0 <= i < |c| => c[i].Not())
  }

  lemma NegateMember(c: seq<Lit>, l: Lit)
    ensures l in Negate(c) <==> l.Not() in c
  {
    if l in Negate(c) {
      var i :| 0 <= i < |c| && Negate(c)[i] == l;
      assert c[i] == l.Not();
    }
    if l.Not() in c {
      var i :| 0 <= i < |c| && c[i] == l.Not();
      assert Negate(c)[i] == l;
    }
  }

  lemma NegateProper(c: seq<Lit>, n: nat)
    requires Proper(c, n)
    ensures Proper(Negate(c), n)
  {
    forall i, j | 0 <= i < j < |c| ensures Negate(c)[i] != Negate(c)[j] {
      assert c[i] != c[j];
    }
    forall l | l in Negate(c) ensures l.latch < n {
      NegateMember(c, l);
    }
  }

  /** Negating a cube literal by literal gives the clause that excludes exactly its states. */
  lemma NegateMeaning(c: seq<Lit>, s: Vector)
    requires InRange(c, |s|)
    ensures ClauseHolds(Negate(c), s) <==> !CubeHolds(c, s)
  {
    if ClauseHolds(Negate(c), s) {
      var l :| l in Negate(c) && l.Holds(s);
      NegateMember(c, l);
      assert !l.Not().Holds(s);
    }
    if !CubeHolds(c, s) {
      var l :| l in c && !l.Holds(s);
      assert l.Not().Not() == l;
      NegateMember(c, l.Not());
      assert l.Not().Holds(s);
    }
  }

  lemma NegateSubset(a: seq<Lit>, b: seq<Lit>)
    requires LitSet(a) <= LitSet(b)
    ensures LitSet(Negate(a)) <= LitSet(Negate(b))
  {
    forall l | l in Negate(a) ensures l in Negate(b) {
      NegateMember(a, l);
      assert l.Not() in LitSet(a);
      NegateMember(b, l);
    }
  }

  lemma NegateTwice(c: seq<Lit>)
    ensures Negate(Negate(c)) == c
  {
  }

  // ---------- Sorting by literal code ----------

  predicate StrictlySorted(c: seq<Lit>) {
    forall i, j :: 0 <= i < j < |c| ==> c[i].Code() < c[j].Code()
  }

  function InsertByCode(l: Lit, c: seq<Lit>): (r: seq<Lit>)
    ensures |r| == |c| + 1
    ensures forall x :: x in r <==> x == l || x in c
    ensures StrictlySorted(c) && l !in c ==> StrictlySorted(r)
  {
    if c == [] then [l]
    else if l.Code() < c[0].Code() then [l] + c
    else
      var rest := InsertByCode(l, c[1..]);
      assert forall x :: x in c <==> x == c[0] || x in c[1..];
      assert forall x :: x in rest ==> x == l || x in c[1..];
      var r := [c[0]] + rest;
      assert StrictlySorted(c) && l !in c ==> forall x :: x in rest ==> c[0].Code() < x.Code();
      r
  }

  function SortByCode(c: seq<Lit>): (r: seq<Lit>)
    ensures |r| == |c|
    ensures forall x :: x in r <==> x in c
    ensures Distinct(c) ==> StrictlySorted(r)
  {
    if c == [] then []
    else
      assert forall x :: x in c <==> x == c[0] || x in c[1..];
      assert Distinct(c) ==> Distinct(c[1..]) && c[0] !in c[1..];
      InsertByCode(c[0], SortByCode(c[1..]))
  }

  // ---------- Frame clauses and subsumption ----------

  function SignatureBit(l: Lit): bv64 {
    (1 as bv64) << (l.Code() % 64)
  }

  function Signature(c: seq<Lit>): bv64 {
    if c == [] then 0 else Signature(c[..|c| - 1]) | SignatureBit(c[|c| - 1])
  }

  datatype FrameClause = FrameClause(clause: Clause, sig: bv64) {
    ghost predicate Valid(n: nat) {
      StrictlySorted(clause) && sig == Signature(clause) && InRange(clause, n)
    }

    function Lits(): set<Lit> {
      LitSet(clause)
    }
  }

  function MakeFrameClause(c: Clause): (fc: FrameClause)
    ensures fc.Lits() == LitSet(c)
  {
    var sorted := SortByCode(c);
    FrameClause(sorted, Signature(sorted))
  }

  lemma MakeFrameClauseValid(c: Clause, n: nat)
    requires Proper(c, n)
    ensures MakeFrameClause(c).Valid(n)
  {
  }

  lemma {:induction false} SignatureCoversMember(c: seq<Lit>, l: Lit)
    requires l in c
    ensures SignatureBit(l) & !Signature(c) == 0
  {
    var last := |c| - 1;
    if c[last] == l {
    } else {
      assert c == c[..last] + [c[last]];
      SignatureCoversMember(c[..last], l);
    }
  }

  /** The signature never rejects a clause whose literals are all present. */
  lemma {:induction false} SignatureMonotone(a: seq<Lit>, b: seq<Lit>)
    requires LitSet(a) <= LitSet(b)
    ensures Signature(a) & !Signature(b) == 0
  {
    if a != [] {
      var last := |a| - 1;
      forall l | l in a[..last] ensures l in b {
        assert l in LitSet(a);
      }
      SignatureMonotone(a[..last], b);
      assert a[last] in LitSet(a);
      SignatureCoversMember(b, a[last]);
    }
  }

  lemma {:induction false} StrictlySortedDistinct(c: seq<Lit>)
    requires StrictlySorted(c)
    ensures Distinct(c)
  {
  }

  lemma {:induction false} DistinctLength(a: seq<Lit>, b: seq<Lit>)
    requires Distinct(a) && LitSet(a) <= LitSet(b)
    ensures |a| <= |b|
  {
    if a != [] {
      assert a[0] in LitSet(a);
      var k :| 0 <= k < |b| && b[k] == a[0];
      var rest := b[..k] + b[k + 1..];
      forall l | l in a[1..] ensures l in rest {
        assert l in LitSet(a);
        var m :| 0 <= m < |b| && b[m] == l;
        assert l != a[0];
        assert if m < k then rest[m] == l else rest[m - 1] == l;
      }
      DistinctLength(a[1..], rest);
    }
  }

  /** The merge walk of std::includes over two ranges sorted by literal code. */
  method Includes(b: seq<Lit>, a: seq<Lit>) returns (r: bool)
    requires StrictlySorted(a) && StrictlySorted(b)
    ensures r <==> LitSet(a) <= LitSet(b)
  {
    var i, j := 0, 0;
    while i < |a|
      invariant 0 <= i <= |a| && 0 <= j <= |b|
      invariant forall k :: 0 <= k < i ==> a[k] in b
      invariant i < |a| ==> forall k :: 0 <= k < j ==> b[k].Code() < a[i].Code()
      decreases |b| - j
    {
      if j == |b| {
        assert a[i] in LitSet(a) && a[i] !in LitSet(b);
        return false;
      }
      if a[i].Code() < b[j].Code() {
        assert a[i] in LitSet(a) && a[i] !in LitSet(b);
        return false;
      }
      if !(b[j].Code() < a[i].Code()) {
        assert a[i] == b[j];
        i := i + 1;
      }
      j := j + 1;
    }
    return true;
  }

  /** Clause subsumption: size test, signature test, then the merge walk. */
  method Subsumes(a: FrameClause, b: FrameClause, ghost n: nat) returns (r: bool)
    requires a.Valid(n) && b.Valid(n)
    ensures r <==> a.Lits() <= b.Lits()
  {
    if |a.clause| > |b.clause| {
      if a.Lits() <= b.Lits() {
        StrictlySortedDistinct(a.clause);
        DistinctLength(a.clause, b.clause);
        assert false;
      }
      return false;
    }
    if a.sig & !b.sig != 0 {
      if a.Lits() <= b.Lits() {
        SignatureMonotone(a.clause, b.clause);
        assert false;
      }
      return false;
    }
    r := Includes(b.clause, a.clause);
  }
}
