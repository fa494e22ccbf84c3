/** Fixed-width bit vectors: the states and inputs of a bit-level transition system. */
module Vectors {
  import opened Powers

  type Vector = seq<bool>

  function Prefixed(b: bool, vs: set<Vector>): set<Vector> {
    set v | v in vs :: [b] + v
  }

  /** Every vector of width n; the search space of a SAT call. */
  function AllVectors(n: nat): set<Vector> {
    if n == 0 then {[]}
    else Prefixed(false, AllVectors(n - 1)) + Prefixed(true, AllVectors(n - 1))
  }

  lemma PrefixedMember(b: bool, vs: set<Vector>, v: Vector)
    ensures v in Prefixed(b, vs) <==> |v| > 0 && v[0] == b && v[1..] in vs
  {
    if |v| > 0 { assert v == [v[0]] + v[1..]; }
    if w :| w in vs && v == [b] + w { assert v[1..] == w; }
  }

  lemma {:induction false} AllVectorsMember(n: nat, v: Vector)
    ensures v in AllVectors(n) <==> |v| == n
  {
    if n > 0 {
      PrefixedMember(false, AllVectors(n - 1), v);
      PrefixedMember(true, AllVectors(n - 1), v);
      if |v| > 0 { AllVectorsMember(n - 1, v[1..]); }
    }
  }

  lemma {:induction false} PrefixedSize(b: bool, vs: set<Vector>)
    ensures |Prefixed(b, vs)| == |vs|
  {
    if vs == {} {
      assert Prefixed(b, vs) == {};
    } else {
      var v :| v in vs;
      PrefixedSize(b, vs - {v});
      assert Prefixed(b, vs) == Prefixed(b, vs - {v}) + {[b] + v};
      assert [b] + v !in Prefixed(b, vs - {v}) by {
        forall w | w in vs - {v} ensures [b] + w != [b] + v {
          assert ([b] + w)[1..] == w && ([b] + v)[1..] == v;
        }
      }
    }
  }

  lemma {:induction false} AllVectorsSize(n: nat)
    ensures |AllVectors(n)| == Pow2(n)
  {
    if n > 0 {
      AllVectorsSize(n - 1);
      var fs, ts := Prefixed(false, AllVectors(n - 1)), Prefixed(true, AllVectors(n - 1));
      PrefixedSize(false, AllVectors(n - 1));
      PrefixedSize(true, AllVectors(n - 1));
      assert fs !! ts by {
        forall x | x in fs ensures x !in ts { assert !x[0]; }
      }
    }
  }
}
