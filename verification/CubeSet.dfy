/** Sets of cubes with subsumption: neighbouring cubes of one star pattern are merged on insertion. */
module CubeSet {
  type Bits = seq<bool>

  // ---------- Cubes ----------

  /** The number of positions that are not stars. */
  function Fixed(stars: Bits): nat {
    if stars == [] then 0 else (if stars[0] then 0 else 1) + Fixed(stars[1..])
  }

  /** The cube gives bits, in order, to the positions that are not stars. */
  predicate IsCube(stars: Bits, bits: Bits) {
    |bits| == Fixed(stars)
  }

  predicate Covers(stars: Bits, bits: Bits, v: Bits) {
    if stars == [] then bits == [] && v == []
    else
      && v != []
      && if stars[0] then Covers(stars[1..], bits, v[1..])
         else bits != [] && bits[0] == v[0] && Covers(stars[1..], bits[1..], v[1..])
  }

  /** The position of the i-th fixed bit. */
  function PositionOf(stars: Bits, i: nat): (j: nat)
    requires i < Fixed(stars)
    ensures j < |stars| && !stars[j] && Fixed(stars[..j]) == i
  {
    if stars[0] then
      var j := 1 + PositionOf(stars[1..], i);
      assert stars[..j][1..] == stars[1..][..j - 1];
      j
    else if i == 0 then 0
    else
      var j := 1 + PositionOf(stars[1..], i - 1);
      assert stars[..j][1..] == stars[1..][..j - 1];
      j
  }

  function Flipped(bits: Bits, i: nat): Bits
    requires i < |bits|
  {
    bits[i := !bits[i]]
  }

  function Without(bits: Bits, i: nat): Bits
    requires i < |bits|
  {
    bits[..i] + bits[i + 1..]
  }

  /** v has the bits of the cube, in order, at the positions that are not stars. */
  predicate HasBits(stars: Bits, bits: Bits, v: Bits)
    requires IsCube(stars, bits)
  {
    |v| == |stars| && forall i :: 0 <= i < |bits| ==> v[PositionOf(stars, i)] == bits[i]
  }

  lemma BehindStar(stars: Bits, bits: Bits, v: Bits)
    requires IsCube(stars, bits) && stars != [] && v != [] && stars[0]
    ensures HasBits(stars, bits, v) <==> HasBits(stars[1..], bits, v[1..])
  {
    forall i | 0 <= i < |bits| ensures PositionOf(stars, i) == 1 + PositionOf(stars[1..], i) {}
  }

  lemma BehindBit(stars: Bits, bits: Bits, v: Bits)
    requires IsCube(stars, bits) && stars != [] && v != [] && !stars[0]
    ensures HasBits(stars, bits, v) <==> bits[0] == v[0] && HasBits(stars[1..], bits[1..], v[1..])
  {
    assert PositionOf(stars, 0) == 0;
    forall i | 0 <= i < |bits| - 1 ensures PositionOf(stars, i + 1) == 1 + PositionOf(stars[1..], i) {}
    if HasBits(stars, bits, v) {
      forall i | 0 <= i < |bits| - 1 ensures v[1..][PositionOf(stars[1..], i)] == bits[1..][i] {
        assert v[PositionOf(stars, i + 1)] == bits[i + 1];
      }
    }
    if bits[0] == v[0] && HasBits(stars[1..], bits[1..], v[1..]) {
      forall i | 0 < i < |bits| ensures v[PositionOf(stars, i)] == bits[i] {
        assert v[1..][PositionOf(stars[1..], i - 1)] == bits[1..][i - 1];
      }
    }
  }

  /** The points that a cube covers. */
  lemma {:induction false} CoversIff(stars: Bits, bits: Bits, v: Bits)
    requires IsCube(stars, bits)
    ensures Covers(stars, bits, v) <==> HasBits(stars, bits, v)
    decreases |stars|
  {
    if stars != [] && v != [] {
      if stars[0] {
        CoversIff(stars[1..], bits, v[1..]);
        BehindStar(stars, bits, v);
      } else {
        CoversIff(stars[1..], bits[1..], v[1..]);
        BehindBit(stars, bits, v);
      }
    }
  }

  /** Two cubes that differ in one bit together are the cube with a star in its place. */
  lemma {:induction false} MergedCube(stars: Bits, bits: Bits, i: nat, v: Bits)
    requires IsCube(stars, bits) && i < |bits|
    ensures var j := PositionOf(stars, i);
      && IsCube(stars[j := true], Without(bits, i))
      && (Covers(stars[j := true], Without(bits, i), v) <==> Covers(stars, bits, v) || Covers(stars, Flipped(bits, i), v))
    decreases |stars|
  {
    var j := PositionOf(stars, i);
    var v' := if v == [] then [] else v[1..];
    if stars[0] {
      MergedCube(stars[1..], bits, i, v');
      assert stars[j := true][1..] == stars[1..][j - 1 := true];
    } else if i == 0 {
      assert stars[0 := true][1..] == stars[1..] && Without(bits, 0) == bits[1..] && Flipped(bits, 0)[1..] == bits[1..];
    } else {
      MergedCube(stars[1..], bits[1..], i - 1, v');
      assert stars[j := true][1..] == stars[1..][j - 1 := true];
      LaterBit(bits, i);
    }
  }

  lemma LaterBit(bits: Bits, i: nat)
    requires 0 < i < |bits|
    ensures Without(bits, i) == [bits[0]] + Without(bits[1..], i - 1)
    ensures Flipped(bits, i) == [bits[0]] + Flipped(bits[1..], i - 1)
  {
  }

  lemma {:induction false} AllStarsCover(stars: Bits, v: Bits)
    requires Fixed(stars) == 0 && |v| == |stars|
    ensures Covers(stars, [], v)
  {
    if stars != [] { AllStarsCover(stars[1..], v[1..]); }
  }

  // ---------- The set ----------

  type StarMap = map<Bits, set<Bits>>

  /** Some stored cube covers v. */
  predicate Denotes(m: StarMap, v: Bits) {
    exists stars :: stars in m && SomeCovers(stars, m[stars], v)
  }

  predicate SomeCovers(stars: Bits, star: set<Bits>, v: Bits) {
    exists bits :: bits in star && Covers(stars, bits, v)
  }

  /** No two cubes differ in exactly one bit. */
  predicate NoNeighbours(star: set<Bits>) {
    forall bits, i :: bits in star && 0 <= i < |bits| ==> Flipped(bits, i) !in star
  }

  predicate WellFormed(m: StarMap, width: nat) {
    forall stars :: stars in m ==> StarFormed(stars, m[stars], width)
  }

  predicate StarFormed(stars: Bits, star: set<Bits>, width: nat) {
    |stars| == width && (forall bits :: bits in star ==> IsCube(stars, bits)) && NoNeighbours(star)
  }

  /** Once a bit is dropped, the shortened vector is not found under the old star pattern any more. */
  lemma SameLength(m: StarMap, stars: Bits, width: nat)
    requires WellFormed(m, width)
    ensures forall bits :: bits in Star(m, stars) ==> |bits| == Fixed(stars)
  {
    if stars in m { assert StarFormed(stars, m[stars], width); }
  }

  /** The cubes of one star pattern replaced. */
  lemma StarReplaced(m: StarMap, stars: Bits, star: set<Bits>, v: Bits)
    ensures Denotes(m[stars := star], v) <==>
            SomeCovers(stars, star, v) || exists s :: s in m && s != stars && SomeCovers(s, m[s], v)
  {
    var m' := m[stars := star];
    assert stars in m' && m'[stars] == star;
    if s :| s in m && s != stars && SomeCovers(s, m[s], v) {
      assert s in m' && m'[s] == m[s];
    }
  }

  function Star(m: StarMap, stars: Bits): set<Bits> {
    if stars in m then m[stars] else {}
  }

  /** One cube more of a star pattern. */
  lemma CubeAdded(m: StarMap, stars: Bits, bits: Bits, v: Bits)
    ensures Denotes(m[stars := Star(m, stars) + {bits}], v) <==> Denotes(m, v) || Covers(stars, bits, v)
  {
    StarReplaced(m, stars, Star(m, stars) + {bits}, v);
    if Covers(stars, bits, v) { assert bits in Star(m, stars) + {bits}; }
    if SomeCovers(stars, Star(m, stars), v) {
      var b :| b in Star(m, stars) && Covers(stars, b, v);
      assert b in Star(m, stars) + {bits};
    }
  }

  /** One cube less. */
  lemma CubeRemoved(m: StarMap, stars: Bits, bits: Bits, v: Bits)
    requires bits in Star(m, stars)
    ensures Denotes(m, v) <==> Denotes(m[stars := Star(m, stars) - {bits}], v) || Covers(stars, bits, v)
  {
    var m' := m[stars := Star(m, stars) - {bits}];
    CubeAdded(m', stars, bits, v);
    assert Star(m, stars) - {bits} + {bits} == Star(m, stars);
    assert m'[stars := Star(m', stars) + {bits}] == m;
  }

  /** The first bit whose neighbour is stored. */
  ghost predicate FirstNeighbour(star: set<Bits>, bits: Bits, i: nat) {
    i < |bits| && Flipped(bits, i) in star && forall k :: 0 <= k < i ==> Flipped(bits, k) !in star
  }

  /** What inserting a cube makes of the cubes of its star pattern: nothing if it is stored, one less if it has a
      neighbour to merge with, and one more otherwise. */
  ghost predicate StarAfter(star: set<Bits>, bits: Bits, after: set<Bits>) {
    if bits in star then after == star
    else if exists i :: FirstNeighbour(star, bits, i)
    then exists i :: FirstNeighbour(star, bits, i) && after == star - {Flipped(bits, i)}
    else after == star + {bits}
  }

  /** No other pattern with at least that many fixed bits is touched. */
  ghost predicate OthersKept(before: StarMap, after: StarMap, stars: Bits, fixed: nat) {
    forall s :: s != stars && Fixed(s) >= fixed ==> Star(after, s) == Star(before, s)
  }

  class CubeSet {
    const width: nat
    var starMap: StarMap
    var all: bool

    ghost predicate Valid()
      reads this
    {
      && WellFormed(starMap, width)
      && (all <==> exists stars :: stars in starMap && Fixed(stars) == 0 && [] in starMap[stars])
    }

    constructor (width: nat)
      ensures Valid() && this.width == width && starMap == map[] && !all
    {
      this.width, starMap, all := width, map[], false;
    }

    method Insert(stars: Bits, bits: Bits)
      requires Valid() && |stars| == width && IsCube(stars, bits)
      modifies this
      ensures Valid()
      ensures forall v :: Denotes(starMap, v) <==> Denotes(old(starMap), v) || Covers(stars, bits, v)
      ensures StarAfter(Star(old(starMap), stars), bits, Star(starMap, stars))
      ensures OthersKept(old(starMap), starMap, stars, |bits|)
      decreases |bits|
    {
      var star := Star(starMap, stars);
      if bits == [] {
        all := true;
        CubeStored(starMap, stars, bits, width);
        starMap := starMap[stars := star + {bits}];
        return;
      }
      if bits in star {
        forall v | Covers(stars, bits, v) ensures Denotes(starMap, v) {
          assert SomeCovers(stars, starMap[stars], v);
        }
        return;
      }
      var tmp, subsumed := bits, false;
      var i := 0;
      while i < |tmp|
        invariant 0 <= i <= |bits| && Valid()
        invariant !subsumed ==> tmp == bits && unchanged(this) && forall k :: 0 <= k < i ==> Flipped(bits, k) !in star
        invariant subsumed ==> StarAfter(star, bits, Star(starMap, stars)) && OthersKept(old(starMap), starMap, stars, |bits|)
        invariant subsumed ==> |tmp| + 1 == |bits| && forall v :: Denotes(starMap, v) <==> Denotes(old(starMap), v) || Covers(stars, bits, v)
        decreases |bits| - i
      {
        SameLength(starMap, stars, width);
        var bit := tmp[i];
        tmp := tmp[i := !bit];
        if tmp in Star(starMap, stars) {
          assert FirstNeighbour(star, bits, i);
          Merge(stars, bits, i);
          tmp, subsumed := Without(tmp, i), true;
        }
        if i < |tmp| { tmp := tmp[i := bit]; }
        i := i + 1;
      }
      if !subsumed {
        CubeStored(starMap, stars, bits, width);
        starMap := starMap[stars := star + {bits}];
      }
    }

    /** The cube and its stored neighbour become one cube with a star more. */
    method Merge(stars: Bits, bits: Bits, i: nat)
      requires Valid() && |stars| == width && IsCube(stars, bits) && i < |bits|
      requires stars in starMap && Flipped(bits, i) in starMap[stars]
      modifies this
      ensures Valid()
      ensures forall v :: Denotes(starMap, v) <==> Denotes(old(starMap), v) || Covers(stars, bits, v)
      ensures Star(starMap, stars) == Star(old(starMap), stars) - {Flipped(bits, i)}
      ensures OthersKept(old(starMap), starMap, stars, |bits|)
      decreases |bits|, 0
    {
      var flipped := Flipped(bits, i);
      ghost var before := starMap;
      starMap := starMap[stars := starMap[stars] - {flipped}];
      SmallerStar(before, stars, flipped, width);
      var merged := AddStar(stars, i);
      ghost var between := starMap;
      forall v
        ensures Denotes(before, v) || Covers(stars, bits, v) <==> Denotes(between, v) || Covers(merged, Without(bits, i), v)
      {
        CubeRemoved(before, stars, flipped, v);
        MergedCube(stars, bits, i, v);
      }
      MergedCube(stars, bits, i, []);
      Insert(merged, Without(bits, i));
    }

    /** Counts the fixed positions down to the one of bit i. */
    method AddStar(stars: Bits, i: nat) returns (merged: Bits)
      requires i < Fixed(stars)
      ensures merged == stars[PositionOf(stars, i) := true]
    {
      merged := stars;
      var count := i + 1;
      var j := 0;
      while j < |stars|
        invariant 0 <= j <= PositionOf(stars, i)
        invariant merged == stars && count + Fixed(stars[..j]) == i + 1
      {
        FixedNext(stars, j);
        FixedMonotone(stars, j, PositionOf(stars, i));
        if !stars[j] { count := count - 1; }
        if count == 0 {
          AtPosition(stars, i, j);
          merged := merged[j := true];
          return;
        }
        j := j + 1;
      }
    }
  }

  lemma {:induction false} FixedNext(stars: Bits, j: nat)
    requires j < |stars|
    ensures Fixed(stars[..j + 1]) == Fixed(stars[..j]) + if stars[j] then 0 else 1
  {
    if j > 0 {
      FixedNext(stars[1..], j - 1);
      assert stars[..j + 1][1..] == stars[1..][..j] && stars[..j][1..] == stars[1..][..j - 1];
    } else {
      assert stars[..1] == [stars[0]] && stars[..0] == [];
      assert stars[..1][1..] == [];
    }
  }

  lemma {:induction false} FixedMonotone(stars: Bits, a: nat, b: nat)
    requires a <= b <= |stars|
    ensures Fixed(stars[..a]) <= Fixed(stars[..b])
    decreases b
  {
    if a < b {
      FixedNext(stars, b - 1);
      FixedMonotone(stars, a, b - 1);
    }
  }

  /** The fixed position with i fixed ones before it is the position of bit i. */
  lemma AtPosition(stars: Bits, i: nat, j: nat)
    requires i < Fixed(stars) && j < |stars| && !stars[j] && Fixed(stars[..j]) == i
    ensures j == PositionOf(stars, i)
  {
    var p := PositionOf(stars, i);
    if j < p {
      FixedNext(stars, j);
      FixedMonotone(stars, j + 1, p);
    }
    if p < j {
      FixedNext(stars, p);
      FixedMonotone(stars, p + 1, j);
    }
  }

  lemma FlippedTwice(bits: Bits, i: nat)
    requires i < |bits|
    ensures |Flipped(bits, i)| == |bits| && Flipped(bits, i) != bits && Flipped(Flipped(bits, i), i) == bits
  {
    assert Flipped(bits, i)[i] != bits[i];
  }

  lemma NewCube(m: StarMap, stars: Bits, bits: Bits, width: nat)
    requires WellFormed(m, width) && |stars| == width && IsCube(stars, bits)
    requires forall k :: 0 <= k < |bits| ==> Flipped(bits, k) !in Star(m, stars)
    ensures WellFormed(m[stars := Star(m, stars) + {bits}], width)
  {
    var star := Star(m, stars) + {bits};
    assert stars in m ==> StarFormed(stars, m[stars], width);
    forall b, i | b in star && 0 <= i < |b| ensures Flipped(b, i) !in star {
      FlippedTwice(b, i);
    }
    assert StarFormed(stars, star, width);
  }

  /** What storing a cube without stored neighbours does. */
  lemma CubeStored(m: StarMap, stars: Bits, bits: Bits, width: nat)
    requires WellFormed(m, width) && |stars| == width && IsCube(stars, bits)
    requires forall k :: 0 <= k < |bits| ==> Flipped(bits, k) !in Star(m, stars)
    ensures var after := m[stars := Star(m, stars) + {bits}];
      && WellFormed(after, width) && OthersKept(m, after, stars, |bits|)
      && StarAfter(Star(m, stars), bits, Star(after, stars))
      && forall v :: Denotes(after, v) <==> Denotes(m, v) || Covers(stars, bits, v)
  {
    var after := m[stars := Star(m, stars) + {bits}];
    NewCube(m, stars, bits, width);
    forall v ensures Denotes(after, v) <==> Denotes(m, v) || Covers(stars, bits, v) { CubeAdded(m, stars, bits, v); }
  }

  lemma SmallerStar(m: StarMap, stars: Bits, bits: Bits, width: nat)
    requires WellFormed(m, width) && stars in m
    ensures WellFormed(m[stars := m[stars] - {bits}], width)
  {
    assert StarFormed(stars, m[stars], width);
    assert StarFormed(stars, m[stars] - {bits}, width);
  }

  /** When the flag is set, every vector is in the set. */
  lemma AllDenotesAll(s: CubeSet, v: Bits)
    requires s.Valid() && s.all && |v| == s.width
    ensures Denotes(s.starMap, v)
  {
    var stars :| stars in s.starMap && Fixed(stars) == 0 && [] in s.starMap[stars];
    assert StarFormed(stars, s.starMap[stars], s.width);
    AllStarsCover(stars, v);
    assert SomeCovers(stars, s.starMap[stars], v);
  }
}
