/** The bitonic sorting network for any number of inputs, as a function on integer sequences,
    and the proof that it sorts: every threshold image of a valley is a block of zeros, and
    half-cleaning keeps blocks while separating the halves. */
module BitonicNetwork {
  const ASCENDING: bool := true

  function Exchange(s: seq<int>, i: nat, j: nat, dir: bool): (r: seq<int>)
    requires i < |s| && j < |s| && i != j
    ensures |r| == |s|
  {
    if dir == (s[i] > s[j]) && s[i] != s[j] then s[i := s[j]][j := s[i]] else s
  }

  /** compare(m, m+k) for m in [i, end), skipping partners beyond high. */
  function HalfClean(s: seq<int>, i: nat, end: nat, k: nat, dir: bool, high: nat): (r: seq<int>)
    requires i <= end && 0 < k && high < |s|
    ensures |r| == |s|
    decreases end - i
  {
    if i == end then s
    else HalfClean(if i + k <= high then Exchange(s, i, i + k, dir) else s, i + 1, end, k, dir, high)
  }

  predicate PowerOfTwo(c: nat) {
    c == 1 || (c > 1 && c % 2 == 0 && PowerOfTwo(c / 2))
  }

  lemma DoublePower(c: nat)
    requires PowerOfTwo(c)
    ensures PowerOfTwo(c * 2) && (c * 2) / 2 == c
  {
    assert (c * 2) / 2 == c && (c * 2) % 2 == 0;
  }

  function MergeNetwork(s: seq<int>, lo: nat, cnt: nat, dir: bool, high: nat): (r: seq<int>)
    requires PowerOfTwo(cnt) && high < |s|
    ensures |r| == |s|
    decreases cnt
  {
    if cnt <= 1 then s
    else
      var k := cnt / 2;
      var cleaned := HalfClean(s, lo, lo + k, k, dir, high);
      MergeNetwork(MergeNetwork(cleaned, lo, k, dir, high), lo + k, k, dir, high)
  }

  /** The smallest power of two not below i. */
  function CeilPower(i: nat, from: nat): (r: nat)
    requires PowerOfTwo(from) && (from == 1 || from / 2 < i)
    ensures PowerOfTwo(r) && r >= i && (r == 1 || r / 2 < i)
    decreases i - from
  {
    if from < i then CeilPower(i, from * 2) else from
  }

  /** The comparators for four inputs: five, the optimal number. */
  function FourFirst(step: nat): nat { if step == 2 then 2 else if step == 3 || step == 5 then 1 else 0 }
  function FourSecond(step: nat): nat { if step == 1 then 1 else if step == 2 || step == 3 then 3 else 2 }

  function FourSort(s: seq<int>, lo: nat, dir: bool, steps: nat): (r: seq<int>)
    requires lo + 4 <= |s|
    ensures |r| == |s|
    decreases steps, dir
  {
    if steps == 0 then s
    else Exchange(FourSort(s, lo, dir, steps - 1), lo + FourFirst(steps), lo + FourSecond(steps), dir)
  }

  // ---------- The network only permutes, and only its own range ----------

  /** The end of a range, cut off after position high. */
  function ClipEnd(end: nat, high: nat): nat {
    if end <= high + 1 then end else high + 1
  }

  ghost predicate Permutes(s: seq<int>, r: seq<int>, lo: nat, hi: nat) {
    && |r| == |s| && multiset(r) == multiset(s)
    && forall m :: 0 <= m < |s| && !(lo <= m < hi) ==> r[m] == s[m]
  }

  lemma ExchangePermutes(s: seq<int>, i: nat, j: nat, dir: bool)
    requires i < |s| && j < |s| && i != j
    ensures multiset(Exchange(s, i, j, dir)) == multiset(s)
  {
  }

  lemma ExchangeFirst(s: seq<int>, i: nat, j: nat, dir: bool, lo: nat, hi: nat, r: seq<int>)
    requires lo <= i < j < hi <= |s| && Permutes(Exchange(s, i, j, dir), r, lo, hi)
    ensures Permutes(s, r, lo, hi)
  {
    ExchangeWithin(s, i, j, dir, lo, hi);
    PermutesTransitive(s, Exchange(s, i, j, dir), r, lo, hi);
  }

  lemma {:induction false} HalfCleanPermutes(s: seq<int>, i: nat, end: nat, k: nat, dir: bool, high: nat,
                                             lo: nat, top: nat, hi: nat)
    requires lo <= i <= end && 0 < k && high < |s| && end + k <= top && hi == ClipEnd(top, high)
    ensures Permutes(s, HalfClean(s, i, end, k, dir, high), lo, hi)
    decreases end - i
  {
    if i < end {
      var next, j := i + 1, i + k;
      HalfCleanNext(s, i, next, j, end, k, dir, high);
      if j <= high {
        var changed := Exchange(s, i, j, dir);
        HalfCleanPermutes(changed, next, end, k, dir, high, lo, top, hi);
        ExchangeFirst(s, i, j, dir, lo, hi, HalfClean(changed, next, end, k, dir, high));
      } else {
        HalfCleanPermutes(s, next, end, k, dir, high, lo, top, hi);
      }
    }
  }

  lemma HalfCleanNext(s: seq<int>, i: nat, next: nat, j: nat, end: nat, k: nat, dir: bool, high: nat)
    requires i < end && 0 < k && high < |s| && next == i + 1 && j == i + k
    ensures j <= high ==> HalfClean(s, i, end, k, dir, high) == HalfClean(Exchange(s, i, j, dir), next, end, k, dir, high)
    ensures j > high ==> HalfClean(s, i, end, k, dir, high) == HalfClean(s, next, end, k, dir, high)
  {
  }

  lemma ExchangeWithin(s: seq<int>, i: nat, j: nat, dir: bool, lo: nat, hi: nat)
    requires lo <= i < j < hi <= |s|
    ensures Permutes(s, Exchange(s, i, j, dir), lo, hi)
  {
    ExchangePermutes(s, i, j, dir);
  }

  lemma PermutesTransitive(a: seq<int>, b: seq<int>, c: seq<int>, lo: nat, hi: nat)
    requires Permutes(a, b, lo, hi) && Permutes(b, c, lo, hi)
    ensures Permutes(a, c, lo, hi)
  {
  }

  lemma {:induction false} MergePermutes(s: seq<int>, lo: nat, cnt: nat, dir: bool, high: nat)
    requires PowerOfTwo(cnt) && high < |s|
    ensures Permutes(s, MergeNetwork(s, lo, cnt, dir, high), lo, ClipEnd(lo + cnt, high))
    decreases cnt
  {
    if cnt > 1 {
      var k := cnt / 2;
      var mid, top := lo + k, ClipEnd(lo + cnt, high);
      var cleaned := HalfClean(s, lo, mid, k, dir, high);
      HalfCleanPermutes(s, lo, mid, k, dir, high, lo, lo + cnt, top);
      var left := MergeNetwork(cleaned, lo, k, dir, high);
      MergePermutes(cleaned, lo, k, dir, high);
      var right := MergeNetwork(left, mid, k, dir, high);
      MergePermutes(left, mid, k, dir, high);
      PermutesWithin(cleaned, left, lo, ClipEnd(mid, high), lo, top);
      PermutesWithin(left, right, mid, ClipEnd(mid + k, high), lo, top);
      PermutesTransitive(s, cleaned, left, lo, top);
      PermutesTransitive(s, left, right, lo, top);
    }
  }

  lemma PermutesWithin(a: seq<int>, b: seq<int>, inner: nat, innerEnd: nat, lo: nat, hi: nat)
    requires Permutes(a, b, inner, innerEnd) && lo <= inner && innerEnd <= hi
    ensures Permutes(a, b, lo, hi)
  {
  }

  // ---------- Negation turns descending into ascending ----------

  function Negated(s: seq<int>): (r: seq<int>)
    ensures |r| == |s| && forall m :: 0 <= m < |s| ==> r[m] == -s[m]
  {
    seq(|s|, m requires 0 <= m < |s| => -s[m])
  }

  lemma {:induction false} HalfCleanNegated(s: seq<int>, i: nat, end: nat, k: nat, dir: bool, high: nat)
    requires i <= end && 0 < k && high < |s|
    ensures HalfClean(Negated(s), i, end, k, !dir, high) == Negated(HalfClean(s, i, end, k, dir, high))
    decreases end - i
  {
    if i < end {
      if i + k <= high {
        assert Exchange(Negated(s), i, i + k, !dir) == Negated(Exchange(s, i, i + k, dir));
        HalfCleanNegated(Exchange(s, i, i + k, dir), i + 1, end, k, dir, high);
      } else {
        HalfCleanNegated(s, i + 1, end, k, dir, high);
      }
    }
  }

  lemma {:induction false} MergeNegated(s: seq<int>, lo: nat, cnt: nat, dir: bool, high: nat)
    requires PowerOfTwo(cnt) && high < |s|
    ensures MergeNetwork(Negated(s), lo, cnt, !dir, high) == Negated(MergeNetwork(s, lo, cnt, dir, high))
    decreases cnt
  {
    if cnt > 1 {
      var k := cnt / 2;
      var cleaned := HalfClean(s, lo, lo + k, k, dir, high);
      HalfCleanNegated(s, lo, lo + k, k, dir, high);
      MergeNegated(cleaned, lo, k, dir, high);
      MergeNegated(MergeNetwork(cleaned, lo, k, dir, high), lo + k, k, dir, high);
      assert MergeNetwork(s, lo, cnt, dir, high) ==
             MergeNetwork(MergeNetwork(cleaned, lo, k, dir, high), lo + k, k, dir, high);
    }
  }

  // ---------- Merging a full, untruncated segment upwards ----------

  function Min(a: int, b: int): int { if a <= b then a else b }
  function Max(a: int, b: int): int { if a <= b then b else a }

  function LowerHalf(x: seq<int>): (r: seq<int>)
    requires |x| % 2 == 0
    ensures |r| == |x| / 2
  {
    seq(|x| / 2, i requires 0 <= i < |x| / 2 => Min(x[i], x[i + |x| / 2]))
  }

  function UpperHalf(x: seq<int>): (r: seq<int>)
    requires |x| % 2 == 0
    ensures |r| == |x| / 2
  {
    seq(|x| / 2, i requires 0 <= i < |x| / 2 => Max(x[i], x[i + |x| / 2]))
  }

  function FullMerge(x: seq<int>): (r: seq<int>)
    requires PowerOfTwo(|x|)
    ensures |r| == |x|
    decreases |x|
  {
    if |x| == 1 then x else FullMerge(LowerHalf(x)) + FullMerge(UpperHalf(x))
  }

  lemma HalfMember(x: seq<int>, v: int)
    requires |x| % 2 == 0
    ensures v in LowerHalf(x) ==> v in x
    ensures v in UpperHalf(x) ==> v in x
  {
  }

  lemma {:induction false} FullMergeMember(x: seq<int>, v: int)
    requires PowerOfTwo(|x|) && v in FullMerge(x)
    ensures v in x
    decreases |x|
  {
    if |x| > 1 {
      HalfMember(x, v);
      if v in FullMerge(LowerHalf(x)) { FullMergeMember(LowerHalf(x), v); }
      if v in FullMerge(UpperHalf(x)) { FullMergeMember(UpperHalf(x), v); }
    }
  }

  /** The elements at or above the threshold are those inside [a, b) when v, outside it otherwise. */
  ghost predicate Block(x: seq<int>, t: int, a: nat, b: nat, v: bool) {
    a <= b <= |x| && forall i :: 0 <= i < |x| ==> (x[i] >= t) == InBlock(i, a, b, v)
  }

  predicate InBlock(i: nat, a: nat, b: nat, v: bool) {
    (a <= i < b) == v
  }

  predicate BothIn(i: nat, k: nat, a: nat, b: nat, v: bool) {
    InBlock(i, a, b, v) && InBlock(i + k, a, b, v)
  }

  predicate EitherIn(i: nat, k: nat, a: nat, b: nat, v: bool) {
    InBlock(i, a, b, v) || InBlock(i + k, a, b, v)
  }

  ghost predicate HasBlock(x: seq<int>, t: int) {
    exists a, b, v :: Block(x, t, a, b, v)
  }

  /** Circularly bitonic, stated threshold by threshold. */
  ghost predicate Bitonic(x: seq<int>) {
    forall t :: HasBlock(x, t)
  }

  ghost predicate Separated(x: seq<int>, t: int)
    requires |x| % 2 == 0
  {
    (forall i :: 0 <= i < |x| / 2 ==> LowerHalf(x)[i] < t) || (forall i :: 0 <= i < |x| / 2 ==> UpperHalf(x)[i] >= t)
  }

  lemma HalfAt(x: seq<int>, t: int, i: nat)
    requires |x| % 2 == 0 && i < |x| / 2
    ensures (LowerHalf(x)[i] >= t) == (x[i] >= t && x[i + |x| / 2] >= t)
    ensures (UpperHalf(x)[i] >= t) == (x[i] >= t || x[i + |x| / 2] >= t)
  {
  }

  /** The halves' blocks, by where the block [a, b) lies relative to the middle. */
  lemma HalfBlocks(x: seq<int>, t: int, a: nat, b: nat, v: bool,
                   la: nat, lb: nat, lv: bool, ua: nat, ub: nat, uv: bool)
    requires |x| % 2 == 0 && Block(x, t, a, b, v) && la <= lb <= |x| / 2 && ua <= ub <= |x| / 2
    requires forall i: nat :: i < |x| / 2 ==> InBlock(i, la, lb, lv) == BothIn(i, |x| / 2, a, b, v)
    requires forall i: nat :: i < |x| / 2 ==> InBlock(i, ua, ub, uv) == EitherIn(i, |x| / 2, a, b, v)
    ensures Block(LowerHalf(x), t, la, lb, lv) && Block(UpperHalf(x), t, ua, ub, uv)
  {
    forall i | 0 <= i < |x| / 2
      ensures (LowerHalf(x)[i] >= t) == InBlock(i, la, lb, lv)
      ensures (UpperHalf(x)[i] >= t) == InBlock(i, ua, ub, uv)
    {
      HalfAt(x, t, i);
      assert BothIn(i, |x| / 2, a, b, v) == (x[i] >= t && x[i + |x| / 2] >= t);
      assert EitherIn(i, |x| / 2, a, b, v) == (x[i] >= t || x[i + |x| / 2] >= t);
    }
  }

  /** Half-cleaning a block leaves a block in each half, one of them uniform. */
  lemma HalfCleanBlock(x: seq<int>, t: int, a: nat, b: nat, v: bool)
    requires |x| % 2 == 0 && Block(x, t, a, b, v)
    ensures HasBlock(LowerHalf(x), t) && HasBlock(UpperHalf(x), t) && Separated(x, t)
  {
    var k := |x| / 2;
    var la, lb, lv, ua, ub, uv := 0, 0, true, 0, 0, false;
    if b <= k {
      if v { ua, ub, uv := a, b, true; } else { la, lb, lv := a, b, false; }
    } else if a >= k {
      if v { ua, ub, uv := a - k, b - k, true; } else { la, lb, lv := a - k, b - k, false; }
    } else if b - k <= a {
      if v { ua, ub := b - k, a; } else { la, lb := b - k, a; ua, ub, uv := 0, 0, false; }
    } else {
      if v { la, lb := a, b - k; } else { ua, ub := a, b - k; }
    }
    HalfBlocks(x, t, a, b, v, la, lb, lv, ua, ub, uv);
    assert Block(LowerHalf(x), t, la, lb, lv) && Block(UpperHalf(x), t, ua, ub, uv);
    assert (la == lb && lv) || (ua == ub && !uv);
  }

  predicate Sorted(x: seq<int>) {
    forall i, j :: 0 <= i < j < |x| ==> x[i] <= x[j]
  }

  lemma HalvesBitonic(x: seq<int>)
    requires |x| % 2 == 0 && Bitonic(x)
    ensures Bitonic(LowerHalf(x)) && Bitonic(UpperHalf(x))
    ensures forall t :: Separated(x, t)
  {
    forall t ensures HasBlock(LowerHalf(x), t) && HasBlock(UpperHalf(x), t) && Separated(x, t) {
      assert HasBlock(x, t);
      var a, b, v :| Block(x, t, a, b, v);
      HalfCleanBlock(x, t, a, b, v);
    }
  }

  lemma HalvesOrdered(x: seq<int>, p: int, q: int)
    requires |x| % 2 == 0 && p in LowerHalf(x) && q in UpperHalf(x)
    requires forall t :: Separated(x, t)
    ensures p <= q
  {
    assert Separated(x, p);
  }

  lemma {:induction false} FullMergeSorts(x: seq<int>)
    requires PowerOfTwo(|x|) && Bitonic(x)
    ensures Sorted(FullMerge(x))
    decreases |x|
  {
    if |x| > 1 {
      HalvesBitonic(x);
      var l, u := FullMerge(LowerHalf(x)), FullMerge(UpperHalf(x));
      FullMergeSorts(LowerHalf(x));
      FullMergeSorts(UpperHalf(x));
      forall i, j | 0 <= i < j < |x| ensures FullMerge(x)[i] <= FullMerge(x)[j] {
        if i < |l| <= j {
          FullMergeMember(LowerHalf(x), l[i]);
          FullMergeMember(UpperHalf(x), u[j - |l|]);
          HalvesOrdered(x, l[i], u[j - |l|]);
        }
      }
    }
  }

  // ---------- A valley is bitonic ----------

  ghost predicate Valley(x: seq<int>, p: nat) {
    && p <= |x|
    && (forall i, j :: 0 <= i < j < p ==> x[i] >= x[j])
    && (forall i, j :: p <= i < j < |x| ==> x[i] <= x[j])
  }

  lemma ValleyBitonic(x: seq<int>, p: nat)
    requires Valley(x, p)
    ensures Bitonic(x)
  {
    forall t ensures HasBlock(x, t) {
      var a := 0;
      while a < p && x[a] >= t
        invariant 0 <= a <= p && forall i :: 0 <= i < a ==> x[i] >= t
      {
        a := a + 1;
      }
      var b := p;
      while b < |x| && x[b] < t
        invariant p <= b <= |x| && forall i :: p <= i < b ==> x[i] < t
      {
        b := b + 1;
      }
      assert Block(x, t, a, b, false);
    }
  }

  // ---------- Truncated comparators are comparators against padding ----------

  /** The segment [lo, lo+cnt) of s with everything beyond high replaced by the pad. */
  function Padded(s: seq<int>, lo: nat, cnt: nat, high: nat, pad: int): (r: seq<int>)
    requires high < |s|
    ensures |r| == cnt
  {
    seq(cnt, i requires 0 <= i < cnt => if lo + i <= high then s[lo + i] else pad)
  }

  ghost predicate Below(s: seq<int>, lo: nat, cnt: nat, high: nat, pad: int)
    requires high < |s|
  {
    forall m :: lo <= m < lo + cnt && m <= high ==> s[m] <= pad
  }

  /** The value at m after half-cleaning [i, end) with partners k above. */
  function CleanedAt(s: seq<int>, i: nat, end: nat, k: nat, high: nat, m: nat): int
    requires high < |s| && m < |s|
  {
    if i <= m < end && m + k <= high then Min(s[m], s[m + k])
    else if i + k <= m < end + k && m <= high then Max(s[m - k], s[m])
    else s[m]
  }

  lemma {:induction false} HalfCleanEffect(s: seq<int>, i: nat, end: nat, k: nat, high: nat, m: nat)
    requires i <= end <= i + k && 0 < k && high < |s| && m < |s|
    ensures HalfClean(s, i, end, k, ASCENDING, high)[m] == CleanedAt(s, i, end, k, high, m)
    decreases end - i
  {
    if i < end {
      var s1 := if i + k <= high then Exchange(s, i, i + k, ASCENDING) else s;
      HalfCleanEffect(s1, i + 1, end, k, high, m);
    }
  }

  ghost predicate HalfCleaned(s: seq<int>, r: seq<int>, lo: nat, k: nat, high: nat) {
    |r| == |s| > high && forall m: nat :: m < |s| ==> r[m] == CleanedAt(s, lo, lo + k, k, high, m)
  }

  lemma HalfCleanCleans(s: seq<int>, lo: nat, k: nat, high: nat)
    requires 0 < k && high < |s|
    ensures HalfCleaned(s, HalfClean(s, lo, lo + k, k, ASCENDING, high), lo, k, high)
  {
    var r := HalfClean(s, lo, lo + k, k, ASCENDING, high);
    forall m: nat | m < |s| ensures r[m] == CleanedAt(s, lo, lo + k, k, high, m) {
      HalfCleanEffect(s, lo, lo + k, k, high, m);
    }
  }

  lemma PaddedHalves(s: seq<int>, r: seq<int>, lo: nat, k: nat, high: nat, pad: int)
    requires 0 < k && high < |s| && Below(s, lo, 2 * k, high, pad) && HalfCleaned(s, r, lo, k, high)
    ensures var x := Padded(s, lo, 2 * k, high, pad);
      Padded(r, lo, k, high, pad) == LowerHalf(x) && Padded(r, lo + k, k, high, pad) == UpperHalf(x)
    ensures Below(r, lo, 2 * k, high, pad)
  {
    var x := Padded(s, lo, 2 * k, high, pad);
    var l, u := Padded(r, lo, k, high, pad), Padded(r, lo + k, k, high, pad);
    forall i | 0 <= i < k ensures l[i] == LowerHalf(x)[i] && u[i] == UpperHalf(x)[i] {
      PaddedHalfAt(s, r, lo, k, high, pad, i);
    }
    forall m | lo <= m < lo + 2 * k && m <= high ensures r[m] <= pad {
      assert r[m] == CleanedAt(s, lo, lo + k, k, high, m);
    }
  }

  lemma PaddedHalfAt(s: seq<int>, r: seq<int>, lo: nat, k: nat, high: nat, pad: int, i: nat)
    requires i < k && high < |s| && Below(s, lo, 2 * k, high, pad) && HalfCleaned(s, r, lo, k, high)
    ensures var x := Padded(s, lo, 2 * k, high, pad);
      && Padded(r, lo, k, high, pad)[i] == Min(x[i], x[i + k])
      && Padded(r, lo + k, k, high, pad)[i] == Max(x[i], x[i + k])
  {
    if lo + i <= high { assert r[lo + i] == CleanedAt(s, lo, lo + k, k, high, lo + i); }
    if lo + k + i <= high { assert r[lo + k + i] == CleanedAt(s, lo, lo + k, k, high, lo + k + i); }
  }

  lemma PaddedUnchanged(s: seq<int>, r: seq<int>, lo: nat, hi: nat, from: nat, cnt: nat, high: nat, pad: int)
    requires high < |s| && Permutes(s, r, lo, hi) && (from + cnt <= lo || hi <= from || hi <= high + 1 <= from)
    ensures Padded(r, from, cnt, high, pad) == Padded(s, from, cnt, high, pad)
    ensures Below(s, from, cnt, high, pad) ==> Below(r, from, cnt, high, pad)
  {
  }

  lemma PaddedSplit(s: seq<int>, lo: nat, k: nat, high: nat, pad: int)
    requires high < |s|
    ensures Padded(s, lo, 2 * k, high, pad) == Padded(s, lo, k, high, pad) + Padded(s, lo + k, k, high, pad)
  {
  }

  /** Merging the halves one after the other, each leaving the other alone, merges the segment. */
  lemma HalvesMerged(cleaned: seq<int>, left: seq<int>, right: seq<int>, lo: nat, k: nat, high: nat, pad: int,
                     l: seq<int>, u: seq<int>)
    requires high < |cleaned|
    requires Permutes(cleaned, left, lo, ClipEnd(lo + k, high))
    requires Permutes(left, right, lo + k, ClipEnd(lo + k + k, high))
    requires Padded(left, lo, k, high, pad) == l && Padded(right, lo + k, k, high, pad) == u
    ensures Padded(right, lo, 2 * k, high, pad) == l + u
  {
    PaddedUnchanged(left, right, lo + k, ClipEnd(lo + k + k, high), lo, k, high, pad);
    PaddedSplit(right, lo, k, high, pad);
  }

  /** The truncated network computes the full merge of the padded segment. */
  lemma {:induction false} MergeIsFullMerge(s: seq<int>, lo: nat, cnt: nat, high: nat, pad: int)
    requires PowerOfTwo(cnt) && high < |s| && Below(s, lo, cnt, high, pad)
    ensures Padded(MergeNetwork(s, lo, cnt, ASCENDING, high), lo, cnt, high, pad)
         == FullMerge(Padded(s, lo, cnt, high, pad))
    decreases cnt, 1
  {
    if cnt > 1 {
      var k := cnt / 2;
      var cleaned := HalfClean(s, lo, lo + k, k, ASCENDING, high);
      MergeUnfolds(s, lo, k, high);
      HalfCleanCleans(s, lo, k, high);
      PaddedHalves(s, cleaned, lo, k, high, pad);
      MergeBothHalves(cleaned, lo, k, high, pad);
      FullMergeUnfolds(Padded(s, lo, cnt, high, pad));
    } else {
      assert MergeNetwork(s, lo, cnt, ASCENDING, high) == s;
    }
  }

  lemma MergeUnfolds(s: seq<int>, lo: nat, k: nat, high: nat)
    requires PowerOfTwo(2 * k) && k > 0 && high < |s|
    ensures PowerOfTwo(k)
    ensures MergeNetwork(s, lo, 2 * k, ASCENDING, high) ==
      MergeNetwork(MergeNetwork(HalfClean(s, lo, lo + k, k, ASCENDING, high), lo, k, ASCENDING, high), lo + k, k, ASCENDING, high)
  {
    assert 2 * k / 2 == k;
  }

  lemma FullMergeUnfolds(x: seq<int>)
    requires PowerOfTwo(|x|) && |x| > 1
    ensures FullMerge(x) == FullMerge(LowerHalf(x)) + FullMerge(UpperHalf(x))
  {
  }

  lemma BelowHalves(s: seq<int>, lo: nat, k: nat, high: nat, pad: int)
    requires high < |s| && Below(s, lo, 2 * k, high, pad)
    ensures Below(s, lo, k, high, pad) && Below(s, lo + k, k, high, pad)
  {
  }

  lemma UpperHalfMerged(cleaned: seq<int>, left: seq<int>, lo: nat, k: nat, high: nat, pad: int)
    requires PowerOfTwo(k) && high < |cleaned| && Below(cleaned, lo + k, k, high, pad)
    requires Permutes(cleaned, left, lo, ClipEnd(lo + k, high))
    ensures Padded(MergeNetwork(left, lo + k, k, ASCENDING, high), lo + k, k, high, pad)
         == FullMerge(Padded(cleaned, lo + k, k, high, pad))
    decreases k, 2
  {
    PaddedUnchanged(cleaned, left, lo, ClipEnd(lo + k, high), lo + k, k, high, pad);
    MergeIsFullMerge(left, lo + k, k, high, pad);
  }

  lemma {:induction false} MergeBothHalves(cleaned: seq<int>, lo: nat, k: nat, high: nat, pad: int)
    requires PowerOfTwo(k) && high < |cleaned| && Below(cleaned, lo, 2 * k, high, pad)
    ensures Padded(MergeNetwork(MergeNetwork(cleaned, lo, k, ASCENDING, high), lo + k, k, ASCENDING, high), lo, 2 * k, high, pad)
         == FullMerge(Padded(cleaned, lo, k, high, pad)) + FullMerge(Padded(cleaned, lo + k, k, high, pad))
    decreases k, 3
  {
    var left := MergeNetwork(cleaned, lo, k, ASCENDING, high);
    var right := MergeNetwork(left, lo + k, k, ASCENDING, high);
    BelowHalves(cleaned, lo, k, high, pad);
    MergeIsFullMerge(cleaned, lo, k, high, pad);
    MergePermutes(cleaned, lo, k, ASCENDING, high);
    UpperHalfMerged(cleaned, left, lo, k, high, pad);
    MergePermutes(left, lo + k, k, ASCENDING, high);
    HalvesMerged(cleaned, left, right, lo, k, high, pad,
                 FullMerge(Padded(cleaned, lo, k, high, pad)), FullMerge(Padded(cleaned, lo + k, k, high, pad)));
  }

  // ---------- Sorting ----------

  predicate SortedIn(s: seq<int>, lo: nat, hi: nat, dir: bool) {
    hi <= |s| && forall i, j :: lo <= i < j < hi ==> if dir then s[i] <= s[j] else s[i] >= s[j]
  }

  lemma MaxOf(s: seq<int>) returns (pad: int)
    ensures forall m :: 0 <= m < |s| ==> s[m] <= pad
  {
    pad := 0;
    for i := 0 to |s|
      invariant forall m :: 0 <= m < i ==> s[m] <= pad
    {
      if s[i] > pad { pad := s[i]; }
    }
  }

  /** Merging two oppositely sorted runs whose total need not be a power of two. */
  lemma MergeSortsUp(s: seq<int>, lo: nat, mid: nat, end: nat, pow: nat, high: nat)
    requires PowerOfTwo(pow) && lo <= mid <= end <= |s| && end <= lo + pow && lo <= high && high + 1 == end
    requires SortedIn(s, lo, mid, false) && SortedIn(s, mid, end, true)
    ensures SortedIn(MergeNetwork(s, lo, pow, ASCENDING, high), lo, end, true)
  {
    var pad := MaxOf(s);
    var x := Padded(s, lo, pow, high, pad);
    PaddedValley(s, lo, mid, end, pow, high, pad, x, mid - lo);
    ValleyBitonic(x, mid - lo);
    FullMergeSorts(x);
    MergeIsFullMerge(s, lo, pow, high, pad);
    UnpaddedSorted(MergeNetwork(s, lo, pow, ASCENDING, high), FullMerge(x), lo, end, pow, high, pad);
  }

  lemma PaddedValley(s: seq<int>, lo: nat, mid: nat, end: nat, pow: nat, high: nat, pad: int, x: seq<int>, k: nat)
    requires lo <= mid <= end <= |s| && end <= lo + pow && high + 1 == end && k == mid - lo
    requires SortedIn(s, lo, mid, false) && SortedIn(s, mid, end, true) && forall m :: 0 <= m < |s| ==> s[m] <= pad
    requires x == Padded(s, lo, pow, high, pad)
    ensures Valley(x, k)
  {
  }

  lemma UnpaddedSorted(r: seq<int>, y: seq<int>, lo: nat, end: nat, pow: nat, high: nat, pad: int)
    requires lo < end <= |r| && end <= lo + pow && high + 1 == end && Sorted(y) && y == Padded(r, lo, pow, high, pad)
    ensures SortedIn(r, lo, end, true)
  {
    forall i, j | lo <= i < j < end ensures r[i] <= r[j] {
      assert r[i] == y[i - lo] && r[j] == y[j - lo];
    }
  }

  lemma MergeSorts(s: seq<int>, lo: nat, mid: nat, end: nat, pow: nat, dir: bool, high: nat)
    requires PowerOfTwo(pow) && lo <= mid <= end <= |s| && end <= lo + pow && lo <= high && high + 1 == end
    requires SortedIn(s, lo, mid, !dir) && SortedIn(s, mid, end, dir)
    ensures SortedIn(MergeNetwork(s, lo, pow, dir, high), lo, end, dir)
  {
    if dir {
      MergeSortsUp(s, lo, mid, end, pow, high);
    } else {
      MergeSortsUp(Negated(s), lo, mid, end, pow, high);
      MergeNegated(s, lo, pow, dir, high);
      var up, r := MergeNetwork(Negated(s), lo, pow, true, high), MergeNetwork(s, lo, pow, dir, high);
      forall i, j | lo <= i < j < end ensures r[i] >= r[j] {
        assert up[i] <= up[j];
      }
    }
  }

  /** r is s with positions i and j put in order. */
  ghost predicate Exchanged(s: seq<int>, r: seq<int>, i: nat, j: nat, dir: bool) {
    && |r| == |s| && i < |s| && j < |s| && i != j
    && r[i] == (if dir then Min(s[i], s[j]) else Max(s[i], s[j]))
    && r[j] == (if dir then Max(s[i], s[j]) else Min(s[i], s[j]))
    && (forall m :: 0 <= m < |s| && m != i && m != j ==> r[m] == s[m])
    && multiset(r) == multiset(s)
  }

  lemma ExchangeEffect(s: seq<int>, i: nat, j: nat, dir: bool)
    requires i < |s| && j < |s| && i != j
    ensures Exchanged(s, Exchange(s, i, j, dir), i, j, dir)
  {
    ExchangePermutes(s, i, j, dir);
  }

  /** Five comparators sort four inputs. */
  lemma FiveComparators(s: seq<int>, s1: seq<int>, s2: seq<int>, s3: seq<int>, s4: seq<int>, r: seq<int>, lo: nat, dir: bool)
    requires Exchanged(s, s1, lo, lo + 1, dir) && Exchanged(s1, s2, lo + 2, lo + 3, dir)
    requires Exchanged(s2, s3, lo + 1, lo + 3, dir) && Exchanged(s3, s4, lo, lo + 2, dir)
    requires Exchanged(s4, r, lo + 1, lo + 2, dir)
    ensures SortedIn(r, lo, lo + 4, dir) && Permutes(s, r, lo, lo + 4)
  {
    assert if dir then r[lo] <= r[lo + 1] <= r[lo + 2] <= r[lo + 3] else r[lo] >= r[lo + 1] >= r[lo + 2] >= r[lo + 3];
  }

  lemma FourSortSorts(s: seq<int>, lo: nat, dir: bool)
    requires lo + 4 <= |s|
    ensures SortedIn(FourSort(s, lo, dir, 5), lo, lo + 4, dir)
    ensures Permutes(s, FourSort(s, lo, dir, 5), lo, lo + 4)
  {
    var s1, s2 := FourSort(s, lo, dir, 1), FourSort(s, lo, dir, 2);
    var s3, s4 := FourSort(s, lo, dir, 3), FourSort(s, lo, dir, 4);
    assert FourSort(s, lo, dir, 0) == s;
    ExchangeEffect(s, lo, lo + 1, dir);
    ExchangeEffect(s1, lo + 2, lo + 3, dir);
    ExchangeEffect(s2, lo + 1, lo + 3, dir);
    ExchangeEffect(s3, lo, lo + 2, dir);
    ExchangeEffect(s4, lo + 1, lo + 2, dir);
    FiveComparators(s, s1, s2, s3, s4, FourSort(s, lo, dir, 5), lo, dir);
  }

  /** One level of the sort: two runs sorted in opposite directions are merged. */
  lemma SortedRunsMerge(s: seq<int>, first: seq<int>, halves: seq<int>, lo: nat, mid: nat, end: nat, pow: nat,
                        dir: bool, high: nat)
    requires PowerOfTwo(pow) && lo <= mid <= end <= |s| && end <= lo + pow && lo <= high && high + 1 == end
    requires SortedIn(first, lo, mid, !dir) && Permutes(s, first, lo, mid)
    requires SortedIn(halves, mid, end, dir) && Permutes(first, halves, mid, end)
    ensures SortedIn(MergeNetwork(halves, lo, pow, dir, high), lo, end, dir)
    ensures Permutes(s, MergeNetwork(halves, lo, pow, dir, high), lo, end)
  {
    FirstRunStays(first, halves, lo, mid, end, dir);
    MergeSorts(halves, lo, mid, end, pow, dir, high);
    MergePermutes(halves, lo, pow, dir, high);
    assert ClipEnd(lo + pow, high) == end;
    PermutesWithin(s, first, lo, mid, lo, end);
    PermutesWithin(first, halves, mid, end, lo, end);
    PermutesTransitive(s, first, halves, lo, end);
    PermutesTransitive(s, halves, MergeNetwork(halves, lo, pow, dir, high), lo, end);
  }

  lemma FirstRunStays(first: seq<int>, halves: seq<int>, lo: nat, mid: nat, end: nat, dir: bool)
    requires lo <= mid <= end <= |first| && SortedIn(first, lo, mid, !dir) && Permutes(first, halves, mid, end)
    ensures SortedIn(halves, lo, mid, !dir)
  {
  }
}
