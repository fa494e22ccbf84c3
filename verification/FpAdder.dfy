/** The dual-path binary32 adder: alignment, the near and far paths, special cases, add and sub. */
module FpAdder {
  import opened Powers
  import opened Binary32
  import opened FpUnpacked

  // ---------- Unpacking and packing ----------

  /** v holds exactly what the encoding f means. */
  ghost predicate Represents(f: Float, v: FloatValue) {
    && v.Checked() && v.sign == f.sign
    && v.nan == f.IsNaN() && v.inf == f.IsInf() && v.zero == f.IsZero()
    && v.subnormal == (f.exponent == 0 && f.significand != 0)
    && (v.subnormal ==> v.significand == f.significand * Pow2(v.Denormal()))
    && (0 < f.exponent < 0xFF ==>
        v.exponent == f.exponent - BIAS && v.significand == 0x80_0000 + f.significand)
  }

  method UnpackSubnormal(f: Float, uf: UnpackedFloat)
    requires f.exponent == 0 && f.significand != 0 && uf.sign == f.sign
    modifies uf
    ensures Represents(f, uf.Read())
  {
    uf.nan, uf.inf, uf.zero, uf.subnormal := false, false, false, true;
    uf.exponent := -126;
    uf.significand := f.significand;
    ghost var moved := uf.NormaliseUp();
    UnpackedSubnormal(f.significand, moved);
  }

  method UnpackFloat(f: Float) returns (v: FloatValue)
    ensures Represents(f, v)
  {
    var uf := new UnpackedFloat();
    uf.sign := f.sign;
    if f.exponent == 0 {
      if f.significand == 0 {
        uf.MakeZero();
      } else {
        UnpackSubnormal(f, uf);
      }
    } else if f.exponent == 0xFF {
      if f.significand == 0 { uf.MakeInf(); } else { uf.MakeNaN(); }
    } else {
      uf.nan, uf.inf, uf.zero, uf.subnormal := false, false, false, false;
      uf.exponent := f.exponent - BIAS;
      uf.significand := 0x80_0000 + f.significand;
    }
    return uf.Read();
  }

  lemma UnpackedSubnormal(s: nat, moved: nat)
    requires 0 < s <= 0x7F_FFFF
    ensures moved == 0 ==> s * Pow2(moved) < 0x80_0000
    ensures (s * Pow2(moved)) % Pow2(moved) == 0
  {
    assert Pow2(0) == 1;
    DivUnique(s * Pow2(moved), Pow2(moved), s, 0);
  }

  /** f encodes exactly what v holds. */
  ghost predicate PackedFrom(v: FloatValue, f: Float) {
    && v.Packable()
    && f.sign == v.sign && f.IsNaN() == v.nan && f.IsInf() == v.inf
    && (v.zero ==> f.IsZero())
    && (v.subnormal ==> f.exponent == 0 && v.significand == f.significand * Pow2(v.Denormal()))
    && (!v.IsSpecial() && !v.subnormal ==>
        0 < f.exponent < 0xFF && v.exponent == f.exponent - BIAS && v.significand == 0x80_0000 + f.significand)
  }

  method Pack(v: FloatValue) returns (f: Float)
    requires v.Packable()
    ensures PackedFrom(v, f)
  {
    if v.nan {
      f := Packed(v.sign, 0xFF, 0x40_B2BD);
    } else if v.inf {
      f := Packed(v.sign, 0xFF, 0);
    } else if v.zero {
      f := Packed(v.sign, 0, 0);
    } else if v.subnormal {
      var biased := v.exponent + BIAS - 1;
      ShiftedSubnormal(v.significand, -biased);
      f := Packed(v.sign, 0, v.significand / Pow2(-biased));
    } else {
      f := Packed(v.sign, v.exponent + BIAS, v.significand % 0x80_0000);
    }
  }

  lemma ShiftedSubnormal(sig: nat, k: nat)
    requires 1 <= k && sig <= 0xFF_FFFF && sig % Pow2(k) == 0
    ensures sig == (sig / Pow2(k)) * Pow2(k) && 0 <= sig / Pow2(k) <= 0x7F_FFFF
  {
    var q, r := DivMod(sig, Pow2(k));
    ModBounds(sig, Pow2(k));
    Pow2Monotone(1, k);
    assert Pow2(1) == 2;
    MulMonotone(2, Pow2(k), q);
  }

  /** Packing what was unpacked gives the encoding back, up to the payload of a NaN. */
  method PackerSpec(f: Float) returns (r: Float)
    ensures r == f || (r.IsNaN() && f.IsNaN())
  {
    var uf := UnpackFloat(f);
    r := Pack(uf);
    if uf.subnormal {
      var k := uf.Denormal();
      DivUnique(uf.significand, Pow2(k), f.significand, 0);
      DivUnique(uf.significand, Pow2(k), r.significand, 0);
    }
  }

  /** Magnitudes survive unpacking and packing, at any scale. */
  lemma ScaledRepresents(f: Float, v: FloatValue, t: nat)
    requires f.IsFinite() && t >= 512 && -512 <= v.exponent
    requires v.zero ==> f.IsZero()
    requires v.subnormal ==> f.exponent == 0 && v.Denormal() >= 1 && v.significand == f.significand * Pow2(v.Denormal())
    requires !v.zero && !v.subnormal ==>
      0 < f.exponent && v.exponent == f.exponent - BIAS && v.significand == 0x80_0000 + f.significand
    ensures v.Scaled(t) == Magnitude(f) * Pow2(t - 126)
  {
    ScaledMagnitude(f, t);
    if v.subnormal {
      Pow2Add(v.Denormal(), v.exponent + t);
      assert f.significand * Pow2(v.Denormal()) * Pow2(v.exponent + t)
          == f.significand * (Pow2(v.Denormal()) * Pow2(v.exponent + t));
    }
  }

  // ---------- Alignment ----------

  const WORD: nat := 0x1_0000_0000

  /** A signed value in 32-bit two's complement. */
  function ToWord(x: int): (u: nat)
    ensures u < WORD
  {
    x % WORD
  }

  lemma WordPower()
    ensures Pow2(32) == WORD
  {
    SmallPowers();
    Pow2Add(16, 16);
  }

  lemma ShiftRange(x: int, d: nat, q: int, r: nat)
    requires d >= 1 && x == q * d + r && r < d && -0x400_0000 <= x < 0x400_0000
    ensures -0x400_0000 <= q < 0x400_0000 && (q < 0 <==> x < 0)
  {
    if q >= 0 { MulMonotone(1, d, q); } else {
      MulMonotone(q, -1, d);
      if q < -0x400_0000 { MulStrict(q, -0x400_0000, d); MulMonotone(1, d, 0x400_0000); }
    }
  }

  lemma NegativeShift(x: int, d: nat, top: nat, q: int, r: nat)
    requires d >= 1 && x == q * d + r && r < d && d * top == WORD
    ensures (x + WORD) / d == q + top && (x + WORD) % d == r
    ensures (d - 1) * top == WORD - top
  {
    assert (q + top) * d == q * d + top * d;
    DivUnique(x + WORD, d, q + top, r);
  }

  /** The shifted word: ones shifted in from the left when the value is negative. */
  function ShiftWord(word: nat, i: nat, negative: bool): nat
    requires 1 <= i <= 16
  {
    ModBounds(word, Pow2(i));
    MulNonNegative(Pow2(i) - 1, Pow2(32 - i));
    if negative then word / Pow2(i) + (Pow2(i) - 1) * Pow2(32 - i) else word / Pow2(i)
  }

  /** One conditional shift of the alignment loop is a floor division of the signed value. */
  lemma ArithmeticShift(x: int, i: nat, negative: bool)
    requires 1 <= i <= 16 && -0x400_0000 <= x < 0x400_0000 && (negative <==> x < 0)
    ensures -0x400_0000 <= x / Pow2(i) < 0x400_0000 && (negative <==> x / Pow2(i) < 0)
    ensures ToWord(x) % Pow2(i) == x % Pow2(i)
    ensures ToWord(x / Pow2(i)) == ShiftWord(ToWord(x), i, negative)
  {
    var q, r := DivMod(x, Pow2(i));
    ShiftRange(x, Pow2(i), q, r);
    WordOf(x);
    WordOf(q);
    if negative {
      Pow2Add(i, 32 - i);
      WordPower();
      NegativeShift(x, Pow2(i), Pow2(32 - i), q, r);
    }
  }

  lemma WordOf(x: int)
    requires -0x1_0000_0000 <= x < WORD
    ensures ToWord(x) == if x < 0 then x + WORD else x
  {
    DivUnique(x, WORD, if x < 0 then -1 else 0, if x < 0 then x + WORD else x);
  }

  /** What the alignment loop has computed after shifting by done places. */
  ghost predicate AlignedBy(s: int, done: nat, negative: bool, ssig: nat, sticky: bool) {
    && -0x400_0000 <= s / Pow2(done) < 0x400_0000
    && (negative <==> s / Pow2(done) < 0)
    && ssig == ToWord(s / Pow2(done))
    && (sticky <==> s % Pow2(done) != 0)
  }

  lemma AlignStep(s: int, done: nat, i: nat, negative: bool, ssig: nat, sticky: bool)
    requires 1 <= i <= 16 && AlignedBy(s, done, negative, ssig, sticky)
    ensures AlignedBy(s, done + i, negative, ShiftWord(ssig, i, negative), sticky || ssig % Pow2(i) != 0)
  {
    Pow2Add(done, i);
    DivTwice(s, Pow2(done), Pow2(i));
    ArithmeticShift(s / Pow2(done), i, negative);
  }

  lemma NextBit(difference: nat, i: nat)
    requires i in {1, 2, 4, 8, 16}
    ensures difference % (i * 2) == difference % i + if (difference / i) % 2 == 1 then i else 0
  {
    var q, r := DivMod(difference, i);
    var p, b := DivMod(q, 2);
    ModBounds(difference, i);
    DoubleDigit(difference, i, q, p, b, r);
    DivUnique(difference, i * 2, p, b * i + r);
  }

  lemma DoubleDigit(x: int, i: nat, q: int, p: int, b: int, r: int)
    requires x == q * i + r && q == p * 2 + b && 0 <= b < 2 && 0 <= r < i
    ensures x == p * (i * 2) + (b * i + r) && 0 <= b * i + r < i * 2
  {
    MulAssociates(p, 2, i);
    assert q * i == (p * 2) * i + b * i;
    if b == 1 { assert b * i == i; } else { assert b * i == 0; }
  }

  lemma AlignStart(start: nat, negative: bool)
    requires 0 < start < 0x400_0000
    ensures AlignedBy(Signed(negative, start), 0, negative, if negative then (WORD - start) % WORD else start, false)
  {
    var s := Signed(negative, start);
    assert Pow2(0) == 1;
    DivUnique(s, 1, s, 0);
  }

  /** The sticky alignment loop: floor of (+-start)/2^difference and whether anything was lost. */
  method Align(start: nat, difference: nat, negative: bool) returns (ssig: nat, sticky: bool)
    requires 0 < start < 0x400_0000 && difference <= 26
    ensures AlignedBy(Signed(negative, start), difference, negative, ssig, sticky)
  {
    ghost var s := Signed(negative, start);
    ssig := if negative then (WORD - start) % WORD else start;
    sticky := false;
    var i := 1;
    ghost var done := 0;
    AlignStart(start, negative);
    while i <= 26
      invariant i in {1, 2, 4, 8, 16, 32} && done == difference % i
      invariant AlignedBy(s, done, negative, ssig, sticky)
      decreases 32 - i
    {
      NextBit(difference, i);
      if (difference / i) % 2 == 1 {
        AlignStep(s, done, i, negative, ssig, sticky);
        sticky := sticky || ssig % Pow2(i) != 0;
        ssig := ShiftWord(ssig, i, negative);
        done := done + i;
      }
      i := i * 2;
    }
  }

  function Signed(negative: bool, magnitude: nat): int {
    var m: int := magnitude;
    if negative then -m else m
  }

  // ---------- From the aligned sum to the rounder ----------

  /** 8a is the 27-bit sum at weight w plus a rest; the rest and the two lowest bits stay below
      the guard bit. */
  ghost predicate Extracted(a: nat, sum: nat, w: nat, rest: nat) {
    && 0x400_0000 <= sum < 0x800_0000
    && 8 * a == sum * w + rest && (sum % 4) * w + rest < 4 * w
  }

  lemma ExtractFraction(a: nat, sum: nat, w: nat, rest: nat)
    requires w > 0 && Extracted(a, sum, w, rest)
    ensures Fraction(a, sum / 8, w, (sum / 4) % 2 == 1, rest != 0 || sum % 4 != 0)
  {
    var sig, guard, low := sum / 8, (sum / 4) % 2, sum % 4;
    SplitDigits(sum, sig, guard, low, w);
    if low > 0 { MulMonotone(1, low, w); }
  }

  lemma SplitDigits(sum: nat, sig: nat, guard: nat, low: nat, w: nat)
    requires sig == sum / 8 && guard == (sum / 4) % 2 && low == sum % 4
    ensures sum * w == 8 * (sig * w) + (if guard == 1 then 4 * w else 0) + low * w
  {
    assert sum == 8 * sig + 4 * guard + low;
    Combination(sig, guard, low, w);
    if guard == 1 { assert guard * w == w; } else { assert guard * w == 0; }
  }

  lemma Combination(sig: nat, guard: nat, low: nat, w: nat)
    ensures (8 * sig + 4 * guard + low) * w == 8 * (sig * w) + 4 * (guard * w) + low * w
  {
  }

  predicate Packs(v: FloatValue) {
    v.Packable() && !v.nan
  }

  lemma LowBits(sum: nat)
    requires 0x400_0000 <= sum < 0x800_0000
    ensures (sum / 2) % 2 == 1 || sum % 2 == 1 <==> sum % 4 != 0
    ensures 0x80_0000 <= sum / 8 <= 0xFF_FFFF
  {
  }

  method Extract(mode: RoundingMode, sum: nat, aligned: bool, result: UnpackedFloat, ghost a: nat, ghost rest: nat, ghost t: nat)
    requires Unflagged(result.Read()) && -512 <= result.exponent <= 510 && t >= 512
    requires Extracted(a, sum, Pow2(result.exponent + t), rest) && (aligned <==> rest != 0)
    modifies result
    ensures result.sign == old(result.sign) && Packs(result.Read())
    ensures mode.ToNearest() ==> RoundedTo(mode, a, t, result.Read())
    ensures !mode.ToNearest() && old(result.exponent) >= -150 ==> DirectedTo(Away(mode, result.sign), a, t, result.Read())
  {
    ExtractFraction(a, sum, Pow2(result.exponent + t), rest);
    LowBits(sum);
    result.significand := sum / 8;
    var guardBit := (sum / 4) % 2 == 1;
    var stickyBit := aligned || (sum / 2) % 2 == 1 || sum % 2 == 1;
    result.Rounder(mode, guardBit, stickyBit, a, t);
  }

  /** 4a is the aligned sum at the larger operand's weight plus what alignment lost. */
  ghost predicate AlignedSum(a: nat, sum: nat, w: nat, rest: nat) {
    4 * a == sum * w + rest && rest < w
  }

  lemma ShiftedOnce(a: nat, sum: nat, w: nat, rest: nat)
    requires AlignedSum(a, sum, w, rest) && 0x200_0000 <= sum < 0x400_0000
    ensures Extracted(a, sum * 2, w, 2 * rest)
  {
    assert (sum * 2) * w == 2 * (sum * w);
    assert (sum * 2) % 4 <= 2;
    MulMonotone((sum * 2) % 4, 2, w);
  }

  lemma ShiftedTwice(a: nat, sum: nat, half: nat, rest: nat)
    requires AlignedSum(a, sum, 2 * half, rest) && 0x100_0000 <= sum < 0x200_0000
    ensures Extracted(a, sum * 4, half, 2 * rest)
  {
    assert sum * (2 * half) == 2 * (sum * half);
    assert (sum * 4) * half == 4 * (sum * half);
    assert (sum * 4) % 4 == 0;
  }

  lemma NotShifted(a: nat, sum: nat, w: nat, rest: nat)
    requires AlignedSum(a, sum, w, rest) && 0x400_0000 <= sum < 0x800_0000
    ensures Extracted(a, sum, 2 * w, 2 * rest)
  {
    assert sum * (2 * w) == 2 * (sum * w);
    MulMonotone(sum % 4, 3, 2 * w);
  }

  lemma NeighbouringPowers(n: nat)
    requires n > 0
    ensures Pow2(n + 1) == 2 * Pow2(n) && Pow2(n) == 2 * Pow2(n - 1)
  {
  }

  lemma NoWrap(x: nat)
    requires x < WORD
    ensures x % WORD == x
  {
    DivUnique(x, WORD, 0, x);
  }

  lemma TopBit(sum: nat, top: nat)
    requires top > 0 && sum < 2 * top
    ensures (sum / top) % 2 == 1 <==> sum >= top
  {
    if sum >= top { DivUnique(sum, top, 1, sum - top); } else { DivUnique(sum, top, 0, sum); }
  }

  /** Normalises the 25- to 27-bit sum so that the point is after the 27th bit. */
  method NormaliseSum(sum: nat, sub: bool, result: UnpackedFloat, ghost a: nat, ghost rest: nat, ghost t: nat)
    returns (normal: nat)
    requires -511 <= result.exponent <= 509 && t >= 512
    requires AlignedSum(a, sum, Pow2(result.exponent + t), rest)
    requires if sub then 0x100_0000 <= sum < 0x400_0000 else 0x200_0000 <= sum < 0x800_0000
    modifies result`exponent
    ensures old(result.exponent) - 1 <= result.exponent <= old(result.exponent) + 1
    ensures Extracted(a, normal, Pow2(result.exponent + t), 2 * rest)
  {
    ghost var e := result.exponent;
    NeighbouringPowers(e + t);
    normal := sum;
    TopBit(sum, if sub then 0x200_0000 else 0x400_0000);
    if sub {
      if (sum / 0x200_0000) % 2 == 1 {
        ShiftedOnce(a, sum, Pow2(e + t), rest);
        NoWrap(sum * 2);
        normal := (sum * 2) % WORD;
      } else {
        ShiftedTwice(a, sum, Pow2(e - 1 + t), rest);
        result.exponent := result.exponent - 1;
        NoWrap(sum * 4);
        normal := (sum * 4) % WORD;
      }
    } else {
      if (sum / 0x400_0000) % 2 == 1 {
        NotShifted(a, sum, Pow2(e + t), rest);
        result.exponent := result.exponent + 1;
      } else {
        ShiftedOnce(a, sum, Pow2(e + t), rest);
        NoWrap(sum * 2);
        normal := (sum * 2) % WORD;
      }
    }
  }

  // ---------- The exact sum in terms of the fields ----------

  predicate Operand(v: FloatValue) {
    v.Checked() && !v.IsSpecial()
  }

  /** The exact magnitude of larger +- smaller. */
  ghost function Exact(larger: FloatValue, smaller: FloatValue, sub: bool, t: nat): int
    requires t >= 512 && Operand(larger) && Operand(smaller)
  {
    var l: int, s: int := larger.Scaled(t), smaller.Scaled(t);
    if sub then l - s else l + s
  }

  predicate Ordered(larger: FloatValue, smaller: FloatValue) {
    larger.exponent > smaller.exponent
    || (larger.exponent == smaller.exponent && larger.significand >= smaller.significand)
  }

  lemma OrderedScaled(larger: FloatValue, smaller: FloatValue, t: nat)
    requires t >= 512 && Operand(larger) && Operand(smaller) && Ordered(larger, smaller)
    ensures larger.Scaled(t) >= smaller.Scaled(t)
    ensures larger.Scaled(t) == smaller.Scaled(t) ==>
      larger.exponent == smaller.exponent && larger.significand == smaller.significand
  {
    var wl, ws := Pow2(larger.exponent + t), Pow2(smaller.exponent + t);
    if larger.exponent == smaller.exponent {
      MulMonotone(smaller.significand, larger.significand, ws);
      if smaller.significand < larger.significand { MulStrict(smaller.significand, larger.significand, ws); }
    } else {
      Pow2Monotone(smaller.exponent + t, larger.exponent + t);
      MulMonotone(0x80_0000, larger.significand, wl);
      MulStrict(smaller.significand, 0x100_0000, ws);
    }
  }

  /** The aligned word equation: quotient and remainder of the shifted smaller operand. */
  lemma AlignedEquation(sigL: nat, sigS: nat, p: nat, wS: nat, negative: bool, q: int, rem: nat)
    requires wS > 0 && p > 0 && rem < p && Signed(negative, 4 * sigS) == q * p + rem
    ensures var l: int, s: int := sigL * (p * wS), sigS * wS;
      4 * (if negative then l - s else l + s) == (4 * sigL + q) * (p * wS) + rem * wS
    ensures 0 <= rem * wS < p * wS && (rem * wS == 0 <==> rem == 0)
  {
    var w := p * wS;
    assert Signed(negative, 4 * sigS) * wS == q * w + rem * wS by {
      assert (q * p + rem) * wS == q * p * wS + rem * wS;
      assert q * p * wS == q * w;
    }
    assert Signed(negative, 4 * sigS) * wS == 4 * Signed(negative, 1) * (sigS * wS);
    assert (4 * sigL + q) * w == 4 * (sigL * w) + q * w;
    MulStrict(rem, p, wS);
    if rem > 0 { MulStrict(0, rem, wS); }
  }

  lemma QuotientBounds(sigS: nat, p: nat, negative: bool, q: int, rem: nat)
    requires 0 < sigS <= 0xFF_FFFF && p > 0 && rem < p && Signed(negative, 4 * sigS) == q * p + rem
    requires negative ==> p >= 4
    ensures if negative then -0x100_0000 <= q < 0 else 0 <= q < 0x400_0000
  {
    if negative {
      if q >= 0 { MulMonotone(0, q, p); }
      if q < -0x100_0000 {
        MulStrict(q, -0x100_0000, p);
        MulMonotone(4, p, 0x100_0000);
      }
    } else {
      if q < 0 { MulStrict(q, 0, p); }
      if q >= 0 { MulMonotone(1, p, q); }
    }
  }

  // ---------- Exact results ----------

  /** A result that equals the exact magnitude is correctly rounded. */
  lemma ExactRounded(mode: RoundingMode, a: nat, t: nat, v: FloatValue)
    requires t >= 512 && v.Packable() && !v.nan && !v.inf && v.Scaled(t) == a
    ensures RoundedTo(mode, a, t, v)
  {
    OverflowAt(a, t);
    if !v.zero {
      Pow2Monotone(v.exponent + t, 127 + t);
      MulMonotone(v.significand, 0xFF_FFFF, Pow2(v.exponent + t));
    }
  }

  lemma ExactDirected(away: bool, a: nat, t: nat, v: FloatValue)
    requires t >= 512 && v.Packable() && !v.nan && !v.inf && v.Scaled(t) == a
    ensures DirectedTo(away, a, t, v)
  {
    forall g: Float | g.IsFinite() ensures NotBetween(away, a, a, Magnitude(g) * Pow2(t - 126)) { }
    FiniteDirected(away, a, t, v, a);
  }

  /** Every operand is a whole number of steps of 2^-149. */
  lemma OperandSteps(v: FloatValue, t: nat) returns (steps: nat)
    requires Operand(v) && t >= 512
    ensures steps > 0 && v.Scaled(t) == steps * Pow2(t - 126)
  {
    var unit := Pow2(t - 126);
    if v.subnormal {
      var k := v.Denormal();
      var q, r := DivMod(v.significand, Pow2(k));
      ModBounds(v.significand, Pow2(k));
      Pow2Add(k, v.exponent + t);
      steps := q;
      MulAssociates(q, Pow2(k), Pow2(v.exponent + t));
      PositiveFactor(q, Pow2(k));
    } else {
      Pow2Add(v.exponent + 126, t - 126);
      steps := v.significand * Pow2(v.exponent + 126);
      MulMonotone(1, v.significand, Pow2(v.exponent + 126));
      MulAssociates(v.significand, Pow2(v.exponent + 126), unit);
    }
  }

  /** After cancellation the normalised difference is representable: no rounding is needed. */
  lemma CancelledIsExact(sig: nat, e: int, t: nat, steps: nat)
    requires 0x80_0000 <= sig <= 0xFF_FFFF && t >= 512 && -512 <= e < -126
    requires sig * Pow2(e + t) == steps * Pow2(t - 126)
    ensures -149 <= e && sig % Pow2(-(e + 126)) == 0
  {
    var k := -(e + 126);
    var w := Pow2(e + t);
    Pow2Add(k, e + t);
    assert steps * (Pow2(k) * w) == steps * Pow2(k) * w;
    CancelFactor(sig, steps * Pow2(k), w);
    DivUnique(sig, Pow2(k), steps, 0);
    if k >= 24 {
      Pow2Monotone(24, k);
      SmallPowers();
      MulMonotone(1, steps, Pow2(k));
    }
  }

  lemma PositiveFactor(q: int, p: nat)
    requires q * p > 0
    ensures q > 0
  {
    if q < 0 { MulMonotone(q, 0, p); }
  }

  lemma CancelFactor(x: int, y: int, w: int)
    requires w > 0 && x * w == y * w
    ensures x == y
  {
    if x < y { MulStrict(x, y, w); }
    if y < x { MulStrict(y, x, w); }
  }

  // ---------- The two paths ----------

  /** Near path, effective subtraction: the difference is exact; it may cancel fully, keep 26 bits
      (and need rounding by one place), or cancel some leading bits (and need none). */
  method NearSubtract(mode: RoundingMode, lsig: nat, ssig: nat, result: UnpackedFloat,
                      ghost a: nat, ghost steps: nat, ghost t: nat)
    requires Unflagged(result.Read()) && -149 <= result.exponent <= 127 && t >= 512
    requires ssig <= lsig < 0x400_0000 && (lsig - ssig) % 2 == 0
    requires AlignedSum(a, lsig - ssig, Pow2(result.exponent + t), 0) && a == steps * Pow2(t - 126)
    modifies result
    ensures Packs(result.Read())
    ensures mode.ToNearest() ==> RoundedTo(mode, a, t, result.Read())
    ensures !mode.ToNearest() ==> DirectedTo(Away(mode, result.sign), a, t, result.Read())
    ensures a == 0 ==> result.zero && result.sign == (mode == RTN)
    ensures a != 0 ==> result.sign == old(result.sign)
  {
    var diff := lsig - ssig;
    ghost var w := Pow2(result.exponent + t);
    if diff == 0 {
      result.MakeZero();
      result.sign := mode == RTN;
      ExactRounded(mode, a, t, result.Read());
      ExactDirected(Away(mode, result.sign), a, t, result.Read());
      return;
    }
    MulMonotone(1, diff, w);
    if (diff / 0x200_0000) % 2 == 1 {
      ShiftedOnce(a, diff, w, 0);
      Extract(mode, diff * 2, false, result, a, 0, t);
      return;
    }
    CancelBits(mode, diff, result, a, steps, t);
  }

  /** Leading bits have cancelled: the difference is shifted up and exact. */
  method CancelBits(mode: RoundingMode, diff: nat, result: UnpackedFloat, ghost a: nat, ghost steps: nat, ghost t: nat)
    requires Unflagged(result.Read()) && -149 <= result.exponent <= 127 && t >= 512
    requires 0 < diff < 0x200_0000 && diff % 2 == 0
    requires AlignedSum(a, diff, Pow2(result.exponent + t), 0) && a == steps * Pow2(t - 126)
    modifies result
    ensures Packs(result.Read()) && result.sign == old(result.sign)
    ensures RoundedTo(mode, a, t, result.Read()) && DirectedTo(Away(mode, result.sign), a, t, result.Read())
  {
    result.exponent := result.exponent - 1;
    result.significand := diff / 2;
    HalfDifference(a, diff, result.exponent, t);
    ghost var before := result.Read();
    ghost var moved := result.NormaliseUp();
    result.subnormal := result.exponent < -126;
    ShiftedValue(before.significand, before.exponent, moved, t);
    CancelledRounded(mode, Away(mode, result.sign), a, t, result.Read(), steps);
  }

  lemma HalfDifference(a: nat, diff: nat, e: int, t: nat)
    requires t >= 512 && -512 <= e && 0 < diff < 0x200_0000 && diff % 2 == 0
    requires AlignedSum(a, diff, Pow2(e + 1 + t), 0)
    ensures 0 < diff / 2 <= 0xFF_FFFF && a == (diff / 2) * Pow2(e + t)
  {
    var half := diff / 2;
    assert Pow2(e + 1 + t) == 2 * Pow2(e + t);
    assert diff * (2 * Pow2(e + t)) == 4 * (half * Pow2(e + t)) by { assert diff == 2 * half; }
  }

  lemma ShiftedValue(sig: nat, e: int, moved: nat, t: nat)
    requires t >= 512 && -400 <= e && moved <= 23
    ensures (sig * Pow2(moved)) * Pow2(e - moved + t) == sig * Pow2(e + t)
  {
    Pow2Add(moved, e - moved + t);
    MulAssociates(sig, Pow2(moved), Pow2(e - moved + t));
  }

  lemma CancelledRounded(mode: RoundingMode, away: bool, a: nat, t: nat, v: FloatValue, steps: nat)
    requires t >= 512 && !v.IsSpecial() && v.Normalized() && -400 <= v.exponent <= 126
    requires v.subnormal == (v.exponent < -126)
    requires v.significand * Pow2(v.exponent + t) == a == steps * Pow2(t - 126)
    ensures RoundedTo(mode, a, t, v) && DirectedTo(away, a, t, v)
  {
    if v.subnormal { CancelledIsExact(v.significand, v.exponent, t, steps); }
    ExactRounded(mode, a, t, v);
    ExactDirected(away, a, t, v);
  }

  lemma FarAbove(mode: RoundingMode, v: FloatValue, a: nat, tiny: nat, t: nat)
    requires mode.ToNearest() && t >= 512 && Unflagged(v) && v.Normalized() && -122 <= v.exponent <= 127
    requires 0 < 8 * tiny < Pow2(v.exponent + t) && a == v.significand * Pow2(v.exponent + t) + tiny
    ensures RoundedTo(mode, a, t, v)
  {
    NormalRounding(mode, a, t, v, false, true);
  }

  /** Beyond 26 places the smaller operand cannot move the nearest-rounded result. */
  lemma FarKeeps(mode: RoundingMode, larger: FloatValue, smaller: FloatValue, sub: bool, t: nat, v: FloatValue)
    requires mode.ToNearest() && t >= 512 && Operand(larger) && Operand(smaller)
    requires larger.exponent - smaller.exponent > 26
    requires Unflagged(v) && v.exponent == larger.exponent && v.significand == larger.significand
    ensures Exact(larger, smaller, sub, t) > 0
    ensures RoundedTo(mode, Exact(larger, smaller, sub, t), t, v)
  {
    FarOperands(larger, smaller);
    TinyOperand(smaller, v.exponent, t);
    var a := FarExact(larger, smaller, sub, t);
    if sub {
      FarBelow(mode, v, a, smaller.Scaled(t), t);
    } else {
      FarAbove(mode, v, a, smaller.Scaled(t), t);
    }
  }

  lemma FarExact(larger: FloatValue, smaller: FloatValue, sub: bool, t: nat) returns (a: nat)
    requires t >= 512 && Operand(larger) && Operand(smaller) && 8 * smaller.Scaled(t) < Pow2(larger.exponent + t)
    ensures a == Exact(larger, smaller, sub, t) > 0
    ensures sub ==> a == larger.significand * Pow2(larger.exponent + t) - smaller.Scaled(t)
    ensures !sub ==> a == larger.significand * Pow2(larger.exponent + t) + smaller.Scaled(t)
  {
    MulMonotone(1, larger.significand, Pow2(larger.exponent + t));
    a := Exact(larger, smaller, sub, t);
  }

  lemma FarOperands(larger: FloatValue, smaller: FloatValue)
    requires Operand(larger) && Operand(smaller) && larger.exponent - smaller.exponent > 26
    ensures larger.Normalized() && -122 <= larger.exponent <= 127
  {
  }

  lemma FarBelow(mode: RoundingMode, v: FloatValue, a: nat, tiny: nat, t: nat)
    requires mode.ToNearest() && t >= 512 && Unflagged(v) && v.Normalized() && -122 <= v.exponent <= 127
    requires 0 < 8 * tiny < Pow2(v.exponent + t) && a == v.significand * Pow2(v.exponent + t) - tiny
    ensures RoundedTo(mode, a, t, v)
  {
    var sig, w := v.significand, Pow2(v.exponent + t);
    if sig > 0x80_0000 {
      assert (sig - 1) * w == sig * w - w;
      JustBelow(a, sig - 1, w, tiny);
      NormalRounding(mode, a, t, v.(significand := sig - 1), true, true);
    } else {
      BinadeBelow(mode, v, a, tiny, t);
    }
  }

  lemma JustBelow(a: nat, sig: nat, w: nat, tiny: nat)
    requires 0 < 2 * tiny < w && a == sig * w + w - tiny
    ensures Fraction(a, sig, w, true, true)
  {
  }

  lemma BinadeBelow(mode: RoundingMode, v: FloatValue, a: nat, tiny: nat, t: nat)
    requires mode.ToNearest() && t >= 512 && Unflagged(v) && v.significand == 0x80_0000
    requires -122 <= v.exponent <= 127 && 0 < 8 * tiny < Pow2(v.exponent + t)
    requires a == 0x80_0000 * Pow2(v.exponent + t) - tiny
    ensures RoundedTo(mode, a, t, v)
  {
    var half := Pow2(v.exponent - 1 + t);
    assert Pow2(v.exponent + t) == 2 * half;
    JustBelow(a, 0xFF_FFFF, half, tiny);
    NormalRounding(mode, a, t, v.(significand := 0xFF_FFFF, exponent := v.exponent - 1), true, true);
  }

  /** In a directed mode the larger operand is right beyond 26 places, or it is on the wrong side of
      the exact result. */
  ghost predicate Directs(away: bool, wrong: bool, a: nat, t: nat, v: FloatValue)
    requires t >= 512
  {
    if wrong then Packs(v) && !v.inf && WrongSide(away, a, v.Scaled(t)) else DirectedTo(away, a, t, v)
  }

  lemma FarDirected(away: bool, larger: FloatValue, smaller: FloatValue, sub: bool, t: nat, v: FloatValue)
    requires t >= 512 && Operand(larger) && Operand(smaller)
    requires larger.exponent - smaller.exponent > 26
    requires Unflagged(v) && v.exponent == larger.exponent && v.significand == larger.significand
    ensures Exact(larger, smaller, sub, t) > 0
    ensures Directs(away, sub != away, Exact(larger, smaller, sub, t), t, v)
  {
    var w := Pow2(v.exponent + t);
    TinyOperand(smaller, v.exponent, t);
    MulMonotone(0x80_0000, v.significand, w);
    if sub == away {
      var a: nat := Exact(larger, smaller, sub, t);
      if sub { NextAbove(v, smaller.Scaled(t), t); } else { NextBelow(v, smaller.Scaled(t), t); }
      FiniteDirected(away, a, t, v, v.significand * w);
    }
  }

  lemma NextBelow(v: FloatValue, tiny: nat, t: nat)
    requires t >= 512 && v.Normalized() && -126 <= v.exponent && 0 < 8 * tiny < Pow2(v.exponent + t)
    ensures NextMagnitude(false, v.significand * Pow2(v.exponent + t) + tiny, Pow2(t - 126), v.significand * Pow2(v.exponent + t))
  {
    NormalGap(v.significand, v.exponent, t);
    DirectedOnGrid(false, v.significand * Pow2(v.exponent + t) + tiny, v.significand, Pow2(v.exponent + t), Pow2(t - 126), true);
  }

  /** The operand is the next float above, also at the bottom of its binade. */
  lemma NextAbove(v: FloatValue, tiny: nat, t: nat)
    requires t >= 512 && v.Normalized() && -122 <= v.exponent && 0 < 8 * tiny < Pow2(v.exponent + t)
    requires v.significand * Pow2(v.exponent + t) >= tiny
    ensures NextMagnitude(true, v.significand * Pow2(v.exponent + t) - tiny, Pow2(t - 126), v.significand * Pow2(v.exponent + t))
  {
    var e, sig, w := v.exponent, v.significand, Pow2(v.exponent + t);
    var a: nat := sig * w - tiny;
    if sig > 0x80_0000 {
      assert (sig - 1) * w == sig * w - w;
      NormalGap(sig - 1, e, t);
      DirectedOnGrid(true, a, sig - 1, w, Pow2(t - 126), true);
    } else {
      assert w == 2 * Pow2(e - 1 + t);
      NormalGap(0xFF_FFFF, e - 1, t);
      DirectedOnGrid(true, a, 0xFF_FFFF, Pow2(e - 1 + t), Pow2(t - 126), true);
    }
  }

  lemma TinyOperand(smaller: FloatValue, e: int, t: nat)
    requires t >= 512 && Operand(smaller) && e - smaller.exponent > 26
    ensures 0 < 8 * smaller.Scaled(t) < Pow2(e + t)
  {
    var ws := Pow2(smaller.exponent + t);
    FarPower(smaller.exponent + t, e + t);
    MulStrict(smaller.significand, 0x100_0000, ws);
    MulMonotone(1, smaller.significand, ws);
  }

  lemma FarPower(low: nat, high: nat)
    requires high - low > 26
    ensures 0x800_0000 * Pow2(low) <= Pow2(high)
  {
    SmallPowers();
    Pow2Scale(low, 27, 0x800_0000);
    Pow2Monotone(low + 27, high);
  }

  /** Shifting by at most one place loses nothing. */
  lemma NearAlignment(larger: FloatValue, smaller: FloatValue, d: nat, t: nat)
    requires Operand(larger) && Operand(smaller) && Ordered(larger, smaller) && t >= 512
    requires d == larger.exponent - smaller.exponent <= 1 && Exact(larger, smaller, true, t) >= 0
    ensures var lsig, ssig := larger.significand * 4, smaller.significand * 4 / Pow2(d);
      && 0 <= ssig <= lsig < 0x400_0000 && (lsig - ssig) % 2 == 0
      && AlignedSum(Exact(larger, smaller, true, t), lsig - ssig, Pow2(larger.exponent + t), 0)
  {
    SmallShift(smaller.significand * 4, d);
    NeighbouringPowers(smaller.exponent + t);
    SignificandsAlign(larger.significand, smaller.significand, d, Pow2(larger.exponent + t), Pow2(smaller.exponent + t),
                      smaller.significand * 4 / Pow2(d), Exact(larger, smaller, true, t));
  }

  lemma SignificandsAlign(sigL: nat, sigS: nat, d: nat, wL: nat, wS: nat, ssig: int, a: nat)
    requires 0x80_0000 <= sigL <= 0xFF_FFFF && 0x80_0000 <= sigS <= 0xFF_FFFF && (d == 0 ==> sigS <= sigL) && d <= 1
    requires wL > 0 && wL == (if d == 0 then wS else 2 * wS) && ssig == if d == 0 then sigS * 4 else sigS * 2
    requires a == sigL * wL - sigS * wS
    ensures 0 <= ssig <= sigL * 4 < 0x400_0000 && (sigL * 4 - ssig) % 2 == 0
    ensures AlignedSum(a, sigL * 4 - ssig, wL, 0)
  {
    NearDifference(sigL, sigS, d, wL, wS, ssig);
  }

  lemma NearDifference(sigL: nat, sigS: nat, d: nat, wL: nat, wS: nat, ssig: nat)
    requires d <= 1 && wL == (if d == 0 then wS else 2 * wS) && ssig == if d == 0 then sigS * 4 else sigS * 2
    ensures (sigL * 4 - ssig) * wL == 4 * (sigL * wL - sigS * wS)
  {
    if d == 0 { PlainDifference(sigL, sigS, wS); } else { DoubledDifference(sigL, sigS, wS); }
  }

  lemma PlainDifference(sigL: nat, sigS: nat, w: nat)
    ensures (4 * sigL - 4 * sigS) * w == 4 * (sigL * w - sigS * w)
  {
    assert (4 * sigL - 4 * sigS) * w == 4 * (sigL * w) - 4 * (sigS * w);
  }

  lemma DoubledDifference(sigL: nat, sigS: nat, w: nat)
    ensures (4 * sigL - 2 * sigS) * (2 * w) == 4 * (sigL * (2 * w)) - 4 * (sigS * w)
  {
    assert (4 * sigL - 2 * sigS) * (2 * w) == 8 * (sigL * w) - 4 * (sigS * w);
    assert sigL * (2 * w) == 2 * (sigL * w);
  }

  lemma SmallShift(x: int, d: nat)
    requires d <= 1
    ensures x / Pow2(d) == if d == 0 then x else x / 2
    ensures x % Pow2(d) == if d == 0 then 0 else x % 2
  {
    if d == 0 { assert Pow2(d) == 1; } else { assert Pow2(d) == 2; }
  }

  lemma NearShift(sig: nat, d: nat)
    requires sig <= 0xFF_FFFF && d <= 1
    ensures AlignedBy(Signed(false, sig * 4), d, false, sig * 4 / Pow2(d), false)
  {
    SmallShift(sig * 4, d);
  }

  lemma ExactSteps(larger: FloatValue, smaller: FloatValue, t: nat) returns (steps: nat)
    requires Operand(larger) && Operand(smaller) && t >= 512 && Exact(larger, smaller, true, t) >= 0
    ensures Exact(larger, smaller, true, t) == steps * Pow2(t - 126)
  {
    var l := OperandSteps(larger, t);
    var s := OperandSteps(smaller, t);
    var unit := Pow2(t - 126);
    assert l * unit - s * unit == (l - s) * unit;
    if l < s { MulStrict(l, s, unit); }
    steps := l - s;
  }

  /** The aligned sum and its rest, with the bounds the normalisation relies on. */
  lemma AlignmentRest(larger: FloatValue, smaller: FloatValue, d: nat, sub: bool, t: nat, ssig: nat, aligned: bool)
    returns (rest: nat)
    requires Operand(larger) && Operand(smaller) && t >= 512
    requires d == larger.exponent - smaller.exponent && (sub ==> d >= 2) && Exact(larger, smaller, sub, t) >= 0
    requires AlignedBy(Signed(sub, smaller.significand * 4), d, sub, ssig, aligned)
    ensures var sum := (larger.significand * 4 + ssig) % WORD;
      && AlignedSum(Exact(larger, smaller, sub, t), sum, Pow2(larger.exponent + t), rest)
      && (aligned <==> rest != 0)
      && if sub then 0x100_0000 <= sum < 0x400_0000 else 0x200_0000 <= sum < 0x800_0000
  {
    var sigL, sigS, wS := larger.significand, smaller.significand, Pow2(smaller.exponent + t);
    var q, rem := DivMod(Signed(sub, 4 * sigS), Pow2(d));
    Pow2Add(d, smaller.exponent + t);
    AlignedEquation(sigL, sigS, Pow2(d), wS, sub, q, rem);
    if sub { Pow2Monotone(2, d); assert Pow2(2) == 4; }
    QuotientBounds(sigS, Pow2(d), sub, q, rem);
    rest := rem * wS;
    WordSum(sigL * 4, q);
  }

  lemma WordSum(lsig: nat, q: int)
    requires lsig < 0x400_0000 && 0 <= lsig + q < 0x800_0000
    ensures (lsig + ToWord(q)) % WORD == lsig + q
  {
  }

  /** Adds or subtracts the magnitudes of two ordered operands. */
  method AddOrdered(mode: RoundingMode, larger: FloatValue, smaller: FloatValue, exponentDifference: nat,
                    effectiveSubtract: bool, result: UnpackedFloat, ghost t: nat)
    requires Operand(larger) && Operand(smaller) && Ordered(larger, smaller) && t >= 512
    requires exponentDifference == larger.exponent - smaller.exponent
    requires Unflagged(result.Read()) && result.exponent == larger.exponent
    modifies result
    ensures Exact(larger, smaller, effectiveSubtract, t) >= 0
    ensures Packs(result.Read())
    ensures mode.ToNearest() ==> RoundedTo(mode, Exact(larger, smaller, effectiveSubtract, t), t, result.Read())
    ensures !mode.ToNearest() ==>
      Directs(Away(mode, result.sign), exponentDifference > 26 && effectiveSubtract != Away(mode, result.sign),
              Exact(larger, smaller, effectiveSubtract, t), t, result.Read())
    ensures Exact(larger, smaller, effectiveSubtract, t) == 0 ==> result.zero && result.sign == (mode == RTN)
    ensures Exact(larger, smaller, effectiveSubtract, t) != 0 ==> result.sign == old(result.sign)
    ensures exponentDifference > 26 ==>
      result.Read() == old(result.Read()).(significand := larger.significand, subnormal := larger.subnormal)
  {
    OrderedScaled(larger, smaller, t);
    var ssig := smaller.significand * 4;
    var aligned := false;
    if exponentDifference <= 1 {
      if effectiveSubtract {
        CancelOrdered(mode, larger, smaller, exponentDifference, result, t);
        return;
      }
      NearShift(smaller.significand, exponentDifference);
      ssig := ssig / Pow2(exponentDifference);
    } else if exponentDifference > 26 {
      result.significand := larger.significand;
      result.subnormal := larger.subnormal;
      FarIsNonzero(larger, smaller, effectiveSubtract, t);
      if mode.ToNearest() {
        FarKeeps(mode, larger, smaller, effectiveSubtract, t, result.Read());
      } else {
        FarDirected(Away(mode, result.sign), larger, smaller, effectiveSubtract, t, result.Read());
      }
      return;
    } else {
      ssig, aligned := Align(ssig, exponentDifference, effectiveSubtract);
      FarIsNonzero(larger, smaller, effectiveSubtract, t);
    }
    AddAligned(mode, larger, smaller, exponentDifference, effectiveSubtract,
               larger.significand * 4, ssig, aligned, result, t);
  }

  lemma FarIsNonzero(larger: FloatValue, smaller: FloatValue, sub: bool, t: nat)
    requires Operand(larger) && Operand(smaller) && larger.exponent > smaller.exponent && t >= 512
    ensures Exact(larger, smaller, sub, t) > 0
  {
    OrderedScaled(larger, smaller, t);
    MulMonotone(1, larger.significand, Pow2(larger.exponent + t));
    MulMonotone(1, smaller.significand, Pow2(smaller.exponent + t));
  }

  /** The near path of an effective subtraction. */
  method CancelOrdered(mode: RoundingMode, larger: FloatValue, smaller: FloatValue, exponentDifference: nat,
                       result: UnpackedFloat, ghost t: nat)
    requires Operand(larger) && Operand(smaller) && Ordered(larger, smaller) && t >= 512
    requires exponentDifference == larger.exponent - smaller.exponent <= 1
    requires Exact(larger, smaller, true, t) >= 0
    requires Unflagged(result.Read()) && result.exponent == larger.exponent
    modifies result
    ensures Packs(result.Read())
    ensures mode.ToNearest() ==> RoundedTo(mode, Exact(larger, smaller, true, t), t, result.Read())
    ensures !mode.ToNearest() ==> DirectedTo(Away(mode, result.sign), Exact(larger, smaller, true, t), t, result.Read())
    ensures Exact(larger, smaller, true, t) == 0 ==> result.zero && result.sign == (mode == RTN)
    ensures Exact(larger, smaller, true, t) != 0 ==> result.sign == old(result.sign)
  {
    var lsig := larger.significand * 4;
    var ssig := smaller.significand * 4 / Pow2(exponentDifference);
    NearAlignment(larger, smaller, exponentDifference, t);
    ghost var steps := ExactSteps(larger, smaller, t);
    NearSubtract(mode, lsig, ssig, result, Exact(larger, smaller, true, t), steps, t);
  }

  /** Adds the aligned significands, normalises, and rounds. */
  method AddAligned(mode: RoundingMode, ghost larger: FloatValue, ghost smaller: FloatValue, ghost d: nat,
                    effectiveSubtract: bool, lsig: nat, ssig: nat, aligned: bool, result: UnpackedFloat, ghost t: nat)
    requires Operand(larger) && Operand(smaller) && t >= 512
    requires d == larger.exponent - smaller.exponent && (effectiveSubtract ==> d >= 2)
    requires Exact(larger, smaller, effectiveSubtract, t) > 0 && lsig == larger.significand * 4
    requires AlignedBy(Signed(effectiveSubtract, smaller.significand * 4), d, effectiveSubtract, ssig, aligned)
    requires Unflagged(result.Read()) && result.exponent == larger.exponent
    modifies result
    ensures Packs(result.Read())
    ensures mode.ToNearest() ==> RoundedTo(mode, Exact(larger, smaller, effectiveSubtract, t), t, result.Read())
    ensures !mode.ToNearest() ==>
      DirectedTo(Away(mode, result.sign), Exact(larger, smaller, effectiveSubtract, t), t, result.Read())
    ensures result.sign == old(result.sign)
  {
    ghost var a: nat := Exact(larger, smaller, effectiveSubtract, t);
    ghost var rest := AlignmentRest(larger, smaller, d, effectiveSubtract, t, ssig, aligned);
    var sum := (lsig + ssig) % WORD;
    var normal := NormaliseSum(sum, effectiveSubtract, result, a, rest, t);
    Extract(mode, normal, aligned, result, a, 2 * rest, t);
  }

  // ---------- Signs and special cases ----------

  /** The exact signed sum of uf and (for a subtraction, negated) ug, in units of 2^-(23+t). */
  ghost function ExactSum(isAdd: bool, uf: FloatValue, ug: FloatValue, t: nat): int
    requires t >= 512 && -512 <= uf.exponent && -512 <= ug.exponent
  {
    Signed(uf.sign, uf.Scaled(t)) + Signed(ug.sign != !isAdd, ug.Scaled(t))
  }

  /** v can be packed, has the sign of the exact sum x, and in the nearest modes the nearest magnitude. */
  ghost predicate RoundedSum(mode: RoundingMode, x: int, t: nat, v: FloatValue)
    requires t >= 512
  {
    && Packs(v)
    && (mode.ToNearest() ==> RoundedTo(mode, Abs(x), t, v))
    && (x != 0 ==> v.sign == (x < 0))
  }

  lemma SignedSum(signL: bool, signS: bool, l: nat, s: nat)
    requires l >= s
    ensures Signed(signL, l) + Signed(signS, s) ==
      Signed(signL, if signL != signS then l - s else l + s)
  {
  }

  /** The same in a directed mode; wrong says that the larger operand is returned on the wrong side. */
  ghost predicate DirectedSum(mode: RoundingMode, x: int, wrong: bool, t: nat, v: FloatValue)
    requires t >= 512
  {
    Directs(Away(mode, v.sign), wrong, Abs(x), t, v)
  }

  /** The exponents are more than 26 apart and the smaller operand would move the result in the
      direction of the mode. */
  predicate LeftUnrounded(isAdd: bool, mode: RoundingMode, uf: FloatValue, ug: FloatValue) {
    var negative := ug.sign == isAdd;
    if uf.exponent - ug.exponent > 26 then (uf.sign != negative) != Away(mode, uf.sign)
    else ug.exponent - uf.exponent > 26 && (negative != uf.sign) != Away(mode, negative)
  }

  predicate Precedes(uf: FloatValue, ug: FloatValue) {
    uf.exponent > ug.exponent || (uf.exponent == ug.exponent && uf.significand > ug.significand)
  }

  /** Ordering the operands first does not change the exact signed sum. */
  lemma SumOfOrdered(isAdd: bool, uf: FloatValue, ug: FloatValue, t: nat)
    requires Operand(uf) && Operand(ug) && t >= 512
    ensures var first := Precedes(uf, ug);
      var larger, smaller := if first then uf else ug, if first then ug else uf;
      var sign := if first then uf.sign else ug.sign == isAdd;
      var sub := (larger.sign != !isAdd) != smaller.sign;
      && Exact(larger, smaller, sub, t) >= 0
      && ExactSum(isAdd, uf, ug, t) == Signed(sign, Exact(larger, smaller, sub, t))
  {
    if Precedes(uf, ug) {
      OrderedScaled(uf, ug, t);
      SignedSum(uf.sign, ug.sign == isAdd, uf.Scaled(t), ug.Scaled(t));
    } else {
      OrderedScaled(ug, uf, t);
      SignedSum(ug.sign == isAdd, uf.sign, ug.Scaled(t), uf.Scaled(t));
    }
  }

  /** What the ordered addition delivers, in terms of the operands as they came. */
  lemma OrderedDelivers(isAdd: bool, mode: RoundingMode, uf: FloatValue, ug: FloatValue, larger: FloatValue, smaller: FloatValue,
                        sign: bool, sub: bool, t: nat, v: FloatValue)
    requires Operand(uf) && Operand(ug) && t >= 512
    requires larger == (if Precedes(uf, ug) then uf else ug) && smaller == (if Precedes(uf, ug) then ug else uf)
    requires sign == (if Precedes(uf, ug) then uf.sign else ug.sign == isAdd) && sub == ((larger.sign != !isAdd) != smaller.sign)
    requires Exact(larger, smaller, sub, t) >= 0 && Packs(v)
    requires mode.ToNearest() ==> RoundedTo(mode, Exact(larger, smaller, sub, t), t, v)
    requires !mode.ToNearest() ==>
      Directs(Away(mode, v.sign), larger.exponent - smaller.exponent > 26 && sub != Away(mode, v.sign), Exact(larger, smaller, sub, t), t, v)
    requires if Exact(larger, smaller, sub, t) == 0 then v.zero && v.sign == (mode == RTN) else v.sign == sign
    ensures RoundedSum(mode, ExactSum(isAdd, uf, ug, t), t, v)
    ensures !mode.ToNearest() ==> DirectedSum(mode, ExactSum(isAdd, uf, ug, t), LeftUnrounded(isAdd, mode, uf, ug), t, v)
    ensures ExactSum(isAdd, uf, ug, t) == 0 ==> v.zero && v.sign == (mode == RTN)
  {
    SumOfOrdered(isAdd, uf, ug, t);
    var a: nat := Exact(larger, smaller, sub, t);
    var x := ExactSum(isAdd, uf, ug, t);
    assert x == Signed(sign, a) && Abs(x) == a;
    if larger.exponent - smaller.exponent > 26 {
      FarIsNonzero(larger, smaller, sub, t);
      FarWrong(isAdd, mode, uf, ug, sign, sub);
    } else {
      assert !LeftUnrounded(isAdd, mode, uf, ug);
    }
  }

  lemma FarWrong(isAdd: bool, mode: RoundingMode, uf: FloatValue, ug: FloatValue, sign: bool, sub: bool)
    requires uf.exponent - ug.exponent > 26 || ug.exponent - uf.exponent > 26
    requires sign == if Precedes(uf, ug) then uf.sign else ug.sign == isAdd
    requires sub == if Precedes(uf, ug) then (uf.sign != !isAdd) != ug.sign else (ug.sign != !isAdd) != uf.sign
    ensures LeftUnrounded(isAdd, mode, uf, ug) <==> sub != Away(mode, sign)
  {
  }

  method DualPathAdder(isAdd: bool, mode: RoundingMode, uf: FloatValue, ug: FloatValue, result: UnpackedFloat, ghost t: nat)
    requires Operand(uf) && Operand(ug) && t >= 512
    modifies result
    ensures RoundedSum(mode, ExactSum(isAdd, uf, ug, t), t, result.Read())
    ensures !mode.ToNearest() ==>
      DirectedSum(mode, ExactSum(isAdd, uf, ug, t), LeftUnrounded(isAdd, mode, uf, ug), t, result.Read())
    ensures ExactSum(isAdd, uf, ug, t) == 0 ==> result.zero && result.sign == (mode == RTN)
  {
    var larger, smaller, exponentDifference, effectiveSubtract := OrderOperands(isAdd, uf, ug, result);
    ghost var sign := result.sign;
    AddOrdered(mode, larger, smaller, exponentDifference, effectiveSubtract, result, t);
    OrderedDelivers(isAdd, mode, uf, ug, larger, smaller, sign, effectiveSubtract, t, result.Read());
  }

  /** Clears the flags, orders the operands by magnitude and sets the sign and exponent to start from. */
  method OrderOperands(isAdd: bool, uf: FloatValue, ug: FloatValue, result: UnpackedFloat)
    returns (larger: FloatValue, smaller: FloatValue, exponentDifference: int, effectiveSubtract: bool)
    modifies result
    ensures larger == (if Precedes(uf, ug) then uf else ug) && smaller == (if Precedes(uf, ug) then ug else uf)
    ensures Ordered(larger, smaller) && exponentDifference == larger.exponent - smaller.exponent
    ensures Unflagged(result.Read()) && result.exponent == larger.exponent
    ensures result.sign == if Precedes(uf, ug) then uf.sign else ug.sign == isAdd
    ensures effectiveSubtract == ((larger.sign != !isAdd) != smaller.sign)
  {
    result.nan, result.inf, result.zero, result.subnormal := false, false, false, false;
    larger, smaller := ug, uf;
    exponentDifference := uf.exponent - ug.exponent;
    if exponentDifference > 0 || (exponentDifference == 0 && uf.significand > ug.significand) {
      larger, smaller := uf, ug;
      result.sign := larger.sign;
    } else {
      exponentDifference := -exponentDifference;
      result.sign := if isAdd then larger.sign else !larger.sign;
    }
    result.exponent := larger.exponent;
    effectiveSubtract := (larger.sign != !isAdd) != smaller.sign;
  }

  /** A finite operand of the unit: zero or a nonzero operand. */
  predicate FiniteChecked(v: FloatValue) {
    v.Checked() && !v.nan && !v.inf
  }

  /** What the unit delivers, special operands first. */
  ghost predicate UnitResult(isAdd: bool, mode: RoundingMode, uf: FloatValue, ug: FloatValue, t: nat, v: FloatValue)
    requires uf.Checked() && ug.Checked() && t >= 512
  {
    if uf.nan || ug.nan then v.nan && v.Packable()
    else if uf.inf && ug.inf then
      v.Packable() && if (uf.sign == ug.sign) == isAdd then v.inf && v.sign == uf.sign else v.nan
    else if uf.inf || ug.inf then
      v.Packable() && v.inf && v.sign == if uf.inf then uf.sign else ug.sign == isAdd
    else
      && RoundedSum(mode, ExactSum(isAdd, uf, ug, t), t, v)
      && (!mode.ToNearest() ==> DirectedSum(mode, ExactSum(isAdd, uf, ug, t), UnitLeavesUnrounded(isAdd, mode, uf, ug), t, v))
      && (ExactSum(isAdd, uf, ug, t) == 0 ==> v.zero && v.sign == UnitZeroSign(isAdd, mode, uf, ug))
  }

  predicate UnitLeavesUnrounded(isAdd: bool, mode: RoundingMode, uf: FloatValue, ug: FloatValue) {
    !uf.zero && !ug.zero && LeftUnrounded(isAdd, mode, uf, ug)
  }

  predicate UnitZeroSign(isAdd: bool, mode: RoundingMode, uf: FloatValue, ug: FloatValue) {
    if uf.zero && ug.zero then
      if mode == RTN then uf.sign && (ug.sign == isAdd) else uf.sign || (ug.sign == isAdd)
    else mode == RTN
  }

  method AddUnit(isAdd: bool, mode: RoundingMode, uf: FloatValue, ug: FloatValue, result: UnpackedFloat, ghost t: nat)
    requires uf.Checked() && ug.Checked() && t >= 512
    modifies result
    ensures UnitResult(isAdd, mode, uf, ug, t, result.Read())
  {
    if uf.nan || ug.nan {
      result.MakeNaN();
    } else if uf.inf {
      if ug.inf && (if isAdd then uf.sign != ug.sign else uf.sign == ug.sign) {
        result.MakeNaN();
      } else {
        result.MakeInf();
        result.sign := uf.sign;
      }
    } else if ug.inf {
      result.MakeInf();
      result.sign := if isAdd then ug.sign else !ug.sign;
    } else if uf.zero || ug.zero {
      AddZero(isAdd, mode, uf, ug, result, t);
    } else {
      DualPathAdder(isAdd, mode, uf, ug, result, t);
    }
  }

  /** At least one operand is zero. */
  method AddZero(isAdd: bool, mode: RoundingMode, uf: FloatValue, ug: FloatValue, result: UnpackedFloat, ghost t: nat)
    requires FiniteChecked(uf) && FiniteChecked(ug) && (uf.zero || ug.zero) && t >= 512
    modifies result
    ensures UnitResult(isAdd, mode, uf, ug, t, result.Read())
  {
    if uf.zero {
      if ug.zero {
        result.MakeZero();
        var flip := !isAdd;
        result.sign := if mode == RTN then uf.sign && (flip != ug.sign) else uf.sign || (flip != ug.sign);
      } else {
        result.Assign(ug);
        result.sign := if isAdd then result.sign else !result.sign;
      }
    } else {
      result.Assign(uf);
    }
    ZeroOperandDelivers(isAdd, mode, uf, ug, t, result.Read());
  }

  lemma ZeroOperandDelivers(isAdd: bool, mode: RoundingMode, uf: FloatValue, ug: FloatValue, t: nat, v: FloatValue)
    requires FiniteChecked(uf) && FiniteChecked(ug) && (uf.zero || ug.zero) && t >= 512
    requires v == if uf.zero && ug.zero then uf.(sign := UnitZeroSign(isAdd, mode, uf, ug))
                  else if uf.zero then ug.(sign := ug.sign == isAdd) else uf
    ensures UnitResult(isAdd, mode, uf, ug, t, v)
  {
    SingleOperand(mode, v, t);
    assert ExactSum(isAdd, uf, ug, t) == Signed(v.sign, v.Scaled(t));
  }

  /** Adding a zero leaves the other operand, which is its own rounding. */
  lemma SingleOperand(mode: RoundingMode, v: FloatValue, t: nat)
    requires FiniteChecked(v) && t >= 512
    ensures RoundedSum(mode, Signed(v.sign, v.Scaled(t)), t, v)
    ensures DirectedSum(mode, Signed(v.sign, v.Scaled(t)), false, t, v)
    ensures v.Scaled(t) == 0 <==> v.zero
  {
    if !v.zero { MulMonotone(1, v.significand, Pow2(v.exponent + t)); }
    ExactRounded(mode, v.Scaled(t), t, v);
    ExactDirected(Away(mode, v.sign), v.Scaled(t), t, v);
  }

  // ---------- add and sub ----------

  lemma EvenDigitPacked(r: Float, v: FloatValue)
    requires PackedFrom(v, r) && !v.nan && !v.inf
    ensures v.EvenDigit() <==> r.significand % 2 == 0
  {
    if v.subnormal { DivUnique(v.significand, Pow2(v.Denormal()), r.significand, 0); }
  }

  lemma OverflowScales(x: int, unit: nat)
    requires unit > 0
    ensures Overflows(Abs(x) * unit, unit) <==> Overflows(x, 1)
  {
    var l, r := 2 * Abs(x), 0x1FF_FFFF * Pow2(MAX_FINITE_EXPONENT - 1);
    assert 0x1FF_FFFF * (Pow2(MAX_FINITE_EXPONENT - 1) * unit) == r * unit;
    assert 2 * (Abs(x) * unit) == l * unit;
    if l >= r { MulMonotone(r, l, unit); } else { MulStrict(l, r, unit); }
  }

  /** What packing produced is the correctly rounded sum of the encodings. */
  lemma PackedSum(mode: RoundingMode, x: int, scaled: int, t: nat, v: FloatValue, r: Float)
    requires mode.ToNearest() && t >= 512 && scaled == x * Pow2(t - 126)
    requires RoundedSum(mode, scaled, t, v) && PackedFrom(v, r)
    ensures Rounded(mode, x, r)
  {
    var unit := Pow2(t - 126);
    OverflowScales(x, unit);
    AbsScales(x, unit);
    if !v.inf {
      ScaledRepresents(r, v, t);
      EvenDigitPacked(r, v);
      SignedRounding(mode, x, unit, r);
    }
  }

  lemma ExceedsScales(a: nat, unit: nat)
    requires unit > 0
    ensures ExceedsFinite(a * unit, unit) <==> ExceedsFinite(a, 1)
  {
    var top := 0xFF_FFFF * Pow2(MAX_FINITE_EXPONENT - 1);
    assert 0xFF_FFFF * (Pow2(MAX_FINITE_EXPONENT - 1) * unit) == top * unit;
    ScaledOrder(top, a, unit);
  }

  /** In a directed mode packing keeps a right result right and a wrong one wrong. */
  lemma PackedDirected(mode: RoundingMode, x: int, scaled: int, wrong: bool, t: nat, v: FloatValue, r: Float)
    requires !mode.ToNearest() && t >= 512 && scaled == x * Pow2(t - 126) && (wrong ==> scaled != 0)
    requires (scaled != 0 ==> v.sign == (scaled < 0)) && DirectedSum(mode, scaled, wrong, t, v) && PackedFrom(v, r)
    ensures Rounded(mode, x, r) <==> !wrong
  {
    var unit := Pow2(t - 126);
    AbsScales(x, unit);
    if v.inf {
      ExceedsScales(Abs(x), unit);
      InfiniteDirected(mode, x, r);
    } else {
      ScaledRepresents(r, v, t);
      if wrong {
        WrongUnscaled(Away(mode, v.sign), Abs(x), unit, Magnitude(r));
        WrongSideFails(mode, x, r);
      } else {
        UnscaledNext(Away(mode, v.sign), Abs(x), unit, Magnitude(r));
        SignedDirected(mode, x, r);
      }
    }
  }

  lemma WrongUnscaled(away: bool, a: nat, unit: nat, m: nat)
    requires unit > 0 && WrongSide(away, a * unit, m * unit)
    ensures WrongSide(away, a, m)
  {
    ScaledOrder(a, m, unit);
    ScaledOrder(m, a, unit);
  }

  lemma AbsScales(x: int, unit: nat)
    requires unit > 0
    ensures Abs(x * unit) == Abs(x) * unit
    ensures x * unit < 0 <==> x < 0
    ensures x * unit == 0 <==> x == 0
  {
    if x > 0 { MulStrict(0, x, unit); }
    if x < 0 { MulStrict(x, 0, unit); }
  }

  lemma SignedScaled(f: Float, v: FloatValue, negative: bool, t: nat)
    requires t >= 512 && f.IsFinite() && Represents(f, v)
    ensures Signed(negative, v.Scaled(t)) == Signed(negative, Magnitude(f)) * Pow2(t - 126)
  {
    ScaledRepresents(f, v, t);
    SignedProduct(negative, Magnitude(f), Pow2(t - 126));
  }

  lemma SignedProduct(negative: bool, m: nat, unit: nat)
    ensures Signed(negative, m) * unit == Signed(negative, m * unit)
  {
  }

  function Effective(isAdd: bool, g: Float): Float {
    if isAdd then g else Negated(g)
  }

  lemma ExactSumValue(isAdd: bool, f: Float, g: Float, uf: FloatValue, ug: FloatValue, t: nat)
    requires t >= 512 && f.IsFinite() && g.IsFinite() && Represents(f, uf) && Represents(g, ug)
    ensures ExactSum(isAdd, uf, ug, t) == (Value(f) + Value(Effective(isAdd, g))) * Pow2(t - 126)
  {
    SignedScaled(f, uf, f.sign, t);
    SignedScaled(g, ug, g.sign == isAdd, t);
    assert Value(f) == Signed(f.sign, Magnitude(f));
    assert Value(Effective(isAdd, g)) == Signed(g.sign == isAdd, Magnitude(g));
    SumFactor(Value(f), Value(Effective(isAdd, g)), Pow2(t - 126));
  }

  lemma SumFactor(x: int, y: int, unit: int)
    ensures x * unit + y * unit == (x + y) * unit
  {
  }

  /** The unit's zero has the sign the standard asks for except when both operands are zeros of
      opposite (effective) signs. */
  lemma UnitZero(isAdd: bool, mode: RoundingMode, f: Float, g: Float, uf: FloatValue, ug: FloatValue,
                 v: FloatValue, r: Float, t: nat)
    requires t >= 512 && Represents(f, uf) && Represents(g, ug) && f.IsFinite() && g.IsFinite()
    requires v.zero && v.sign == UnitZeroSign(isAdd, mode, uf, ug) && PackedFrom(v, r)
    requires Value(f) + Value(Effective(isAdd, g)) == 0
    ensures ZeroSignConforms(mode, f, Effective(isAdd, g), r) <==>
      !(f.IsZero() && g.IsZero() && f.sign != Effective(isAdd, g).sign)
  {
    MagnitudeZero(f);
    MagnitudeZero(g);
  }

  lemma MagnitudeZero(f: Float)
    requires f.IsFinite()
    ensures Magnitude(f) == 0 <==> f.IsZero()
  {
    if f.exponent > 0 { MulMonotone(1, 0x80_0000 + f.significand, Pow2(f.exponent - 1)); }
  }

  /** The number of binary digits. */
  function BitLength(n: nat): nat {
    if n == 0 then 0 else 1 + BitLength(n / 2)
  }

  /** The exponent of the leading digit of a nonzero finite number. */
  function Exponent(f: Float): int {
    if f.exponent > 0 then f.exponent - BIAS else BitLength(f.significand) - 150
  }

  lemma {:induction false} BitLengthUnique(n: nat, b: nat)
    requires b >= 1 && Pow2(b - 1) <= n < Pow2(b)
    ensures BitLength(n) == b
  {
    if b == 1 {
      assert Pow2(0) == 1 && Pow2(1) == 2;
    } else {
      assert Pow2(b) == 2 * Pow2(b - 1) && Pow2(b - 1) == 2 * Pow2(b - 2);
      BitLengthUnique(n / 2, b - 1);
    }
  }

  lemma ExponentMatches(f: Float, v: FloatValue)
    requires Represents(f, v) && Operand(v)
    ensures Exponent(f) == v.exponent
  {
    if v.subnormal {
      var k := v.Denormal();
      var s := f.significand;
      SmallPowers();
      Pow2Add(23 - k, k);
      Pow2Add(24 - k, k);
      ScaledOrder(Pow2(23 - k), s, Pow2(k));
      ScaledOrder(s, Pow2(24 - k), Pow2(k));
      BitLengthUnique(s, 24 - k);
    }
  }

  /** The exponents are more than 26 apart, so that the larger operand is returned as it is, and the
      smaller one would have moved the result in the direction of the mode. */
  predicate Unrounded(mode: RoundingMode, f: Float, g: Float) {
    && f.IsFinite() && g.IsFinite() && !f.IsZero() && !g.IsZero()
    && if Exponent(f) - Exponent(g) > 26 then MovesAlong(mode, f, g)
       else Exponent(g) - Exponent(f) > 26 && MovesAlong(mode, g, f)
  }

  predicate MovesAlong(mode: RoundingMode, large: Float, small: Float) {
    match mode
    case RTP => !small.sign
    case RTN => small.sign
    case RTZ => small.sign != large.sign
    case _ => false
  }

  /** 1 + 2^-27 rounded toward positive must lie above 1, which is what the adder returns. */
  lemma DirectedFails()
    ensures var one, tiny: Float := Packed(false, 127, 0), Packed(false, 100, 0);
      Unrounded(RTP, one, tiny) && !IsSum(RTP, one, tiny, one)
  {
    FirstOperandFails(Packed(false, 127, 0), Packed(false, 100, 0));
  }

  /** The first of two positive operands is too small for a sum that is rounded toward positive. */
  lemma FirstOperandFails(f: Float, g: Float)
    requires f.IsFinite() && g.IsFinite() && !f.sign && !g.sign && !g.IsZero()
    ensures !IsSum(RTP, f, g, f)
  {
    MagnitudeZero(g);
    WrongSideFails(RTP, Value(f) + Value(g), f);
  }

  lemma UnroundedMatches(isAdd: bool, mode: RoundingMode, f: Float, g: Float, uf: FloatValue, ug: FloatValue)
    requires !mode.ToNearest() && f.IsFinite() && g.IsFinite() && Represents(f, uf) && Represents(g, ug)
    ensures UnitLeavesUnrounded(isAdd, mode, uf, ug) <==> Unrounded(mode, f, Effective(isAdd, g))
  {
    if !uf.zero && !ug.zero {
      ExponentMatches(f, uf);
      ExponentMatches(g, ug);
    }
  }

  /** What add delivers on f and g: the rounded sum except when a directed mode leaves it unrounded, and
      the standard's zero except when the operands are two zeros of opposite signs. */
  ghost predicate DeliversSum(mode: RoundingMode, f: Float, g: Float, r: Float) {
    && (IsSum(mode, f, g, r) <==> !Unrounded(mode, f, g))
    && (f.IsFinite() && g.IsFinite() && Value(f) + Value(g) == 0 ==>
        (ZeroSignConforms(mode, f, g, r) <==> !(f.IsZero() && g.IsZero() && f.sign != g.sign)))
  }

  /** An exact zero is rounded to a zero. */
  lemma ZeroIsRounded(mode: RoundingMode, r: Float)
    requires Rounded(mode, 0, r)
    ensures r.IsZero()
  {
    var zero: Float := Packed(false, 0, 0);
    MagnitudeZero(zero);
    assert Value(zero) == 0 && zero.IsFinite();
    if mode.ToNearest() {
      assert NoBetter(mode, 0, Value(r) * 1, r.significand % 2 == 0, Value(zero) * 1);
    } else if mode == RTZ {
      assert NotBetween(false, Abs(0), Magnitude(r), Magnitude(zero) * 1);
    }
    assert Value(r) == 0;
    MagnitudeZero(r);
  }

  /** (+0) + (-0) is given the opposite of the sign that section 6.3 of IEEE 754-2008 asks for, in every mode. */
  lemma ZeroSignFails(mode: RoundingMode, r: Float)
    requires DeliversSum(mode, Packed(false, 0, 0), Packed(true, 0, 0), r)
    ensures r.IsZero() && r.sign == (mode != RTN) && !ZeroSignConforms(mode, Packed(false, 0, 0), Packed(true, 0, 0), r)
  {
    var plus: Float, minus: Float := Packed(false, 0, 0), Packed(true, 0, 0);
    MagnitudeZero(plus);
    MagnitudeZero(minus);
    assert Value(plus) + Value(minus) == 0;
    assert IsSum(mode, plus, minus, r) && Rounded(mode, 0, r);
    ZeroIsRounded(mode, r);
  }

  lemma NearestIsRounded(mode: RoundingMode, f: Float, g: Float)
    requires mode.ToNearest()
    ensures !Unrounded(mode, f, g)
  {
  }

  /** Finite operands: the packed result against the exact sum. */
  lemma FiniteDelivers(isAdd: bool, mode: RoundingMode, f: Float, g: Float, uf: FloatValue, ug: FloatValue,
                       v: FloatValue, r: Float, t: nat)
    requires t >= 512 && Represents(f, uf) && Represents(g, ug) && f.IsFinite() && g.IsFinite()
    requires UnitResult(isAdd, mode, uf, ug, t, v) && PackedFrom(v, r)
    ensures Rounded(mode, Value(f) + Value(Effective(isAdd, g)), r) <==> !Unrounded(mode, f, Effective(isAdd, g))
  {
    var x := Value(f) + Value(Effective(isAdd, g));
    var scaled := ExactSum(isAdd, uf, ug, t);
    ExactSumValue(isAdd, f, g, uf, ug, t);
    if mode.ToNearest() {
      PackedSum(mode, x, scaled, t, v, r);
      NearestIsRounded(mode, f, Effective(isAdd, g));
    } else {
      var wrong := UnitLeavesUnrounded(isAdd, mode, uf, ug);
      UnroundedMatches(isAdd, mode, f, g, uf, ug);
      if wrong { UnroundedIsNonzero(isAdd, mode, uf, ug, t); }
      PackedDirected(mode, x, scaled, wrong, t, v, r);
    }
  }

  lemma UnroundedIsNonzero(isAdd: bool, mode: RoundingMode, uf: FloatValue, ug: FloatValue, t: nat)
    requires Operand(uf) && Operand(ug) && t >= 512 && LeftUnrounded(isAdd, mode, uf, ug)
    ensures ExactSum(isAdd, uf, ug, t) != 0
  {
    SumOfOrdered(isAdd, uf, ug, t);
    if Precedes(uf, ug) {
      FarIsNonzero(uf, ug, (uf.sign != !isAdd) != ug.sign, t);
    } else {
      FarIsNonzero(ug, uf, (ug.sign != !isAdd) != uf.sign, t);
    }
  }

  lemma ZeroDelivers(isAdd: bool, mode: RoundingMode, f: Float, g: Float, uf: FloatValue, ug: FloatValue,
                     v: FloatValue, r: Float, t: nat)
    requires t >= 512 && Represents(f, uf) && Represents(g, ug) && f.IsFinite() && g.IsFinite()
    requires UnitResult(isAdd, mode, uf, ug, t, v) && PackedFrom(v, r)
    ensures Value(f) + Value(Effective(isAdd, g)) == 0 ==>
      (ZeroSignConforms(mode, f, Effective(isAdd, g), r) <==> !(f.IsZero() && g.IsZero() && f.sign != Effective(isAdd, g).sign))
  {
    var x := Value(f) + Value(Effective(isAdd, g));
    ExactSumValue(isAdd, f, g, uf, ug, t);
    AbsScales(x, Pow2(t - 126));
    if x == 0 {
      assert v.zero && v.sign == UnitZeroSign(isAdd, mode, uf, ug);
      UnitZero(isAdd, mode, f, g, uf, ug, v, r, t);
    }
  }

  lemma FiniteSum(mode: RoundingMode, f: Float, g: Float, r: Float)
    requires f.IsFinite() && g.IsFinite()
    ensures IsSum(mode, f, g, r) <==> Rounded(mode, Value(f) + Value(g), r)
  {
  }

  lemma SpecialDelivers(isAdd: bool, mode: RoundingMode, f: Float, g: Float, uf: FloatValue, ug: FloatValue,
                        v: FloatValue, r: Float, t: nat)
    requires t >= 512 && Represents(f, uf) && Represents(g, ug) && !(f.IsFinite() && g.IsFinite())
    requires UnitResult(isAdd, mode, uf, ug, t, v) && PackedFrom(v, r)
    ensures IsSum(mode, f, Effective(isAdd, g), r) && !Unrounded(mode, f, Effective(isAdd, g))
  {
  }

  lemma UnitDelivers(isAdd: bool, mode: RoundingMode, f: Float, g: Float, uf: FloatValue, ug: FloatValue,
                     v: FloatValue, r: Float, t: nat)
    requires t >= 512 && Represents(f, uf) && Represents(g, ug)
    requires UnitResult(isAdd, mode, uf, ug, t, v) && PackedFrom(v, r)
    ensures DeliversSum(mode, f, Effective(isAdd, g), r)
  {
    if f.IsFinite() && g.IsFinite() {
      FiniteDelivers(isAdd, mode, f, g, uf, ug, v, r, t);
      ZeroDelivers(isAdd, mode, f, g, uf, ug, v, r, t);
      FiniteSum(mode, f, Effective(isAdd, g), r);
    } else {
      SpecialDelivers(isAdd, mode, f, g, uf, ug, v, r, t);
    }
  }

  method Add(mode: RoundingMode, f: Float, g: Float) returns (r: Float)
    ensures DeliversSum(mode, f, g, r)
  {
    var uf := UnpackFloat(f);
    var ug := UnpackFloat(g);
    var result := new UnpackedFloat();
    ghost var t: nat :| t >= 512;
    AddUnit(true, mode, uf, ug, result, t);
    r := Pack(result.Read());
    UnitDelivers(true, mode, f, g, uf, ug, result.Read(), r, t);
  }

  method Sub(mode: RoundingMode, f: Float, g: Float) returns (r: Float)
    ensures DeliversSum(mode, f, Negated(g), r)
  {
    var uf := UnpackFloat(f);
    var ug := UnpackFloat(g);
    var result := new UnpackedFloat();
    ghost var t: nat :| t >= 512;
    AddUnit(false, mode, uf, ug, result, t);
    r := Pack(result.Read());
    UnitDelivers(false, mode, f, g, uf, ug, result.Read(), r, t);
  }
}
