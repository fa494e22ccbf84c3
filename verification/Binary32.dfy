/** The IEEE 754-2008 binary32 encoding (section 3.4), the exact value of an encoding, and what
    a correctly rounded result is (section 4.3.1), stated against all encodings. */
module Binary32 {
  import opened Powers

  datatype Packed = Packed(sign: bool, exponent: nat, significand: nat) {
    predicate IsNaN() { exponent == 0xFF && significand != 0 }
    predicate IsInf() { exponent == 0xFF && significand == 0 }
    predicate IsFinite() { exponent < 0xFF }
    predicate IsZero() { exponent == 0 && significand == 0 }
  }

  type Float = f: Packed | f.exponent <= 0xFF && f.significand <= 0x7F_FFFF witness Packed(false, 0, 0)

  /** |f| in units of 2^-149, the spacing of the subnormal numbers. */
  function Magnitude(f: Float): nat {
    if f.exponent == 0 then f.significand
    else (0x80_0000 + f.significand) * Pow2(f.exponent - 1)
  }

  function Value(f: Float): int {
    var m: int := Magnitude(f);
    if f.sign then -m else m
  }

  function Abs(x: int): nat {
    if x < 0 then -x else x
  }

  datatype RoundingMode = RNE | RNA | RTP | RTN | RTZ {
    predicate ToNearest() { RNE? || RNA? }
  }

  /** |x| is at least the largest finite number plus half its ulp; x counts units of 2^-149/unit. */
  ghost predicate Overflows(x: int, unit: nat) {
    2 * Abs(x) >= 0x1FF_FFFF * (Pow2(MAX_FINITE_EXPONENT - 1) * unit)
  }

  const MAX_FINITE_EXPONENT: nat := 254

  /** Among equally near candidates: an even least significant digit, or the larger magnitude. */
  predicate TieBreak(mode: RoundingMode, even: bool, larger: bool) {
    match mode
    case RNE => even
    case RNA => larger
    case _ => true
  }

  /** r is what a round-to-nearest mode must deliver for the exact result x (in 2^-149/unit). */
  ghost predicate CorrectlyRounded(mode: RoundingMode, x: int, unit: nat, r: Float) {
    if Overflows(x, unit) then r.IsInf() && (r.sign <==> x < 0)
    else
      && r.IsFinite()
      && (forall g: Float :: g.IsFinite() ==>
          NoBetter(mode, x, Value(r) * unit, r.significand % 2 == 0, Value(g) * unit))
  }

  ghost predicate NoBetter(mode: RoundingMode, x: int, r: int, even: bool, g: int) {
    && Abs(x - r) <= Abs(x - g)
    && (Abs(x - r) == Abs(x - g) && r != g ==> TieBreak(mode, even, Abs(r) > Abs(g)))
  }

  /** The same on magnitudes: m is the nearest magnitude to a. */
  ghost predicate NearestMagnitude(mode: RoundingMode, a: nat, unit: nat, m: nat, even: bool) {
    forall g: Float :: g.IsFinite() ==> NoBetter(mode, a, m, even, Magnitude(g) * unit)
  }

  ghost predicate NoFloatBetween(lo: nat, hi: nat, unit: nat) {
    forall g: Float :: g.IsFinite() ==> Magnitude(g) * unit <= lo || Magnitude(g) * unit >= hi
  }

  // ---------- Directed rounding ----------

  /** Whether the mode rounds magnitudes of that sign up. */
  predicate Away(mode: RoundingMode, sign: bool) {
    (mode == RTP && !sign) || (mode == RTN && sign)
  }

  /** What section 4.3 of IEEE 754-2008 asks of every mode for the exact result x. */
  ghost predicate Rounded(mode: RoundingMode, x: int, r: Float) {
    match mode
    case RTP =>
      if exists g: Float :: g.IsFinite() && Value(g) >= x then r.IsFinite() && LeastAbove(x, Value(r))
      else r.IsInf() && !r.sign
    case RTN =>
      if exists g: Float :: g.IsFinite() && Value(g) <= x then r.IsFinite() && GreatestBelow(x, Value(r))
      else r.IsInf() && r.sign
    case RTZ =>
      && r.IsFinite() && NextMagnitude(false, Abs(x), 1, Magnitude(r))
      && (Value(r) != 0 ==> (Value(r) < 0 <==> x < 0))
    case _ => CorrectlyRounded(mode, x, 1, r)
  }

  ghost predicate LeastAbove(x: int, v: int) {
    v >= x && forall g: Float :: g.IsFinite() && Value(g) >= x ==> Value(g) >= v
  }

  ghost predicate GreatestBelow(x: int, v: int) {
    v <= x && forall g: Float :: g.IsFinite() && Value(g) <= x ==> Value(g) <= v
  }

  /** m is the next float magnitude from a on, upward or downward. */
  ghost predicate NextMagnitude(away: bool, a: nat, unit: nat, m: nat) {
    && (if away then m >= a else m <= a)
    && forall g: Float :: g.IsFinite() ==> NotBetween(away, a, m, Magnitude(g) * unit)
  }

  predicate NotBetween(away: bool, a: int, m: int, v: int) {
    if away then v < a || v >= m else v > a || v <= m
  }

  ghost predicate ExceedsFinite(a: nat, unit: nat) {
    a > 0xFF_FFFF * (Pow2(MAX_FINITE_EXPONENT - 1) * unit)
  }

  function Negated(g: Float): Float {
    Packed(!g.sign, g.exponent, g.significand)
  }

  /** r is f + g as IEEE 754-2008 sections 4.3, 5.4.1, 6.1 and 6.2 define it, up to the sign of a
      zero and the payload of a NaN. */
  ghost predicate IsSum(mode: RoundingMode, f: Float, g: Float, r: Float) {
    if f.IsNaN() || g.IsNaN() then r.IsNaN()
    else if f.IsInf() && g.IsInf() then (if f.sign == g.sign then r == f else r.IsNaN())
    else if f.IsInf() then r == f
    else if g.IsInf() then r == g
    else Rounded(mode, Value(f) + Value(g), r)
  }

  /** The zero that section 6.3 of IEEE 754-2008 asks for when f + g is exactly zero. */
  predicate ZeroSignConforms(mode: RoundingMode, f: Float, g: Float, r: Float) {
    r.IsZero() && r.sign == if f.sign == g.sign then f.sign else mode == RTN
  }

  // ---------- Rounding on a grid ----------

  /** a lies in [sig*w, sig*w + w), guard says whether it is in the upper half, and sticky whether
      it is neither a grid point nor a midpoint. */
  ghost predicate Fraction(a: nat, sig: nat, w: nat, guard: bool, sticky: bool) {
    && sig * w <= a < sig * w + w
    && (guard <==> 2 * (a - sig * w) >= w)
    && (sticky <==> 2 * (a - sig * w) != 0 && 2 * (a - sig * w) != w)
  }

  predicate RoundsUp(mode: RoundingMode, guard: bool, sticky: bool, odd: bool) {
    match mode
    case RNE => guard && (sticky || odd)
    case _ => guard
  }

  /** Deciding by guard, sticky and the last digit picks the nearest float when both grid
      neighbours are the only candidates. */
  lemma RoundOnGrid(mode: RoundingMode, a: nat, sig: nat, w: nat, unit: nat, guard: bool, sticky: bool)
    requires mode.ToNearest() && w > 0
    requires Fraction(a, sig, w, guard, sticky) && NoFloatBetween(sig * w, sig * w + w, unit)
    ensures var up := RoundsUp(mode, guard, sticky, sig % 2 == 1);
      NearestMagnitude(mode, a, unit, if up then (sig + 1) * w else sig * w, (sig % 2 == 0) != up)
  {
    var up := RoundsUp(mode, guard, sticky, sig % 2 == 1);
    assert (sig + 1) * w == sig * w + w;
    var m := if up then (sig + 1) * w else sig * w;
    forall g: Float | g.IsFinite() ensures NoBetter(mode, a, m, (sig % 2 == 0) != up, Magnitude(g) * unit) {
      var v := Magnitude(g) * unit;
      GridChoice(mode, a, sig * w, w, sig % 2 == 1, guard, sticky, v);
    }
  }

  lemma GridChoice(mode: RoundingMode, a: nat, lo: nat, w: nat, odd: bool, guard: bool, sticky: bool, v: nat)
    requires mode.ToNearest() && lo <= a < lo + w && (v <= lo || v >= lo + w)
    requires guard <==> 2 * (a - lo) >= w
    requires sticky <==> 2 * (a - lo) != 0 && 2 * (a - lo) != w
    ensures var up := RoundsUp(mode, guard, sticky, odd);
      NoBetter(mode, a, if up then lo + w else lo, !odd != up, v)
  {
  }

  /** No float lies strictly between two neighbouring 24-bit significands of a normal binade. */
  lemma NormalGap(sig: nat, e: int, t: nat)
    requires 0x80_0000 <= sig < 0x100_0000 && -126 <= e && t >= 512
    ensures NoFloatBetween(sig * Pow2(e + t), sig * Pow2(e + t) + Pow2(e + t), Pow2(t - 126))
  {
    var w, unit := Pow2(e + t), Pow2(t - 126);
    forall g: Float | g.IsFinite()
      ensures Magnitude(g) * unit <= sig * w || Magnitude(g) * unit >= sig * w + w
    {
      var m := if g.exponent == 0 then g.significand else 0x80_0000 + g.significand;
      var shift := if g.exponent == 0 then 0 else g.exponent - 1;
      ScaledMagnitude(g, t);
      var top := shift + t - 126;
      OutsideGap(sig, e + t, m, top);
    }
  }

  /** A 24-bit multiple of one power of two is not strictly between neighbouring multiples of another. */
  lemma OutsideGap(sig: nat, e: nat, m: nat, top: nat)
    requires 0x80_0000 <= sig < 0x100_0000 && m < 0x100_0000
    ensures m * Pow2(top) <= sig * Pow2(e) || m * Pow2(top) >= sig * Pow2(e) + Pow2(e)
  {
    var w := Pow2(e);
    if top >= e {
      Pow2Add(top - e, e);
      MulAssociates(m, Pow2(top - e), w);
      NoMultipleBetween(sig, m * Pow2(top - e), w);
    } else {
      Pow2Monotone(top, e);
      MulMonotone(m, 0x100_0000, Pow2(top));
      MulMonotone(0x80_0000, sig, w);
    }
  }

  lemma ScaledMagnitude(g: Float, t: nat)
    requires t >= 512
    ensures g.exponent == 0 ==> Magnitude(g) * Pow2(t - 126) == g.significand * Pow2(t - 126)
    ensures g.exponent > 0 ==>
      Magnitude(g) * Pow2(t - 126) == (0x80_0000 + g.significand) * Pow2(g.exponent - 1 + t - 126)
  {
    if g.exponent > 0 {
      Pow2Add(g.exponent - 1, t - 126);
      MulAssociates(0x80_0000 + g.significand, Pow2(g.exponent - 1), Pow2(t - 126));
    }
  }

  /** Every float is a multiple of the subnormal spacing. */
  lemma SubnormalGap(k: nat, unit: nat)
    requires unit > 0
    ensures NoFloatBetween(k * unit, k * unit + unit, unit)
  {
    forall g: Float | g.IsFinite()
      ensures Magnitude(g) * unit <= k * unit || Magnitude(g) * unit >= k * unit + unit
    {
      NoMultipleBetween(k, Magnitude(g), unit);
    }
  }

  // ---------- From magnitudes to signed values ----------

  /** A nearest magnitude with the sign of x is a nearest value, at the coarse unit as well. */
  lemma SignedRounding(mode: RoundingMode, x: int, unit: nat, r: Float)
    requires unit > 0 && r.IsFinite() && !Overflows(x, 1)
    requires NearestMagnitude(mode, Abs(x) * unit, unit, Magnitude(r) * unit, r.significand % 2 == 0)
    requires x != 0 ==> (r.sign <==> x < 0)
    ensures CorrectlyRounded(mode, x, 1, r)
  {
    forall g: Float | g.IsFinite()
      ensures NoBetter(mode, x, Value(r) * 1, r.significand % 2 == 0, Value(g) * 1)
    {
      var zero := Packed(false, 0, 0);
      MagnitudeChoice(mode, Abs(x), unit, Magnitude(r), r.significand % 2 == 0, Magnitude(g));
      MagnitudeChoice(mode, Abs(x), unit, Magnitude(r), r.significand % 2 == 0, Magnitude(zero));
    }
  }

  lemma MagnitudeChoice(mode: RoundingMode, a: nat, unit: nat, r: nat, even: bool, g: nat)
    requires unit > 0 && NoBetter(mode, a * unit, r * unit, even, g * unit)
    ensures NoBetter(mode, a, r, even, g)
  {
    ScaledDistance(a, r, unit);
    ScaledDistance(a, g, unit);
    if Abs(a - r) > Abs(a - g) { MulStrict(Abs(a - g), Abs(a - r), unit); }
    if r < g { MulStrict(r, g, unit); }
    if g < r { MulStrict(g, r, unit); }
  }

  lemma ScaledDistance(a: nat, b: nat, unit: nat)
    ensures Abs(a * unit - b * unit) == Abs(a - b) * unit
  {
    assert a * unit - b * unit == (a - b) * unit;
    if a >= b { MulMonotone(b, a, unit); } else { MulMonotone(a, b, unit); }
  }

  // ---------- Directed rounding: from the grid to signed values ----------

  /** Truncating, or stepping up unless exact, gives the next float when there is none in between. */
  lemma DirectedOnGrid(away: bool, a: nat, sig: nat, w: nat, unit: nat, inexact: bool)
    requires sig * w <= a < sig * w + w && (inexact <==> a != sig * w)
    requires NoFloatBetween(sig * w, sig * w + w, unit)
    ensures NextMagnitude(away, a, unit, if away && inexact then (sig + 1) * w else sig * w)
  {
    assert (sig + 1) * w == sig * w + w;
    forall g: Float | g.IsFinite()
      ensures NotBetween(away, a, if away && inexact then (sig + 1) * w else sig * w, Magnitude(g) * unit)
    {
      assert Magnitude(g) * unit <= sig * w || Magnitude(g) * unit >= sig * w + w;
    }
  }

  lemma ScaledOrder(a: int, b: int, unit: nat)
    requires unit > 0
    ensures a * unit <= b * unit <==> a <= b
    ensures a * unit < b * unit <==> a < b
  {
    if a < b { MulStrict(a, b, unit); }
    if b < a { MulStrict(b, a, unit); }
  }

  lemma UnscaledNext(away: bool, a: nat, unit: nat, m: nat)
    requires unit > 0 && NextMagnitude(away, a * unit, unit, m * unit)
    ensures NextMagnitude(away, a, 1, m)
  {
    ScaledOrder(a, m, unit);
    ScaledOrder(m, a, unit);
    forall g: Float | g.IsFinite() ensures NotBetween(away, a, m, Magnitude(g) * 1) {
      assert NotBetween(away, a * unit, m * unit, Magnitude(g) * unit);
      ScaledOrder(Magnitude(g), a, unit);
      ScaledOrder(a, Magnitude(g), unit);
      ScaledOrder(Magnitude(g), m, unit);
      ScaledOrder(m, Magnitude(g), unit);
    }
  }

  lemma LargestMagnitude(g: Float)
    requires g.IsFinite()
    ensures Magnitude(g) <= 0xFF_FFFF * Pow2(MAX_FINITE_EXPONENT - 1)
  {
    if g.exponent > 0 {
      Pow2Monotone(g.exponent - 1, MAX_FINITE_EXPONENT - 1);
      MulMonotone(0x80_0000 + g.significand, 0xFF_FFFF, Pow2(g.exponent - 1));
      MulMonotone(Pow2(g.exponent - 1), Pow2(MAX_FINITE_EXPONENT - 1), 0xFF_FFFF);
    } else {
      MulMonotone(1, Pow2(MAX_FINITE_EXPONENT - 1), 0xFF_FFFF);
    }
  }

  /** The next magnitude with the sign of x is what the directed mode must deliver. */
  lemma SignedDirected(mode: RoundingMode, x: int, r: Float)
    requires !mode.ToNearest() && r.IsFinite() && (x != 0 ==> (r.sign <==> x < 0))
    requires NextMagnitude(Away(mode, r.sign), Abs(x), 1, Magnitude(r))
    ensures Rounded(mode, x, r)
  {
    var zero := Packed(false, 0, 0);
    assert NotBetween(Away(mode, r.sign), Abs(x), Magnitude(r), Magnitude(zero) * 1);
    if mode == RTP {
      forall g: Float | g.IsFinite() && Value(g) >= x ensures Value(g) >= Value(r) {
        assert NotBetween(Away(mode, r.sign), Abs(x), Magnitude(r), Magnitude(g) * 1);
      }
      assert LeastAbove(x, Value(r));
    } else if mode == RTN {
      forall g: Float | g.IsFinite() && Value(g) <= x ensures Value(g) <= Value(r) {
        assert NotBetween(Away(mode, r.sign), Abs(x), Magnitude(r), Magnitude(g) * 1);
      }
      assert GreatestBelow(x, Value(r));
    }
  }

  /** Beyond the largest finite number rounding away gives infinity. */
  lemma InfiniteDirected(mode: RoundingMode, x: int, r: Float)
    requires !mode.ToNearest() && r.IsInf() && Away(mode, r.sign) && ExceedsFinite(Abs(x), 1)
    requires r.sign <==> x < 0
    ensures Rounded(mode, x, r)
  {
    forall g: Float | g.IsFinite() ensures Abs(Value(g)) < Abs(x) {
      LargestMagnitude(g);
    }
  }

  /** A magnitude on the wrong side of the exact one is not what the directed mode asks for. */
  predicate WrongSide(away: bool, a: int, m: int) {
    if away then m < a else m > a
  }

  lemma WrongSideFails(mode: RoundingMode, x: int, r: Float)
    requires !mode.ToNearest() && r.IsFinite() && x != 0 && (r.sign <==> x < 0)
    requires WrongSide(Away(mode, r.sign), Abs(x), Magnitude(r))
    ensures !Rounded(mode, x, r)
  {
  }
}
