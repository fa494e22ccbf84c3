/** The adder's unpacked floats: unpacking, normalising, packing, and rounding. */
module FpUnpacked {
  import opened Powers
  import opened Binary32

  /** A by-value copy of the unpacked structure. */
  datatype FloatValue = FloatValue(nan: bool, inf: bool, zero: bool, subnormal: bool,
                                   sign: bool, exponent: int, significand: nat)
  {
    predicate IsSpecial() { nan || inf || zero }

    /** The shift that aligns a subnormal significand with the 2^-149 grid. */
    function Denormal(): int { -(exponent + 126) }

    predicate Normalized() { 0x80_0000 <= significand <= 0xFF_FFFF }

    /** The invariants the adder's check function asserts. */
    predicate Checked() {
      if nan then !inf && !zero && !subnormal && exponent == 0xFF && significand == 0
      else if inf then !zero && !subnormal && exponent == 0xFF && significand == 0
      else if zero then !subnormal && exponent == 0 && significand == 0
      else if subnormal then
        && 1 <= Denormal() <= 23 && Normalized()
        && significand % Pow2(Denormal()) == 0
      else -126 <= exponent <= 127 && Normalized()
    }

    /** What pack turns into an encoding of the same value; a subnormal may have become zero. */
    predicate Packable() {
      if nan || inf || zero then Checked()
      else if subnormal then
        && 1 <= Denormal() <= 24 && significand <= 0xFF_FFFF
        && significand % Pow2(Denormal()) == 0
      else -126 <= exponent <= 127 && Normalized()
    }

    /** Magnitude in units of 2^-(23+t). */
    ghost function Scaled(t: nat): nat
      requires t >= 512 && -512 <= exponent
    {
      if zero then 0
      else
        MulNonNegative(significand, Pow2(exponent + t));
        significand * Pow2(exponent + t)
    }

    /** Is the last digit that survives packing even? */
    ghost predicate EvenDigit()
      requires subnormal ==> Denormal() >= 0
    {
      if zero then true
      else if subnormal then (significand / Pow2(Denormal())) % 2 == 0
      else significand % 2 == 0
    }
  }

  const BIAS: int := 127

  lemma SmallPowers()
    ensures Pow2(1) == 2 && Pow2(2) == 4 && Pow2(4) == 16 && Pow2(8) == 0x100
    ensures Pow2(16) == 0x1_0000 && Pow2(23) == 0x80_0000 && Pow2(24) == 0x100_0000
    ensures Pow2(25) == 0x200_0000 && Pow2(27) == 0x800_0000
  {
    assert Pow2(26) == 2 * Pow2(25);
  }

  /** sig is start moved left, and at least as large as its top bit says. */
  ghost predicate Shifted(sig: nat, start: nat, shift: nat, least: nat) {
    least <= sig <= 0xFF_FFFF && sig == start * Pow2(shift)
  }

  lemma NotShifted(start: nat)
    requires 1 <= start <= 0xFF_FFFF
    ensures Shifted(start, start, 0, 1)
  {
    assert Pow2(0) == 1;
  }

  /** One left shift that loses no bit multiplies the total shift. */
  lemma ShiftStep(sig: nat, start: nat, shift: nat, factor: nat, k: nat, least: nat, bound: nat)
    requires Pow2(k) == factor && sig < bound && bound * factor == 0x100_0000 && bound <= least * factor
    requires Shifted(sig, start, shift, least)
    ensures (sig * factor) % 0x100_0000 == sig * factor && Shifted(sig * factor, start, shift + k, bound)
  {
    MulStrict(sig, bound, factor);
    MulMonotone(least, sig, factor);
    Pow2Add(shift, k);
    MulNonNegative(sig, factor);
    MulAssociates(start, Pow2(shift), factor);
  }

  lemma ShiftBound(sig: nat, start: nat, shift: nat)
    requires start > 0 && sig == start * Pow2(shift)
    ensures shift >= 24 ==> sig >= 0x100_0000
  {
    if shift >= 24 {
      SmallPowers();
      Pow2Monotone(24, shift);
      MulMonotone(1, start, Pow2(shift));
    }
  }

  /** The structure the adder's functions update through a pointer. */
  class UnpackedFloat {
    var nan: bool
    var inf: bool
    var zero: bool
    var subnormal: bool
    var sign: bool
    var exponent: int
    var significand: nat

    function Read(): FloatValue
      reads this
    {
      FloatValue(nan, inf, zero, subnormal, sign, exponent, significand)
    }

    constructor ()
      ensures Read() == FloatValue(true, true, true, true, true, -512, 0xFF_FFFF)
    {
      nan, inf, zero, subnormal := true, true, true, true;
      sign, exponent, significand := true, -512, 0xFF_FFFF;
    }

    method Assign(v: FloatValue)
      modifies this
      ensures Read() == v
    {
      nan, inf, zero, subnormal := v.nan, v.inf, v.zero, v.subnormal;
      sign, exponent, significand := v.sign, v.exponent, v.significand;
    }

    method MakeZero()
      modifies this
      ensures Read() == FloatValue(false, false, true, false, old(sign), 0, 0)
    {
      nan, inf, zero, subnormal := false, false, true, false;
      exponent, significand := 0, 0;
    }

    method MakeInf()
      modifies this
      ensures Read() == FloatValue(false, true, false, false, old(sign), 0xFF, 0)
    {
      nan, inf, zero, subnormal := false, true, false, false;
      exponent, significand := 0xFF, 0;
    }

    method MakeMax()
      modifies this
      ensures Read() == FloatValue(false, false, false, false, old(sign), 127, 0xFF_FFFF)
    {
      nan, inf, zero, subnormal := false, false, false, false;
      exponent, significand := 127, 0xFF_FFFF;
    }

    method MakeNaN()
      modifies this
      ensures Read() == FloatValue(true, false, false, false, old(sign), 0xFF, 0)
    {
      nan, inf, zero, subnormal := true, false, false, false;
      exponent, significand := 0xFF, 0;
    }

    /** One step of the search: moves a significand below bound up by k bits. */
    static method ShiftBelow(sig: nat, shift: nat, bound: nat, factor: nat, k: nat, ghost start: nat, ghost least: nat)
      returns (moved: nat, count: nat)
      requires Pow2(k) == factor && bound * factor == 0x100_0000 && bound <= least * factor
      requires Shifted(sig, start, shift, least)
      ensures Shifted(moved, start, count, bound)
    {
      moved, count := sig, shift;
      if sig < bound {
        ShiftStep(sig, start, shift, factor, k, least, bound);
        moved, count := (sig * factor) % 0x100_0000, shift + k;
      }
    }

    /** Shifts the leading one to the top bit by binary search on the mask widths. */
    method NormaliseUp() returns (ghost moved: nat)
      requires 0 < significand <= 0xFF_FFFF
      modifies this`significand, this`exponent
      ensures 0x80_0000 <= significand <= 0xFF_FFFF && moved <= 23
      ensures significand == old(significand) * Pow2(moved) && exponent == old(exponent) - moved
    {
      SmallPowers();
      ghost var start := significand;
      var shift := 0;
      NotShifted(start);
      significand, shift := ShiftBelow(significand, shift, 0x100, 0x1_0000, 16, start, 1);
      significand, shift := ShiftBelow(significand, shift, 0x1_0000, 0x100, 8, start, 0x100);
      significand, shift := ShiftBelow(significand, shift, 0x10_0000, 0x10, 4, start, 0x1_0000);
      significand, shift := ShiftBelow(significand, shift, 0x40_0000, 4, 2, start, 0x10_0000);
      significand, shift := ShiftBelow(significand, shift, 0x80_0000, 2, 1, start, 0x40_0000);
      ShiftBound(significand, start, shift);
      exponent := exponent - shift;
      moved := shift;
    }

    /** Adds one unit in the last kept place and renormalises on a carry out of the top. */
    method RoundInc(increment: nat, ghost k: nat)
      requires k <= 24 && increment == Pow2(k)
      requires significand <= 0xFF_FFFF && significand % increment == 0
      modifies this`significand, this`exponent
      ensures Read() == Incremented(old(Read()), increment)
      ensures significand <= 0xFF_FFFF
    {
      IncrementFits(significand, k);
      var incremented := (significand + increment) % 0x1_0000_0000;
      if incremented == 0x100_0000 {
        incremented := incremented / 2;
        exponent := exponent + 1;
      }
      significand := incremented;
    }

    /** Rounds the exact magnitude a, of which significand, guardBit and stickyBit are the
        truncation, to binary32: subnormals on the 2^-149 grid, overflow to infinity. */
    method Rounder(mode: RoundingMode, guardBit: bool, stickyBit: bool, ghost a: nat, ghost t: nat)
      requires !nan && !inf && !zero && !subnormal && Read().Normalized()
      requires -512 <= exponent <= 510 && t >= 512
      requires Fraction(a, significand, Pow2(exponent + t), guardBit, stickyBit)
      modifies this
      ensures sign == old(sign)
      ensures Read().Packable() && !nan
      ensures mode.ToNearest() ==> RoundedTo(mode, a, t, Read())
      ensures !mode.ToNearest() ==>
        (DirectedTo(Away(mode, sign), a, t, Read()) <==> !(old(exponent) < -150 && Away(mode, sign)))
      ensures old(exponent) < -150 ==> zero
    {
      ghost var start := Read();
      if exponent < -150 {
        MakeZero();
        if mode.ToNearest() {
          TinyRounding(mode, a, t, start, guardBit, stickyBit);
        } else {
          TinyDirected(Away(mode, sign), a, t, start, guardBit, stickyBit);
        }
        return;
      }
      var guard, sticky, increment := CorrectBits(guardBit, stickyBit);
      RoundDigits(mode, guard, sticky, increment, KeptFrom(start));
      ghost var digits := Read();
      ClampExponent(mode);
      RoundedPackable(mode, start, digits);
      if mode.ToNearest() {
        KeptRounding(mode, a, t, start, guardBit, stickyBit);
      } else {
        KeptDirected(mode, a, t, start, guardBit, stickyBit);
      }
    }

    /** For subnormals, takes guard and sticky from the digits that fall below 2^-149. */
    method CorrectBits(guardBit: bool, stickyBit: bool) returns (guard: bool, sticky: bool, increment: nat)
      requires -150 <= exponent
      modifies this`significand
      ensures Read() == Kept(old(Read())) && increment == Pow2(KeptFrom(old(Read())))
      ensures guard == KeptGuard(old(Read()), guardBit)
      ensures sticky == KeptSticky(old(Read()), guardBit, stickyBit)
    {
      guard, sticky, increment := guardBit, stickyBit, 1;
      if exponent < -126 {
        var subnormalAmount := -(exponent + 126);
        increment := Pow2(subnormalAmount);
        sticky := sticky || guard || significand % Pow2(subnormalAmount - 1) != 0;
        guard := (significand / Pow2(subnormalAmount - 1)) % 2 == 1;
        significand := Cleared(significand, increment);
      }
    }

    /** The rounder's first switch: round to the kept significand length. */
    method RoundDigits(mode: RoundingMode, guard: bool, sticky: bool, increment: nat, ghost k: nat)
      requires k <= 24 && increment == Pow2(k)
      requires significand <= 0xFF_FFFF && significand % increment == 0
      modifies this`significand, this`exponent
      ensures significand <= 0xFF_FFFF
      ensures Read() ==
        if Increments(mode, sign, guard, sticky, (old(significand) / increment) % 2 == 1)
        then Incremented(old(Read()), increment) else old(Read())
    {
      match mode {
        case RNE =>
          if guard {
            if sticky || (significand / increment) % 2 == 1 { RoundInc(increment, k); }
          }
        case RNA =>
          if guard { RoundInc(increment, k); }
        case RTP =>
          if !sign && (guard || sticky) { RoundInc(increment, k); }
        case RTN =>
          if sign && (guard || sticky) { RoundInc(increment, k); }
        case RTZ =>
      }
    }

    /** The rounder's second switch: round to the exponent range, then flag a subnormal. */
    method ClampExponent(mode: RoundingMode)
      modifies this
      ensures Read() == Clamped(mode, old(Read()))
    {
      match mode {
        case RNE => if exponent > 127 { MakeInf(); }
        case RNA => if exponent > 127 { MakeInf(); }
        case RTP => if exponent > 127 { if !sign { MakeInf(); } else { MakeMax(); } }
        case RTN => if exponent > 127 { if sign { MakeInf(); } else { MakeMax(); } }
        case RTZ => if exponent > 127 { MakeMax(); }
      }
      if exponent < -126 { subnormal := true; }
    }
  }

  // ---------- Rounding as a function of the fields ----------

  predicate Increments(mode: RoundingMode, sign: bool, guard: bool, sticky: bool, odd: bool) {
    match mode
    case RTP => !sign && (guard || sticky)
    case RTN => sign && (guard || sticky)
    case RTZ => false
    case _ => RoundsUp(mode, guard, sticky, odd)
  }

  /** How many low digits lie below the 2^-149 grid. */
  function KeptFrom(v: FloatValue): nat {
    if v.exponent < -126 then v.Denormal() else 0
  }

  function Kept(v: FloatValue): FloatValue {
    if v.exponent < -126 then v.(significand := Cleared(v.significand, Pow2(v.Denormal()))) else v
  }

  predicate KeptGuard(v: FloatValue, guard: bool) {
    if v.exponent < -126 then (v.significand / Pow2(v.Denormal() - 1)) % 2 == 1 else guard
  }

  predicate KeptSticky(v: FloatValue, guard: bool, sticky: bool) {
    if v.exponent < -126 then sticky || guard || v.significand % Pow2(v.Denormal() - 1) != 0 else sticky
  }

  /** Everything the rounder does above its underflow cut-off, on the fields. */
  function RoundedFields(mode: RoundingMode, v: FloatValue, guard: bool, sticky: bool): FloatValue
    requires mode.ToNearest()
  {
    var inc, kept := Pow2(KeptFrom(v)), Kept(v);
    Finished(if RoundsUp(mode, KeptGuard(v, guard), KeptSticky(v, guard, sticky), (kept.significand / inc) % 2 == 1)
             then Incremented(kept, inc) else kept)
  }

  lemma KeptRounding(mode: RoundingMode, a: nat, t: nat, start: FloatValue, guard: bool, sticky: bool)
    requires mode.ToNearest() && start.Normalized() && Unflagged(start)
    requires t >= 512 && -150 <= start.exponent <= 510
    requires Fraction(a, start.significand, Pow2(start.exponent + t), guard, sticky)
    ensures RoundedTo(mode, a, t, RoundedFields(mode, start, guard, sticky))
  {
    if start.exponent < -126 {
      var kept, inc := Kept(start), Pow2(start.Denormal());
      var up := RoundsUp(mode, KeptGuard(start, guard), KeptSticky(start, guard, sticky), (kept.significand / inc) % 2 == 1);
      SubnormalRounding(mode, a, t, start, guard, sticky);
      SameResult(mode, a, t, Finished(if up then Incremented(kept, inc) else kept), RoundedFields(mode, start, guard, sticky));
    } else {
      var up := RoundsUp(mode, guard, sticky, start.significand % 2 == 1);
      WholeDigits(mode, start, guard, sticky);
      NormalRounding(mode, a, t, start, guard, sticky);
      SameResult(mode, a, t, Finished(if up then Incremented(start, 1) else start), RoundedFields(mode, start, guard, sticky));
    }
  }

  lemma SameResult(mode: RoundingMode, a: nat, t: nat, v: FloatValue, w: FloatValue)
    requires t >= 512 && v == w && RoundedTo(mode, a, t, v)
    ensures RoundedTo(mode, a, t, w)
  {
  }

  lemma WholeDigits(mode: RoundingMode, start: FloatValue, guard: bool, sticky: bool)
    requires mode.ToNearest() && start.exponent >= -126
    ensures RoundedFields(mode, start, guard, sticky) ==
            Finished(if RoundsUp(mode, guard, sticky, start.significand % 2 == 1) then Incremented(start, 1) else start)
  {
    assert Pow2(0) == 1 && start.significand / 1 == start.significand;
  }

  function Incremented(v: FloatValue, increment: nat): FloatValue {
    if v.significand + increment == 0x100_0000 then v.(significand := 0x80_0000, exponent := v.exponent + 1)
    else v.(significand := v.significand + increment)
  }

  /** Overflow to infinity and the subnormal flag, as the nearest modes set them. */
  function Finished(v: FloatValue): FloatValue {
    if v.exponent > 127 then FloatValue(false, true, false, false, v.sign, 0xFF, 0)
    else v.(subnormal := v.subnormal || v.exponent < -126)
  }

  function Clamped(mode: RoundingMode, v: FloatValue): FloatValue {
    if v.exponent <= 127 || mode.ToNearest() || (mode == RTP && !v.sign) || (mode == RTN && v.sign) then Finished(v)
    else FloatValue(false, false, false, false, v.sign, 127, 0xFF_FFFF)
  }

  /** Rounding either way leaves fields that pack can encode. */
  lemma RoundedPackable(mode: RoundingMode, start: FloatValue, digits: FloatValue)
    requires start.Normalized() && Unflagged(start) && -150 <= start.exponent <= 510
    requires digits == Kept(start) || digits == Incremented(Kept(start), Pow2(KeptFrom(start)))
    ensures Clamped(mode, digits).Packable() && !Clamped(mode, digits).nan
    ensures Clamped(mode, digits).sign == start.sign
  {
    if start.exponent < -126 {
      var k := start.Denormal();
      var q, r := DivMod(Kept(start).significand, Pow2(k));
      ModBounds(Kept(start).significand, Pow2(k));
      SubnormalFinish(Kept(start), k, q, digits != Kept(start), 512);
    }
  }

  /** v is the round-to-nearest result for the exact magnitude a, counted in 2^-(23+t). */
  ghost predicate RoundedTo(mode: RoundingMode, a: nat, t: nat, v: FloatValue)
    requires t >= 512
  {
    && !v.nan && v.Packable()
    && (v.inf <==> Overflows(a, Pow2(t - 126)))
    && (!v.inf ==> NearestMagnitude(mode, a, Pow2(t - 126), v.Scaled(t), v.EvenDigit()))
  }

  lemma IncrementFits(sig: nat, k: nat)
    requires k <= 24 && sig <= 0xFF_FFFF && sig % Pow2(k) == 0
    ensures sig + Pow2(k) <= 0x100_0000
  {
    var q, r := DivMod(sig, Pow2(k));
    SmallPowers();
    Pow2Add(24 - k, k);
    NextMultiple(q, Pow2(24 - k), Pow2(k));
  }

  predicate Unflagged(v: FloatValue) {
    !v.nan && !v.inf && !v.zero && !v.subnormal
  }

  lemma OverflowAt(a: nat, t: nat)
    requires t >= 512
    ensures Overflows(a, Pow2(t - 126)) <==> 2 * a >= 0x1FF_FFFF * Pow2(127 + t)
  {
    Pow2Add(MAX_FINITE_EXPONENT - 1, t - 126);
  }

  /** Below 2^-150 the zero that is returned is right for the modes that do not round the magnitude up. */
  lemma TinyDirected(away: bool, a: nat, t: nat, start: FloatValue, guard: bool, sticky: bool)
    requires start.Normalized() && t >= 512 && -512 <= start.exponent < -150
    requires Fraction(a, start.significand, Pow2(start.exponent + t), guard, sticky)
    ensures DirectedTo(away, a, t, FloatValue(false, false, true, false, start.sign, 0, 0)) <==> !away
  {
    var w, unit := Pow2(start.exponent + t), Pow2(t - 126);
    TinyMagnitude(start.exponent, t);
    UpperBound(a, start.significand, w);
    MulMonotone(1, start.significand, w);
    forall g: Float | g.IsFinite() ensures NotBetween(false, a, 0, Magnitude(g) * unit) {
      if Magnitude(g) > 0 { MulMonotone(1, Magnitude(g), unit); }
    }
  }

  /** Far below the subnormal range everything rounds to zero. */
  lemma TinyRounding(mode: RoundingMode, a: nat, t: nat, start: FloatValue, guard: bool, sticky: bool)
    requires mode.ToNearest() && start.Normalized() && t >= 512 && -512 <= start.exponent < -150
    requires Fraction(a, start.significand, Pow2(start.exponent + t), guard, sticky)
    ensures RoundedTo(mode, a, t, FloatValue(false, false, true, false, start.sign, 0, 0))
  {
    var w, unit := Pow2(start.exponent + t), Pow2(t - 126);
    TinyMagnitude(start.exponent, t);
    UpperBound(a, start.significand, w);
    SubnormalGap(0, unit);
    assert Fraction(a, 0, unit, false, a != 0);
    RoundOnGrid(mode, a, 0, unit, unit, false, a != 0);
    OverflowAt(a, t);
    Pow2Monotone(t - 126, 127 + t);
  }

  lemma TinyMagnitude(e: int, t: nat)
    requires t >= 512 && -512 <= e < -150
    ensures 0x200_0000 * Pow2(e + t) <= Pow2(t - 126)
  {
    SmallPowers();
    Pow2Scale(e + t, 25, 0x200_0000);
    Pow2Monotone(e + t + 25, t - 126);
  }

  lemma UpperBound(a: nat, sig: nat, w: nat)
    requires sig <= 0xFF_FFFF && a < sig * w + w
    ensures a < 0x100_0000 * w
  {
    MulMonotone(sig, 0xFF_FFFF, w);
  }

  lemma NormalRounding(mode: RoundingMode, a: nat, t: nat, start: FloatValue, guard: bool, sticky: bool)
    requires mode.ToNearest() && start.Normalized() && Unflagged(start)
    requires t >= 512 && -126 <= start.exponent <= 510
    requires Fraction(a, start.significand, Pow2(start.exponent + t), guard, sticky)
    ensures var up := RoundsUp(mode, guard, sticky, start.significand % 2 == 1);
      RoundedTo(mode, a, t, Finished(if up then Incremented(start, 1) else start))
  {
    var up := RoundsUp(mode, guard, sticky, start.significand % 2 == 1);
    var v := if up then Incremented(start, 1) else start;
    NormalOverflow(mode, a, t, start, guard, sticky);
    if v.exponent <= 127 {
      var m := NormalOnGrid(mode, a, t, start, guard, sticky);
      NormalFields(start, up);
      FiniteRounded(mode, a, t, v, m, (start.significand % 2 == 0) != up);
      SameResult(mode, a, t, v, Finished(v));
    } else {
      InfiniteRounded(mode, a, t, Finished(v));
    }
  }

  lemma NormalFields(start: FloatValue, up: bool)
    requires start.Normalized() && Unflagged(start) && -126 <= start.exponent
    ensures var v := if up then Incremented(start, 1) else start;
      v.exponent <= 127 ==>
        v.Packable() && Finished(v) == v && !v.nan && !v.inf && v.EvenDigit() == ((start.significand % 2 == 0) != up)
  {
  }

  lemma InfiniteRounded(mode: RoundingMode, a: nat, t: nat, v: FloatValue)
    requires t >= 512 && !v.nan && v.inf && v.Packable() && Overflows(a, Pow2(t - 126))
    ensures RoundedTo(mode, a, t, v)
  {
  }

  lemma NormalOnGrid(mode: RoundingMode, a: nat, t: nat, start: FloatValue, guard: bool, sticky: bool) returns (m: nat)
    requires mode.ToNearest() && start.Normalized() && Unflagged(start)
    requires t >= 512 && -126 <= start.exponent <= 510
    requires Fraction(a, start.significand, Pow2(start.exponent + t), guard, sticky)
    ensures var up := RoundsUp(mode, guard, sticky, start.significand % 2 == 1);
      && NearestMagnitude(mode, a, Pow2(t - 126), m, (start.significand % 2 == 0) != up)
      && (if up then Incremented(start, 1) else start).Scaled(t) == m
  {
    var sig, w := start.significand, Pow2(start.exponent + t);
    var up := RoundsUp(mode, guard, sticky, sig % 2 == 1);
    NormalGap(sig, start.exponent, t);
    RoundOnGrid(mode, a, sig, w, Pow2(t - 126), guard, sticky);
    IncrementedScaled(start, t, up);
    m := if up then (sig + 1) * w else sig * w;
  }

  /** A finite value whose magnitude is the nearest one is the rounded result. */
  lemma FiniteRounded(mode: RoundingMode, a: nat, t: nat, v: FloatValue, m: nat, even: bool)
    requires t >= 512 && !v.nan && !v.inf && v.Packable() && !Overflows(a, Pow2(t - 126))
    requires v.Scaled(t) == m && v.EvenDigit() == even && NearestMagnitude(mode, a, Pow2(t - 126), m, even)
    ensures RoundedTo(mode, a, t, v)
  {
  }

  /** Incrementing adds one step, across a carry as well. */
  lemma IncrementedScaled(start: FloatValue, t: nat, up: bool)
    requires start.Normalized() && Unflagged(start) && t >= 512 && -126 <= start.exponent <= 510
    ensures var v := if up then Incremented(start, 1) else start;
      v.Scaled(t) == (if up then start.significand + 1 else start.significand) * Pow2(start.exponent + t)
  {
    if up && start.significand == 0xFF_FFFF {
      Pow2Add(1, start.exponent + t);
      assert Pow2(1) == 2;
    }
  }

  /** Exactly the magnitudes from half an ulp above the largest finite number overflow. */
  lemma NormalOverflow(mode: RoundingMode, a: nat, t: nat, start: FloatValue, guard: bool, sticky: bool)
    requires mode.ToNearest() && start.Normalized()
    requires t >= 512 && -126 <= start.exponent <= 510
    requires Fraction(a, start.significand, Pow2(start.exponent + t), guard, sticky)
    ensures var up := RoundsUp(mode, guard, sticky, start.significand % 2 == 1);
      Overflows(a, Pow2(t - 126)) <==> (if up then Incremented(start, 1) else start).exponent > 127
  {
    var sig, e := start.significand, start.exponent;
    var w, top := Pow2(e + t), Pow2(127 + t);
    OverflowAt(a, t);
    if e < 127 {
      BelowTopBinade(a, sig, e, t);
    } else if e == 127 {
      TopBinade(a, sig, w, guard, sticky);
    } else {
      AboveTopBinade(a, sig, e, t);
    }
  }

  lemma BelowTopBinade(a: nat, sig: nat, e: int, t: nat)
    requires t >= 512 && -126 <= e < 127 && sig <= 0xFF_FFFF && a < sig * Pow2(e + t) + Pow2(e + t)
    ensures 2 * a < 0x1FF_FFFF * Pow2(127 + t)
  {
    Pow2Monotone(e + t, 127 + t);
    UpperBound(a, sig, Pow2(e + t));
  }

  lemma AboveTopBinade(a: nat, sig: nat, e: int, t: nat)
    requires t >= 512 && e > 127 && 0x80_0000 <= sig && sig * Pow2(e + t) <= a
    ensures 2 * a >= 0x1FF_FFFF * Pow2(127 + t)
  {
    Pow2Monotone(127 + t, e + t);
    MulMonotone(0x80_0000, sig, Pow2(e + t));
  }

  lemma TopBinade(a: nat, sig: nat, w: nat, guard: bool, sticky: bool)
    requires sig <= 0xFF_FFFF && w > 0 && Fraction(a, sig, w, guard, sticky)
    ensures 2 * a >= 0x1FF_FFFF * w <==> sig == 0xFF_FFFF && guard
  {
    if sig < 0xFF_FFFF { MulStrict(sig, 0xFF_FFFF, w); }
  }

  /** The guard and sticky bits of the 2^-149 grid, from the significand's low digits. */
  lemma SubnormalFraction(a: nat, sig: nat, w: nat, k: nat, guard: bool, sticky: bool)
    requires 1 <= k && w > 0 && Fraction(a, sig, w, guard, sticky)
    ensures Fraction(a, sig / Pow2(k), Pow2(k) * w,
                     (sig / Pow2(k - 1)) % 2 == 1, sticky || guard || sig % Pow2(k - 1) != 0)
  {
    var half := Pow2(k - 1);
    var q, low := DivMod(sig, half);
    assert Pow2(k) == half * 2;
    DivTwice(sig, half, 2);
    CoarserFraction(a, sig, w, half, q / 2, q % 2, low, guard, sticky);
    assert half * 2 * w == 2 * (half * w);
  }

  lemma CoarserFraction(a: nat, sig: nat, w: nat, half: nat, q: nat, bit: nat, low: nat, guard: bool, sticky: bool)
    requires w > 0 && half > low && bit <= 1 && sig == (2 * q + bit) * half + low
    requires Fraction(a, sig, w, guard, sticky)
    ensures Fraction(a, q, 2 * (half * w), bit == 1, sticky || guard || low != 0)
  {
    var big, frac := half * w, a - sig * w;
    var lost := 2 * (low * w) + 2 * frac;
    SigTimesWeight(sig, w, half, q, bit, low);
    MulNonNegative(low, w);
    MulStrict(low, half, w);
    if low > 0 { MulStrict(0, low, w); }
    assert 0 <= lost < 2 * big;
    assert 2 * (a - q * (2 * big)) == bit * (2 * big) + lost;
  }

  lemma SigTimesWeight(sig: nat, w: nat, half: nat, q: nat, bit: nat, low: nat)
    requires sig == (2 * q + bit) * half + low
    ensures sig * w == q * (2 * (half * w)) + bit * (half * w) + low * w
  {
    var big := half * w;
    assert (2 * q + bit) * half * w == (2 * q + bit) * big;
    assert (2 * q + bit) * big == q * (2 * big) + bit * big;
  }

  lemma SubnormalRounding(mode: RoundingMode, a: nat, t: nat, start: FloatValue, guard: bool, sticky: bool)
    requires mode.ToNearest() && start.Normalized() && Unflagged(start)
    requires t >= 512 && -150 <= start.exponent < -126
    requires Fraction(a, start.significand, Pow2(start.exponent + t), guard, sticky)
    ensures var kept, inc := Kept(start), Pow2(start.Denormal());
      var up := RoundsUp(mode, KeptGuard(start, guard), KeptSticky(start, guard, sticky), (kept.significand / inc) % 2 == 1);
      RoundedTo(mode, a, t, Finished(if up then Incremented(kept, inc) else kept))
  {
    var k := start.Denormal();
    var q := GridPlace(a, t, start, guard, sticky);
    SubnormalNoOverflow(a, t, start);
    GridRounded(mode, a, t, Kept(start), k, q, KeptGuard(start, guard), KeptSticky(start, guard, sticky));
  }

  /** Where a subnormal lies on the 2^-149 grid. */
  lemma GridPlace(a: nat, t: nat, start: FloatValue, guard: bool, sticky: bool) returns (q: nat)
    requires start.Normalized() && t >= 512 && -150 <= start.exponent < -126
    requires Fraction(a, start.significand, Pow2(start.exponent + t), guard, sticky)
    ensures Kept(start).significand == q * Pow2(start.Denormal()) && Kept(start).significand <= 0xFF_FFFF
    ensures Kept(start).significand / Pow2(start.Denormal()) == q
    ensures Fraction(a, q, Pow2(t - 126), KeptGuard(start, guard), KeptSticky(start, guard, sticky))
  {
    var k := start.Denormal();
    var sig := start.significand;
    q := ClearedMultiple(sig, Pow2(k));
    SubnormalFraction(a, sig, Pow2(start.exponent + t), k, guard, sticky);
    Pow2Add(k, start.exponent + t);
  }

  lemma ClearedMultiple(sig: nat, d: nat) returns (q: nat)
    requires d > 0
    ensures q == sig / d && Cleared(sig, d) == q * d <= sig && Cleared(sig, d) / d == q
  {
    var r;
    q, r := DivMod(sig, d);
    DivUnique(q * d, d, q, 0);
  }

  lemma GridRounded(mode: RoundingMode, a: nat, t: nat, kept: FloatValue, k: nat, q: nat, guard: bool, sticky: bool)
    requires mode.ToNearest() && Unflagged(kept) && t >= 512 && k == kept.Denormal() && 1 <= k <= 24
    requires kept.significand == q * Pow2(k) && kept.significand <= 0xFF_FFFF
    requires Fraction(a, q, Pow2(t - 126), guard, sticky) && !Overflows(a, Pow2(t - 126))
    ensures var up := RoundsUp(mode, guard, sticky, q % 2 == 1);
      RoundedTo(mode, a, t, Finished(if up then Incremented(kept, Pow2(k)) else kept))
  {
    var up := RoundsUp(mode, guard, sticky, q % 2 == 1);
    GridNearest(mode, a, Pow2(t - 126), q, guard, sticky);
    SubnormalFinish(kept, k, q, up, t);
    StepsRounded(mode, a, t, Finished(if up then Incremented(kept, Pow2(k)) else kept), GridSteps(q, up));
  }

  function GridSteps(q: nat, up: bool): nat {
    if up then q + 1 else q
  }

  lemma GridNearest(mode: RoundingMode, a: nat, unit: nat, q: nat, guard: bool, sticky: bool)
    requires mode.ToNearest() && unit > 0 && Fraction(a, q, unit, guard, sticky)
    ensures var steps := GridSteps(q, RoundsUp(mode, guard, sticky, q % 2 == 1));
      NearestMagnitude(mode, a, unit, steps * unit, steps % 2 == 0)
  {
    SubnormalGap(q, unit);
    RoundOnGrid(mode, a, q, unit, unit, guard, sticky);
  }

  lemma StepsRounded(mode: RoundingMode, a: nat, t: nat, v: FloatValue, steps: nat)
    requires t >= 512 && StepsHeld(v, steps, t) && !Overflows(a, Pow2(t - 126))
    requires NearestMagnitude(mode, a, Pow2(t - 126), steps * Pow2(t - 126), steps % 2 == 0)
    ensures RoundedTo(mode, a, t, v)
  {
  }

  lemma SubnormalNoOverflow(a: nat, t: nat, start: FloatValue)
    requires start.Normalized() && t >= 512 && -150 <= start.exponent < -126
    requires a < start.significand * Pow2(start.exponent + t) + Pow2(start.exponent + t)
    ensures !Overflows(a, Pow2(t - 126))
  {
    OverflowAt(a, t);
    Pow2Monotone(start.exponent + t, 127 + t);
    UpperBound(a, start.significand, Pow2(start.exponent + t));
  }

  /** v holds that many steps of 2^-149. */
  ghost predicate StepsHeld(v: FloatValue, steps: nat, t: nat)
    requires t >= 512
  {
    && v.Packable() && !v.inf && !v.nan
    && v.Scaled(t) == steps * Pow2(t - 126)
    && v.EvenDigit() == (steps % 2 == 0)
  }

  /** What the fields hold after the subnormal decision: q or q + 1 steps of 2^-149. */
  lemma SubnormalFinish(kept: FloatValue, k: nat, q: nat, up: bool, t: nat)
    requires Unflagged(kept) && t >= 512 && k == kept.Denormal() && 1 <= k <= 24
    requires kept.significand == q * Pow2(k) && kept.significand <= 0xFF_FFFF
    ensures StepsHeld(Finished(if up then Incremented(kept, Pow2(k)) else kept), GridSteps(q, up), t)
  {
    if up { SubnormalUp(kept, k, q, t); } else { SubnormalSteps(kept, k, q, t); }
  }

  lemma SubnormalUp(kept: FloatValue, k: nat, q: nat, t: nat)
    requires Unflagged(kept) && t >= 512 && k == kept.Denormal() && 1 <= k <= 24
    requires kept.significand == q * Pow2(k) && kept.significand <= 0xFF_FFFF
    ensures StepsHeld(Finished(Incremented(kept, Pow2(k))), q + 1, t)
  {
    DivUnique(kept.significand, Pow2(k), q, 0);
    IncrementFits(kept.significand, k);
    MulSuccessor(q, Pow2(k));
    if kept.significand + Pow2(k) == 0x100_0000 {
      SubnormalCarry(kept, k, q, t);
    } else {
      SubnormalSteps(kept.(significand := kept.significand + Pow2(k)), k, q + 1, t);
    }
  }

  lemma SubnormalSteps(v: FloatValue, k: nat, steps: nat, t: nat)
    requires Unflagged(v) && t >= 512 && k == v.Denormal() && 1 <= k <= 24
    requires v.significand == steps * Pow2(k) && v.significand <= 0xFF_FFFF
    ensures StepsHeld(Finished(v), steps, t)
  {
    var inc, w := Pow2(k), Pow2(v.exponent + t);
    DivUnique(v.significand, inc, steps, 0);
    Pow2Add(k, v.exponent + t);
    MulAssociates(steps, inc, w);
  }

  lemma SubnormalCarry(kept: FloatValue, k: nat, q: nat, t: nat)
    requires Unflagged(kept) && t >= 512 && k == kept.Denormal() && 1 <= k <= 24
    requires (q + 1) * Pow2(k) == 0x100_0000
    ensures StepsHeld(Finished(kept.(significand := 0x80_0000, exponent := kept.exponent + 1)), q + 1, t)
  {
    SmallPowers();
    var v := Finished(kept.(significand := 0x80_0000, exponent := kept.exponent + 1));
    CarryScaled(kept.exponent, k, q, t);
    assert Pow2(k) == 2 * Pow2(k - 1);
    HalfProduct(q + 1, Pow2(k - 1));
    DivUnique(0x80_0000, Pow2(k - 1), q + 1, 0);
    if k == 1 { assert Pow2(0) == 1; }
  }

  lemma HalfProduct(m: nat, half: nat)
    requires m * (2 * half) == 0x100_0000
    ensures m * half == 0x80_0000
  {
    assert m * (2 * half) == 2 * (m * half);
  }

  lemma CarryScaled(e: int, k: nat, q: nat, t: nat)
    requires t >= 512 && k == -(e + 126) && 1 <= k <= 24 && (q + 1) * Pow2(k) == 0x100_0000
    ensures 0x80_0000 * Pow2(e + 1 + t) == (q + 1) * Pow2(t - 126)
  {
    var w := Pow2(e + t);
    Pow2Add(k, e + t);
    MulAssociates(q + 1, Pow2(k), w);
    assert Pow2(e + 1 + t) == 2 * w;
  }

  // ---------- The directed modes ----------

  /** v is the exact magnitude a, counted in 2^-(23+t), rounded up or down. */
  ghost predicate DirectedTo(away: bool, a: nat, t: nat, v: FloatValue)
    requires t >= 512
  {
    && !v.nan && v.Packable()
    && (v.inf <==> away && ExceedsFinite(a, Pow2(t - 126)))
    && (!v.inf ==> NextMagnitude(away, a, Pow2(t - 126), v.Scaled(t)))
  }

  /** Everything the rounder does above its underflow cut-off in a directed mode, on the fields. */
  function DirectedFields(mode: RoundingMode, v: FloatValue, guard: bool, sticky: bool): FloatValue {
    var inc, kept := Pow2(KeptFrom(v)), Kept(v);
    Clamped(mode, if Increments(mode, v.sign, KeptGuard(v, guard), KeptSticky(v, guard, sticky), (kept.significand / inc) % 2 == 1)
                  then Incremented(kept, inc) else kept)
  }

  lemma KeptDirected(mode: RoundingMode, a: nat, t: nat, start: FloatValue, guard: bool, sticky: bool)
    requires !mode.ToNearest() && start.Normalized() && Unflagged(start)
    requires t >= 512 && -150 <= start.exponent <= 510
    requires Fraction(a, start.significand, Pow2(start.exponent + t), guard, sticky)
    ensures DirectedTo(Away(mode, start.sign), a, t, DirectedFields(mode, start, guard, sticky))
  {
    var away := Away(mode, start.sign);
    if start.exponent < -126 {
      var kept := Kept(start);
      var up := away && (KeptGuard(start, guard) || KeptSticky(start, guard, sticky));
      SubnormalDirected(away, a, t, start, guard, sticky);
      SubnormalStaysFinite(mode, kept, start.Denormal());
      SameDirected(away, a, t, Finished(if up then Incremented(kept, Pow2(start.Denormal())) else kept),
                   DirectedFields(mode, start, guard, sticky));
    } else {
      assert Pow2(0) == 1;
      NormalDirected(mode, a, t, start, guard, sticky);
      SameDirected(away, a, t, Clamped(mode, if away && (guard || sticky) then Incremented(start, 1) else start),
                   DirectedFields(mode, start, guard, sticky));
    }
  }

  lemma SameDirected(away: bool, a: nat, t: nat, v: FloatValue, w: FloatValue)
    requires t >= 512 && v == w && DirectedTo(away, a, t, v)
    ensures DirectedTo(away, a, t, w)
  {
  }

  lemma SubnormalStaysFinite(mode: RoundingMode, kept: FloatValue, k: nat)
    requires kept.exponent < -126
    ensures Clamped(mode, kept) == Finished(kept)
    ensures Clamped(mode, Incremented(kept, Pow2(k))) == Finished(Incremented(kept, Pow2(k)))
  {
  }

  lemma FractionExact(a: nat, sig: nat, w: nat, guard: bool, sticky: bool)
    requires Fraction(a, sig, w, guard, sticky)
    ensures guard || sticky <==> a != sig * w
  {
  }

  lemma ExceedsAt(a: nat, t: nat)
    requires t >= 512
    ensures ExceedsFinite(a, Pow2(t - 126)) <==> a > 0xFF_FFFF * Pow2(127 + t)
  {
    Pow2Add(MAX_FINITE_EXPONENT - 1, t - 126);
  }

  lemma PackableMagnitude(v: FloatValue, t: nat)
    requires t >= 512 && v.Packable() && !v.nan && !v.inf
    ensures v.Scaled(t) <= 0xFF_FFFF * Pow2(127 + t)
  {
    if !v.zero {
      Pow2Monotone(v.exponent + t, 127 + t);
      MulMonotone(v.significand, 0xFF_FFFF, Pow2(v.exponent + t));
    }
  }

  /** A finite value whose magnitude is the next one is the directed result. */
  lemma FiniteDirected(away: bool, a: nat, t: nat, v: FloatValue, m: nat)
    requires t >= 512 && !v.nan && !v.inf && v.Packable() && v.Scaled(t) == m
    requires NextMagnitude(away, a, Pow2(t - 126), m)
    ensures DirectedTo(away, a, t, v)
  {
    ExceedsAt(a, t);
    PackableMagnitude(v, t);
  }

  lemma NormalDirected(mode: RoundingMode, a: nat, t: nat, start: FloatValue, guard: bool, sticky: bool)
    requires !mode.ToNearest() && start.Normalized() && Unflagged(start)
    requires t >= 512 && -126 <= start.exponent <= 510
    requires Fraction(a, start.significand, Pow2(start.exponent + t), guard, sticky)
    ensures var away := Away(mode, start.sign);
      DirectedTo(away, a, t, Clamped(mode, if away && (guard || sticky) then Incremented(start, 1) else start))
  {
    var away := Away(mode, start.sign);
    var up := away && (guard || sticky);
    var v := if up then Incremented(start, 1) else start;
    FractionExact(a, start.significand, Pow2(start.exponent + t), guard, sticky);
    IncrementedScaled(start, t, up);
    if v.exponent <= 127 {
      NormalGap(start.significand, start.exponent, t);
      DirectedOnGrid(away, a, start.significand, Pow2(start.exponent + t), Pow2(t - 126), guard || sticky);
      NormalFields(start, up);
      FiniteDirected(away, a, t, v, v.Scaled(t));
      SameDirected(away, a, t, v, Clamped(mode, v));
    } else {
      BeyondFinite(a, t, start, up);
      if !away { LargestIsNext(a, t, Clamped(mode, v)); }
    }
  }

  /** Leaving the exponent range means reaching past the largest finite number. */
  lemma BeyondFinite(a: nat, t: nat, start: FloatValue, up: bool)
    requires start.Normalized() && t >= 512 && -126 <= start.exponent <= 510
    requires a >= start.significand * Pow2(start.exponent + t)
    requires up ==> a > start.significand * Pow2(start.exponent + t)
    requires (if up then Incremented(start, 1) else start).exponent > 127
    ensures ExceedsFinite(a, Pow2(t - 126)) && a > 0xFF_FFFF * Pow2(127 + t)
  {
    ExceedsAt(a, t);
    if start.exponent > 127 {
      Pow2Monotone(128 + t, start.exponent + t);
      MulMonotone(0x80_0000, start.significand, Pow2(start.exponent + t));
    }
  }

  lemma LargestIsNext(a: nat, t: nat, v: FloatValue)
    requires t >= 512 && a > 0xFF_FFFF * Pow2(127 + t)
    requires Unflagged(v) && v.exponent == 127 && v.significand == 0xFF_FFFF
    ensures DirectedTo(false, a, t, v)
  {
    var unit := Pow2(t - 126);
    Pow2Add(MAX_FINITE_EXPONENT - 1, t - 126);
    MulAssociates(0xFF_FFFF, Pow2(MAX_FINITE_EXPONENT - 1), unit);
    forall g: Float | g.IsFinite() ensures NotBetween(false, a, v.Scaled(t), Magnitude(g) * unit) {
      LargestMagnitude(g);
      MulMonotone(Magnitude(g), 0xFF_FFFF * Pow2(MAX_FINITE_EXPONENT - 1), unit);
    }
    FiniteDirected(false, a, t, v, v.Scaled(t));
  }

  lemma SubnormalDirected(away: bool, a: nat, t: nat, start: FloatValue, guard: bool, sticky: bool)
    requires start.Normalized() && Unflagged(start)
    requires t >= 512 && -150 <= start.exponent < -126
    requires Fraction(a, start.significand, Pow2(start.exponent + t), guard, sticky)
    ensures var up := away && (KeptGuard(start, guard) || KeptSticky(start, guard, sticky));
      DirectedTo(away, a, t, Finished(if up then Incremented(Kept(start), Pow2(start.Denormal())) else Kept(start)))
  {
    var q := GridPlace(a, t, start, guard, sticky);
    GridDirected(away, a, t, Kept(start), start.Denormal(), q, KeptGuard(start, guard), KeptSticky(start, guard, sticky));
  }

  lemma GridDirected(away: bool, a: nat, t: nat, kept: FloatValue, k: nat, q: nat, guard: bool, sticky: bool)
    requires Unflagged(kept) && t >= 512 && k == kept.Denormal() && 1 <= k <= 24
    requires kept.significand == q * Pow2(k) && kept.significand <= 0xFF_FFFF
    requires Fraction(a, q, Pow2(t - 126), guard, sticky)
    ensures var up := away && (guard || sticky);
      DirectedTo(away, a, t, Finished(if up then Incremented(kept, Pow2(k)) else kept))
  {
    var up := away && (guard || sticky);
    GridNext(away, a, Pow2(t - 126), q, guard, sticky);
    SubnormalFinish(kept, k, q, up, t);
    FiniteDirected(away, a, t, Finished(if up then Incremented(kept, Pow2(k)) else kept), GridSteps(q, up) * Pow2(t - 126));
  }

  lemma GridNext(away: bool, a: nat, unit: nat, q: nat, guard: bool, sticky: bool)
    requires unit > 0 && Fraction(a, q, unit, guard, sticky)
    ensures NextMagnitude(away, a, unit, GridSteps(q, away && (guard || sticky)) * unit)
  {
    FractionExact(a, q, unit, guard, sticky);
    SubnormalGap(q, unit);
    DirectedOnGrid(away, a, q, unit, unit, guard || sticky);
  }
}
