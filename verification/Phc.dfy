/**
  Scaling of the hardware clock's multiplier and shift in ionic_lif_alloc_phc:
  64-bit arithmetic on numbers the device supplies, which may be anything.
 */
module PhcSpec {
  import opened Common

  const U32: nat := 0x1_0000_0000
  const U64: nat := 0x1_0000_0000_0000_0000
  const U64_MAX: nat := 0xffff_ffff_ffff_ffff
  const UPDATE_NS: nat := 10_000_000_000   // IONIC_PHC_UPDATE_NS
  const ILOG2_UPDATE_NS: nat := 33
  const SCALED_PPM: nat := 65_536_000_000  // 1000000 << 16

  function Pow2(k: nat): (p: nat)
    ensures p >= 1
  {
    if k == 0 then 1 else 2 * Pow2(k - 1)
  }

  lemma {:induction false} Pow2Grows(j: nat, k: nat)
    requires j <= k
    ensures Pow2(j) <= Pow2(k)
    decreases k
  {
    if j < k {
      Pow2Grows(j, k - 1);
    }
  }

  lemma {:induction false} Pow2Add(j: nat, k: nat)
    ensures Pow2(j + k) == Pow2(j) * Pow2(k)
    decreases k
  {
    if k > 0 {
      Pow2Add(j, k - 1);
      assert Pow2(j + k) == 2 * Pow2(j + (k - 1));
      assert 2 * (Pow2(j) * Pow2(k - 1)) == Pow2(j) * (2 * Pow2(k - 1));
    }
  }

  /** The position of the highest set bit, counted from one; 0 for 0. */
  function Fls(x: nat): (k: nat)
    ensures x > 0 ==> k > 0
  {
    if x == 0 then 0 else 1 + Fls(x / 2)
  }

  /** fls brackets its argument between two powers of two. */
  lemma {:induction false} FlsBrackets(x: nat)
    requires x > 0
    ensures Pow2(Fls(x) - 1) <= x < Pow2(Fls(x))
  {
    if x > 1 {
      FlsBrackets(x / 2);
    } else {
      assert Fls(1) == 1 + Fls(0);
    }
  }

  lemma {:induction false} FlsBound(x: nat, k: nat)
    requires x < Pow2(k)
    ensures Fls(x) <= k
    decreases k
  {
    if k > 0 && x > 0 {
      FlsBound(x / 2, k - 1);
    }
  }

  // ----- the mask ------------------------------------------------------------

  /** The six or-and-shift statements. */
  function Smear(x: bv64): bv64 {
    var a := x | (x >> 1);
    var b := a | (a >> 2);
    var c := b | (b >> 4);
    var d := c | (c >> 8);
    var e := d | (d >> 16);
    e | (e >> 32)
  }

  predicate AllOnes(m: bv64) {
    m & (m + 1) == 0
  }

  /** Below its highest set bit an all-ones mask has no gap. */
  lemma NoGapIsAllOnes(m: bv64)
    requires m | (m >> 1) == m
    ensures AllOnes(m)
  {
  }

  lemma SmearHasNoGap(x: bv64)
    ensures Smear(x) | (Smear(x) >> 1) == Smear(x)
  {
  }

  /** Smearing yields an all-ones mask. */
  lemma SmearAllOnes(x: bv64, m: bv64)
    requires m == Smear(x)
    ensures AllOnes(m)
  {
    SmearHasNoGap(x);
    NoGapIsAllOnes(m);
  }

  /** It covers `x`. */
  lemma SmearCovers(x: bv64)
    ensures x & Smear(x) == x
  {
  }

  /** And no smaller mask does. */
  lemma SmearLeast(x: bv64, m: bv64)
    requires AllOnes(m) && x <= m
    ensures Smear(x) <= m
  {
  }

  /** A single bit. */
  predicate OneBit(b: bv64) {
    b != 0 && b & (b - 1) == 0
  }

  // ----- the multiplier ------------------------------------------------------

  /** The largest multiplier whose product with `m` fits 63 bits. */
  function Limit(m: nat): nat
    requires m > 0
  {
    U64_MAX / 2 / m
  }

  lemma LimitExact(m: nat, x: nat)
    requires m > 0
    ensures x <= Limit(m) <==> x * m <= U64_MAX / 2
  {
    var a, l := U64_MAX / 2, Limit(m);
    assert l * m <= a < l * m + m;
    if x <= l {
      MulLe(x, l, m);
    } else {
      MulLe(l + 1, x, m);
      assert (l + 1) * m == l * m + m;
    }
  }

  lemma LimitSmall(m: nat)
    requires m >= SCALED_PPM
    ensures Limit(m) <= 140_737_488
  {
    LimitExact(m, 140_737_489);
    MulLe(SCALED_PPM, m, 140_737_489);
  }

  lemma QuotientBrackets(limit: nat, mult: nat)
    requires mult > 0
    ensures mult * (limit / mult) <= limit < mult * (limit / mult) + mult
  {
  }

  /** Scaling by 2^fls(quotient) overshoots the quotient, by less than a factor of two. */
  lemma ScaledMult(mult: nat, limit: nat)
    requires mult > 0 && limit / mult >= 2
    ensures limit < mult * Pow2(Fls(limit / mult)) <= 2 * limit
  {
    var q := limit / mult;
    FlsBrackets(q);
    QuotientBrackets(limit, mult);
    Overshoot(mult, q, Pow2(Fls(q) - 1), limit);
  }

  lemma Overshoot(mult: nat, q: nat, p: nat, limit: nat)
    requires p <= q < 2 * p
    requires mult * q <= limit < mult * q + mult
    ensures limit < mult * (2 * p) <= 2 * limit
  {
    MulLe(q + 1, 2 * p, mult);
    MulLe(p, q, mult);
    MulExpand(mult, q, p);
  }

  lemma MulExpand(mult: nat, q: nat, p: nat)
    ensures mult * (q + 1) == mult * q + mult && mult * (2 * p) == 2 * (mult * p)
  {
  }

  /**
    Whenever scaling fires: the new multiplier fits 32 bits and its product with
    max(diff / 2, SCALED_PPM) fits 64 bits, but never 63.
   */
  lemma ScaledProduct(mult: nat, m: nat)
    requires mult > 0 && m >= SCALED_PPM && Limit(m) / mult >= 2
    ensures var scaled := mult * Pow2(Fls(Limit(m) / mult));
            && scaled < U32
            && U64_MAX / 2 < scaled * m <= U64_MAX
  {
    ScaledMult(mult, Limit(m));
    LimitSmall(m);
    JustOver(mult * Pow2(Fls(Limit(m) / mult)), m);
  }

  /** Between the limit and twice the limit, the product needs 64 bits and fits them. */
  lemma JustOver(x: nat, m: nat)
    requires m > 0 && Limit(m) < x <= 2 * Limit(m)
    ensures U64_MAX / 2 < x * m <= U64_MAX
  {
    LimitExact(m, x);
    LimitExact(m, Limit(m));
    Doubled(x, Limit(m), m);
  }

  lemma Doubled(x: nat, limit: nat, m: nat)
    requires x <= 2 * limit
    ensures x * m <= 2 * (limit * m)
  {
    MulLe(x, 2 * limit, m);
  }

  // ----- what the comment in the code promises -------------------------------

  /**
    The comment above the scaling promises that init_cc_mult * SCALED_PPM fits
    63 bits and that max_mult * (diff / 2) fits 64 bits, where max_mult is twice
    the initial multiplier.
   */
  predicate CommentHolds(mult: nat, halfDiff: nat) {
    && mult * SCALED_PPM <= U64_MAX / 2
    && 2 * mult * halfDiff <= U64_MAX
  }

  lemma CommentIsOneBound(mult: nat, halfDiff: nat)
    ensures CommentHolds(mult, halfDiff) <==> mult <= Limit(Max(halfDiff, SCALED_PPM))
  {
    var m := Max(halfDiff, SCALED_PPM);
    LimitExact(m, mult);
    MulLe(halfDiff, m, mult);
    MulLe(SCALED_PPM, m, mult);
    assert 2 * mult * halfDiff == 2 * (mult * halfDiff);
  }

  /** The multiplier the code ends up with. */
  function FinalMult(mult: nat, m: nat): nat
    requires mult > 0 && m > 0
  {
    if Limit(m) / mult >= 2 then mult * Pow2(Fls(Limit(m) / mult)) else mult
  }

  /**
    Because fls rounds up, the comment's bounds hold exactly when the quotient
    is 1, that is, never when the multiplier was scaled and never when it was
    too large to begin with.
   */
  lemma CommentHoldsIff(mult: nat, halfDiff: nat)
    requires mult > 0
    ensures CommentHolds(FinalMult(mult, Max(halfDiff, SCALED_PPM)), halfDiff)
       <==> Limit(Max(halfDiff, SCALED_PPM)) / mult == 1
  {
    var m := Max(halfDiff, SCALED_PPM);
    var q := Limit(m) / mult;
    CommentIsOneBound(FinalMult(mult, m), halfDiff);
    QuotientBrackets(Limit(m), mult);
    if q >= 2 {
      ScaledMult(mult, Limit(m));
    } else if q == 0 {
      assert mult * q == 0;
    } else {
      assert mult * q == mult;
    }
  }

  /** A device multiplier of 1 with the narrowest mask is scaled beyond the comment's bounds. */
  lemma CommentFails()
    ensures !CommentHolds(FinalMult(1, Max(0, SCALED_PPM)), 0)
  {
    LimitExact(SCALED_PPM, 2);
    DivideByOne(Limit(SCALED_PPM));
    CommentHoldsIff(1, 0);
  }

  lemma DivideByOne(x: nat)
    ensures x / 1 == x
  {
  }
}

/** The statements of ionic_lif_alloc_phc that compute the mask, the multiplier and the shift. */
module Phc {
  import opened Common
  import opened PhcSpec

  /** `Undefined`: a shift of a 64-bit value by 64 or more. */
  datatype Scaling = Disabled | Undefined | Scaled(mult: nat, shift: nat, diff: bv64)

  /** Ticks of about four update periods, or the largest number that survives a doubled multiplier. */
  function RawDiff(mult: nat, shift: nat): (d: nat)
    requires 0 < mult < U32 && shift < U32
    requires shift < U32 - 35 || shift >= U32 - 2
    ensures d < U64
  {
    if (shift + 2 + ILOG2_UPDATE_NS) % U32 >= 64 then
      QuotientSmall(U64_MAX, mult);
      U64_MAX / mult / 2
    else
      ShiftedPeriodFits((shift + 2) % U32);
      QuotientSmall(UPDATE_NS * Pow2((shift + 2) % U32) + mult - 1, mult);
      DivRoundUp(UPDATE_NS * Pow2((shift + 2) % U32), mult)
  }

  lemma QuotientSmall(a: nat, b: nat)
    requires b > 0
    ensures a / b <= a
  {
    if a / b > a {
      assert a == b * (a / b) + a % b;
      MulLe(1, b, a / b);
      assert false;
    }
  }

  /** The shifted update period does not overflow 64 bits, with room for the rounding term. */
  lemma ShiftedPeriodFits(amount: nat)
    requires amount <= 30
    ensures UPDATE_NS * Pow2(amount) + U32 < U64
  {
    Pow2Grows(amount, 30);
    Pow2Of30();
    MulLe(Pow2(amount), Pow2(30), UPDATE_NS);
  }

  lemma Pow2Of30()
    ensures Pow2(30) == 0x4000_0000
  {
    Pow2Add(15, 15);
    assert Pow2(15) == 0x8000;
  }

  lemma RoundedUp(a: nat, b: nat)
    requires b > 0
    ensures a <= DivRoundUp(a, b) * b < a + b
  {
    var x := a + b - 1;
    assert x == x / b * b + x % b;
  }

  lemma HalvedQuotient(a: nat, b: nat)
    requires b > 0
    ensures 2 * (a / b / 2 * b) <= a < 2 * (a / b / 2 * b) + 2 * b
  {
    var q := a / b;
    assert a == q * b + a % b;
    var h := q / 2;
    Bracket(h, q, b);
  }

  lemma Bracket(h: nat, q: nat, b: nat)
    requires h == q / 2
    ensures 2 * (h * b) <= q * b && q * b + b <= 2 * (h * b) + 2 * b
  {
    MulLe(2 * h, q, b);
    MulLe(q, 2 * h + 1, b);
    assert (2 * h) * b == 2 * (h * b);
    assert (2 * h + 1) * b == 2 * (h * b) + b;
  }

  /**
    What the ticks stand for.  Up to shift 28 they are the least number of ticks
    that lasts four update periods; above, the largest number that does not
    overflow when multiplied by twice the multiplier.
   */
  lemma TicksExact(mult: nat, shift: nat)
    requires 0 < mult < U32 && shift < U32 - 35
    ensures shift <= 28 ==>
              var period := 4 * (UPDATE_NS * Pow2(shift));
              period <= RawDiff(mult, shift) * mult < period + mult
    ensures shift > 28 ==> 2 * (RawDiff(mult, shift) * mult) <= U64_MAX < 2 * (RawDiff(mult, shift) * mult) + 2 * mult
  {
    if shift <= 28 {
      FourTimes(shift);
      RoundedUp(UPDATE_NS * Pow2(shift + 2), mult);
      RawLow(mult, shift);
    } else {
      HalvedQuotient(U64_MAX, mult);
      RawHigh(mult, shift);
    }
  }

  lemma RawLow(mult: nat, shift: nat)
    requires 0 < mult < U32 && shift <= 28
    ensures RawDiff(mult, shift) == DivRoundUp(UPDATE_NS * Pow2(shift + 2), mult)
  {
    assert (shift + 2 + ILOG2_UPDATE_NS) % U32 == shift + 35 && (shift + 2) % U32 == shift + 2;
  }

  lemma RawHigh(mult: nat, shift: nat)
    requires 0 < mult < U32 && 28 < shift < U32 - 35
    ensures RawDiff(mult, shift) == U64_MAX / mult / 2
  {
    assert (shift + 2 + ILOG2_UPDATE_NS) % U32 == shift + 35;
  }

  lemma FourTimes(shift: nat)
    ensures UPDATE_NS * Pow2(shift + 2) == 4 * (UPDATE_NS * Pow2(shift))
  {
    assert Pow2(shift + 2) == 2 * Pow2(shift + 1) == 4 * Pow2(shift);
  }

  /** Which device shifts the overflowing 32-bit test handles. */
  lemma ShiftTest(shift: nat)
    requires shift < U32
    ensures (shift + 2 + ILOG2_UPDATE_NS) % U32 < 64 && (shift + 2) % U32 >= 64 <==> U32 - 35 <= shift < U32 - 2
    ensures (shift + 2 + ILOG2_UPDATE_NS) % U32 < 64 && (shift + 2) % U32 < 64 ==> (shift + 2) % U32 <= 30
  {
  }

  /** The wrap mask in force: smeared to a bitmask, constrained to the hardware's. */
  function WrapMask(ticks: bv64, mask: bv64): bv64 {
    Smear(ticks) & mask
  }

  /** Bit by bit: the wrap mask has no bit above the ticks. */
  lemma WrapMaskAbove(ticks: bv64, mask: bv64, b: bv64)
    requires OneBit(b) && ticks < b
    ensures WrapMask(ticks, mask) & b == 0
  {
  }

  /** And of the others exactly those of the hardware's mask. */
  lemma WrapMaskWithin(ticks: bv64, mask: bv64, b: bv64)
    requires OneBit(b) && ticks >= b
    ensures WrapMask(ticks, mask) & b == mask & b
  {
  }

  function HalfDiff(diff: bv64): nat {
    (diff as nat) / 2
  }

  /** The first step: ticks that bound the wrap period, or nothing if the shift is undefined. */
  method TicksPerPeriod(mult: nat, shift: nat) returns (defined: bool, raw: nat)
    requires 0 < mult < U32 && shift < U32
    ensures defined <==> shift < U32 - 35 || shift >= U32 - 2
    ensures defined ==> raw == RawDiff(mult, shift)
  {
    ShiftTest(shift);
    if (shift + 2 + ILOG2_UPDATE_NS) % U32 >= 64 {
      return true, U64_MAX / mult / 2;
    }
    var amount := (shift + 2) % U32;
    if amount >= 64 {
      return false, 0;
    }
    ShiftedPeriodFits(amount);
    var shifted := UPDATE_NS * Pow2(amount) % U64;
    assert shifted == UPDATE_NS * Pow2(amount);
    return true, DivRoundUp(shifted, mult);
  }

  /** The shift the code ends up with, in 32 bits. */
  function FinalShift(mult: nat, shift: nat, m: nat): nat
    requires mult > 0 && m > 0
  {
    if Limit(m) / mult >= 2 then (shift + Fls(Limit(m) / mult)) % U32 else shift
  }

  /** Two pairs of multiplier and shift convert ticks at the same rate. */
  ghost predicate SameRatio(mult: nat, shift: nat, mult': nat, shift': nat) {
    mult' * Pow2(shift) == mult * Pow2(shift')
  }

  /** Nothing is scaled, or the raised shift still fits 32 bits. */
  predicate NoWrap(mult: nat, shift: nat, m: nat)
    requires mult > 0 && m > 0
  {
    Limit(m) / mult < 2 || shift + Fls(Limit(m) / mult) < U32
  }

  /** Raising multiplier and shift together keeps their ratio if and only if the shift does not wrap. */
  lemma RatioIff(mult: nat, shift: nat, m: nat)
    requires 0 < mult < U32 && shift < U32 && m >= SCALED_PPM
    ensures FinalMult(mult, m) < U32
    ensures SameRatio(mult, shift, FinalMult(mult, m), FinalShift(mult, shift, m)) <==> NoWrap(mult, shift, m)
    ensures shift < U32 - 35 ==> NoWrap(mult, shift, m)
  {
    if Limit(m) / mult >= 2 {
      ScaledProduct(mult, m);
      ScaledShift(Limit(m), mult, m);
      RaiseIff(mult, shift, Fls(Limit(m) / mult));
    }
  }

  lemma RaiseIff(mult: nat, shift: nat, f: nat)
    requires mult > 0 && shift < U32 && 0 < f <= 28
    ensures SameRatio(mult, shift, mult * Pow2(f), (shift + f) % U32) <==> shift + f < U32
  {
    WrapOnce(shift, f);
    if shift + f < U32 {
      RaisedTogether(mult, shift, f);
    } else {
      WrappedApart(mult, shift, f, shift + f - U32);
    }
  }

  lemma WrapOnce(shift: nat, f: nat)
    requires shift < U32 && f <= 28
    ensures (shift + f) % U32 == if shift + f < U32 then shift + f else shift + f - U32
  {
  }

  lemma RaisedTogether(mult: nat, shift: nat, f: nat)
    ensures mult * Pow2(f) * Pow2(shift) == mult * Pow2(shift + f)
  {
    Pow2Add(shift, f);
    Associate(mult, Pow2(f), Pow2(shift));
  }

  lemma Associate(a: nat, b: nat, c: nat)
    ensures a * b * c == a * (c * b)
  {
  }

  lemma WrappedApart(mult: nat, shift: nat, f: nat, wrapped: nat)
    requires mult > 0 && f > 0 && wrapped <= shift
    ensures mult * Pow2(f) * Pow2(shift) > mult * Pow2(wrapped)
  {
    Pow2Grows(wrapped, shift);
    Pow2Grows(1, f);
    assert Pow2(1) == 2;
    Associate(mult, Pow2(f), Pow2(shift));
    MulLe(2, Pow2(f), Pow2(shift));
    assert Pow2(shift) * Pow2(f) >= 2 * Pow2(shift);
    StrictlyMore(mult, Pow2(wrapped), Pow2(shift) * Pow2(f));
  }

  lemma StrictlyMore(a: nat, b: nat, c: nat)
    requires a > 0 && b < c
    ensures a * b < a * c
  {
  }

  /** A device that reports an empty counter mask is scaled for SCALED_PPM alone. */
  lemma EmptyMask(ticks: bv64)
    ensures Max(HalfDiff(WrapMask(ticks, 0)), SCALED_PPM) == SCALED_PPM
  {
    assert Smear(ticks) & 0 == 0;
  }

  /**
    It does wrap for a device that reports multiplier 1, the largest shift and
    such a mask: the clock then runs at another rate.
   */
  lemma RatioLost()
    ensures FinalMult(1, SCALED_PPM) > 1 && FinalShift(1, U32 - 1, SCALED_PPM) < U32 - 1
    ensures !SameRatio(1, U32 - 1, FinalMult(1, SCALED_PPM), FinalShift(1, U32 - 1, SCALED_PPM))
  {
    LimitExact(SCALED_PPM, 2);
    DivideByOne(Limit(SCALED_PPM));
    ScaledMult(1, Limit(SCALED_PPM));
    ScaledShift(Limit(SCALED_PPM), 1, SCALED_PPM);
    RatioIff(1, U32 - 1, SCALED_PPM);
  }

  /** The last step: raise multiplier and shift together if there is room for a factor of two or more. */
  method Rescale(mult: nat, shift: nat, halfDiff: nat) returns (newMult: nat, newShift: nat)
    requires 0 < mult < U32 && shift < U32
    ensures newMult == FinalMult(mult, Max(halfDiff, SCALED_PPM)) < U32
    ensures newShift == FinalShift(mult, shift, Max(halfDiff, SCALED_PPM))
    ensures SameRatio(mult, shift, newMult, newShift) <==> NoWrap(mult, shift, Max(halfDiff, SCALED_PPM))
  {
    newMult, newShift := mult, shift;
    var m := Max(halfDiff, SCALED_PPM);
    var quotient := U64_MAX / 2 / m / mult;
    if quotient >= 2 {
      newMult := mult * Pow2(Fls(quotient));
      newShift := (shift + Fls(quotient)) % U32;
    }
    RatioIff(mult, shift, m);
  }

  /**
    From the device's mask, multiplier and shift to the ones the clock runs on.
    The outcome is undefined exactly for the shifts whose 32-bit sum wraps into
    the wrong branch; otherwise the ratio of multiplier to 2^shift is kept if
    and only if the raised shift does not wrap, which only the two largest
    device shifts can make it do.
   */
  method ScaleMult(mask: bv64, mult: nat, shift: nat) returns (r: Scaling)
    requires mult < U32 && shift < U32
    ensures r == Disabled <==> mult == 0
    ensures r == Undefined <==> mult != 0 && U32 - 35 <= shift < U32 - 2
    ensures r.Scaled? ==> r.diff == WrapMask(RawDiff(mult, shift) as bv64, mask)
    ensures r.Scaled? ==> r.mult == FinalMult(mult, Max(HalfDiff(r.diff), SCALED_PPM)) < U32
    ensures r.Scaled? ==> r.shift == FinalShift(mult, shift, Max(HalfDiff(r.diff), SCALED_PPM))
    ensures r.Scaled? ==>
              (SameRatio(mult, shift, r.mult, r.shift) <==> NoWrap(mult, shift, Max(HalfDiff(r.diff), SCALED_PPM)))
    ensures r.Scaled? && shift < U32 - 35 ==> SameRatio(mult, shift, r.mult, r.shift)
  {
    if mult == 0 {
      return Disabled;
    }
    var defined, raw := TicksPerPeriod(mult, shift);
    if !defined {
      return Undefined;
    }
    var diff := WrapMask(raw as bv64, mask);
    var newMult, newShift := Rescale(mult, shift, HalfDiff(diff));
    RatioIff(mult, shift, Max(HalfDiff(diff), SCALED_PPM));
    return Scaled(newMult, newShift, diff);
  }

  /** The shift grows by less than 35, so it does not wrap where the test above did not. */
  lemma ScaledShift(limit: nat, mult: nat, m: nat)
    requires m >= SCALED_PPM && limit == Limit(m) && mult > 0
    ensures Fls(limit / mult) <= 28
  {
    LimitSmall(m);
    QuotientSmall(limit, mult);
    Pow2Of28();
    FlsBound(limit / mult, 28);
  }

  lemma Pow2Of28()
    ensures Pow2(28) == 0x1000_0000
  {
    Pow2Add(14, 14);
    assert Pow2(14) == 0x4000;
  }
}
