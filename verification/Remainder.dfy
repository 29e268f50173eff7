/**
 `__ieee754_fmod`: the exact remainder by shift and subtract on two words.
 */
module Remainder {
  import opened Words
  import opened Ieee754

  /** `Undefined` stands for the returned expression (x*y)/(x*y). */
  datatype Result = Rem(z: Double) | Undefined

  // ---------------------------------------------------------------- comparing magnitudes

  lemma ExponentOrder(x: Double, y: Double)
    requires Exponent(x) < Exponent(y)
    ensures Magnitude(x) < Magnitude(y) && Bits(x) < Bits(y)
  {
    BitsFields(x);
    BitsFields(y);
    var ux, uy := UlpExponent(x), UlpExponent(y);
    MulMono(Pow2(uy), IMPLICIT, Significand(y));
    if ux < uy {
      Pow2Monotonic(ux, uy);
      FinerUnit(Significand(x), Pow2(ux), Pow2(uy), IMPLICIT);
    } else {
      assert Exponent(x) == 0;
      MulStrict(Pow2(uy), Significand(x), IMPLICIT);
    }
  }

  /** Finite doubles are ordered as their bit patterns. */
  lemma BitsOrder(x: Double, y: Double)
    ensures Magnitude(x) < Magnitude(y) <==> Bits(x) < Bits(y)
    ensures Magnitude(x) == Magnitude(y) <==> Bits(x) == Bits(y)
  {
    hide Magnitude, Bits;
    if Exponent(x) < Exponent(y) {
      ExponentOrder(x, y);
    } else if Exponent(y) < Exponent(x) {
      ExponentOrder(y, x);
    } else {
      SameExponentOrder(x, y);
    }
  }

  lemma SameExponentOrder(x: Double, y: Double)
    requires Exponent(x) == Exponent(y)
    ensures Magnitude(x) < Magnitude(y) <==> Bits(x) < Bits(y)
    ensures Magnitude(x) == Magnitude(y) <==> Bits(x) == Bits(y)
  {
    SameExponentScale(x, y);
    BitsFields(x);
    BitsFields(y);
    hide Magnitude, Bits, Fraction;
  }

  lemma SameExponentScale(x: Double, y: Double)
    requires Exponent(x) == Exponent(y)
    ensures Magnitude(x) < Magnitude(y) <==> Fraction(x) < Fraction(y)
    ensures Magnitude(x) == Magnitude(y) <==> Fraction(x) == Fraction(y)
  {
    hide Fraction;
    MulStrict(Pow2(UlpExponent(x)), Significand(x), Significand(y));
  }

  // ---------------------------------------------------------------- ilogb

  /** i is the binary exponent of the magnitude mag. */
  predicate IsLog(mag: nat, i: int) {
    -1074 <= i && Pow2(i + 1074) <= mag < Pow2(i + 1075)
  }

  /** Counts the zeros above the leading bit. */
  method CountDown(start: int, w: u32) returns (ix: int)
    requires 0 < w
    ensures 0 <= start - ix <= 31
    ensures TWO31 <= w * Pow2(start - ix) < TWO32
  {
    var i := w;
    ix := start;
    while Signed(i) > 0
      invariant ix <= start && i == w * Pow2(start - ix) && 0 < i
      decreases TWO32 - i
    {
      NextShift(w, start - ix);
      i := Shl(i, 1);
      ix := ix - 1;
    }
    ShiftedBit(w, start - ix);
  }

  lemma NextShift(w: nat, k: nat)
    requires 0 < w * Pow2(k) < TWO31
    ensures Shl(w * Pow2(k), 1) == w * Pow2(k + 1) == 2 * (w * Pow2(k))
  {
    assert Pow2(1) == 2;
    MulAssoc(w, 2, Pow2(k));
  }

  lemma ShiftedBit(w: nat, k: nat)
    requires 0 < w && w * Pow2(k) < TWO32
    ensures k <= 31
  {
    assert Pow2(32) == TWO32 by { Pow2Values(); }
    MulMono(Pow2(k), 1, w);
    if k >= 32 { Pow2Monotonic(32, k); }
  }

  /** A word whose leading bit needs k more shifts to reach the top. */
  lemma LeadingBit(w: nat, k: nat, top: nat)
    requires k <= top && Pow2(top) <= w * Pow2(k) < Pow2(top + 1)
    ensures Pow2(top - k) <= w < Pow2(top + 1 - k)
  {
    hide Pow2;
    Pow2Split(top, k);
    Pow2Split(top + 1, k);
    MulStrict(Pow2(k), Pow2(top - k), w);
    MulStrict(Pow2(k), w, Pow2(top + 1 - k));
  }

  lemma LogOfLow(lo: nat, k: nat)
    requires k <= 31 && TWO31 <= lo * Pow2(k) < TWO32
    ensures IsLog(lo, -1043 - k)
  {
    assert Pow2(31) == TWO31 && Pow2(32) == TWO32 by { Pow2Values(); }
    LeadingBit(lo, k, 31);
  }

  lemma LogOfHigh(hi: nat, lo: u32, k: nat)
    requires 0 < hi < TWO20 && k <= 31 && TWO31 <= (hi * 0x800) * Pow2(k) < TWO32
    ensures IsLog(Join(hi, lo), -1022 - k)
  {
    MulAssoc(hi, 0x800, Pow2(k));
    assert Pow2(20) == TWO20 && Pow2(21) == 2 * TWO20 && Pow2(32) == TWO32 by { Pow2Values(); }
    BitCountAtMost(hi, k);
    LeadingBit(hi, k, 20);
    Pow2Add(20 - k, 32);
    Pow2Add(21 - k, 32);
  }

  lemma BitCountAtMost(hi: nat, k: nat)
    requires 0 < hi && hi * Pow2(k) < 2 * TWO20
    ensures k <= 20
  {
    assert Pow2(21) == 2 * TWO20 by { Pow2Values(); }
    MulMono(Pow2(k), 1, hi);
    if k >= 21 { Pow2Monotonic(21, k); }
  }

  lemma LogOfNormal(x: Double)
    requires Exponent(x) > 0
    ensures IsLog(Magnitude(x), Exponent(x) - 1023)
  {
    hide Magnitude;
    assert Pow2(52) == IMPLICIT by { Pow2Values(); }
    NormalMagnitude(x);
    Pow2Add(52, Exponent(x) - 1);
    MulMono(Pow2(Exponent(x) - 1), IMPLICIT, Significand(x));
    MulStrict(Pow2(Exponent(x) - 1), Significand(x), 2 * IMPLICIT);
    MulAssoc(2, IMPLICIT, Pow2(Exponent(x) - 1));
  }

  lemma NormalMagnitude(x: Double)
    requires Exponent(x) > 0
    ensures IMPLICIT <= Significand(x) < 2 * IMPLICIT
    ensures Magnitude(x) == Significand(x) * Pow2(Exponent(x) - 1)
  {
    MagnitudeFacts(x);
  }

  /** The binary exponent of x, from the words of |x|. */
  method Ilogb(x: Double, hx: u32, lx: u32) returns (ix: int)
    requires hx == x.hi % TWO31 && lx == x.lo && IsFinite(x) && Magnitude(x) > 0
    ensures IsLog(Magnitude(x), ix) && ix <= 1023
    ensures ix >= -1022 <==> Exponent(x) > 0
    ensures Exponent(x) > 0 ==> ix == Exponent(x) - 1023
  {
    HighWordFields(x);
    if hx < 0x0010_0000 {
      if hx == 0 {
        ix := CountDown(-1043, lx);
        LogOfLow(lx, -1043 - ix);
      } else {
        assert Shl(hx, 11) == hx * 0x800 by { Pow2Values(); }
        ix := CountDown(-1022, Shl(hx, 11));
        LogOfHigh(hx, lx, -1022 - ix);
      }
    } else {
      assert Shr(hx, 20) == Exponent(x) by { Pow2Values(); }
      ix := Shr(hx, 20) - 1023;
      LogOfNormal(x);
    }
  }

  // ---------------------------------------------------------------- alignment

  /** [hx,lx] is the 53-bit significand of the magnitude mag, whose exponent is ix. */
  predicate Aligned(mag: nat, h: nat, ix: int) {
    && -1074 <= ix
    && IMPLICIT <= h < 2 * IMPLICIT
    && mag * IMPLICIT == h * Pow2(ix + 1074)
  }

  /** Shifting a subnormal magnitude by n = -1022 - ix puts its leading bit at bit 52. */
  lemma SubnormalShift(mag: nat, n: nat)
    requires n <= 52 && Pow2(52 - n) <= mag < Pow2(53 - n)
    ensures IMPLICIT <= mag * Pow2(n) < 2 * IMPLICIT
    ensures (mag * Pow2(n)) * Pow2(52 - n) == mag * IMPLICIT
  {
    hide Pow2;
    assert Pow2(52) == IMPLICIT && Pow2(53) == 2 * IMPLICIT by { Pow2Values(); }
    Pow2Split(52, n);
    Pow2Split(53, n);
    MulMono(Pow2(n), Pow2(52 - n), mag);
    MulStrict(Pow2(n), mag, Pow2(53 - n));
    MulAssoc(mag, Pow2(n), Pow2(52 - n));
  }

  /** `hx << n | lx >> (32-n)` and `lx << n`, or the same for n >= 32. */
  method ShiftSubnormal(hx: u32, lx: u32, n: nat) returns (h: u32, l: u32)
    requires n <= 52 && Join(hx, lx) * Pow2(n) < 2 * IMPLICIT
    ensures Join(h, l) == Join(hx, lx) * Pow2(n)
  {
    hide Shl, Shr;
    if n <= 31 {
      ShiftFits(hx, lx, n);
      JoinShift(hx, lx, n);
      ShlExact(hx, n);
      h := Or(Shl(hx, n), Shr(lx, 32 - n));
      l := Shl(lx, n);
    } else {
      WideShiftFits(hx, lx, n);
      ShlExact(lx, n - 32);
      h := Shl(lx, n - 32);
      l := 0;
    }
  }

  lemma ShiftFits(hx: nat, lx: u32, n: nat)
    requires n <= 31 && Join(hx, lx) * Pow2(n) < 2 * IMPLICIT
    ensures hx * Pow2(n) < 2 * TWO20 && hx * Pow2(n) + Shr(lx, 32 - n) < TWO32
  {
    JoinShift(hx, lx, n);
  }

  lemma WideShiftFits(hx: nat, lx: u32, n: nat)
    requires 32 <= n && Join(hx, lx) * Pow2(n) < 2 * IMPLICIT
    ensures hx == 0 && lx * Pow2(n - 32) < TWO32
    ensures Join(hx, lx) * Pow2(n) == Join(lx * Pow2(n - 32), 0)
  {
    hide Pow2;
    assert Pow2(32) == TWO32 by { Pow2Values(); }
    JoinScale(hx, lx, Pow2(n));
    Pow2Monotonic(32, n);
    MulStrict(Pow2(n), hx, 1);
    Pow2Split(n, 32);
    MulAssoc(lx, Pow2(n - 32), TWO32);
  }

  /** Sets up the significand of x for the fixed-point loop. */
  method Align(x: Double, hx: u32, lx: u32, ix: int) returns (h: u32, l: u32)
    requires hx == x.hi % TWO31 && lx == x.lo && Magnitude(x) > 0
    requires IsLog(Magnitude(x), ix)
    requires ix >= -1022 <==> Exponent(x) > 0
    requires Exponent(x) > 0 ==> ix == Exponent(x) - 1023
    ensures Aligned(Magnitude(x), Join(h, l), ix)
  {
    HighWordFields(x);
    if ix >= -1022 {
      NormalAligned(x);
      SetImplicit(hx);
      h := Or(0x0010_0000, And(0x000f_ffff, hx));
      l := lx;
    } else {
      SubnormalShift(Magnitude(x), -1022 - ix);
      h, l := ShiftSubnormal(hx, lx, -1022 - ix);
    }
  }

  lemma NormalAligned(x: Double)
    requires Exponent(x) > 0
    ensures Aligned(Magnitude(x), Join(TWO20 + x.hi % TWO20, x.lo), Exponent(x) - 1023)
  {
    NormalMagnitude(x);
    NormalScale(Significand(x), Exponent(x));
  }

  /** A larger magnitude has no smaller exponent. */
  lemma ExponentsOrdered(mx: nat, my: nat, ix: int, iy: int)
    requires IsLog(mx, ix) && IsLog(my, iy) && mx > my
    ensures ix >= iy
  {
    if ix < iy { Pow2Monotonic(ix + 1075, iy + 1074); }
  }

  // ---------------------------------------------------------------- the fixed-point loop

  /** h, shifted n more times, is congruent to the target modulo the divisor d. */
  predicate Congruent(h: nat, n: nat, d: nat, target: nat)
    requires d > 0
  {
    h < 2 * d && (h * Pow2(n)) % d == target
  }

  lemma KeepStep(h: nat, n: nat, d: nat, target: nat)
    requires d > 0 && n > 0 && h < d && Congruent(h, n, d, target)
    ensures Congruent(2 * h, n - 1, d, target)
  {
    MulAssoc(h, 2, Pow2(n - 1));
  }

  lemma SubtractKeeps(h: nat, n: nat, d: nat, target: nat)
    requires d > 0 && d <= h && Congruent(h, n, d, target)
    ensures Congruent(h - d, n, d, target) && h - d < d
    ensures h == d ==> target == 0
  {
    SubtractModulus(h, Pow2(n), d);
    if h == d { ZeroCongruent(n, d); }
  }

  lemma SubtractModulus(h: int, p: int, d: int)
    requires d > 0
    ensures ((h - d) * p) % d == (h * p) % d
  {
    var a, b := h * p, (h - d) * p;
    assert a == b + p * d by { MulSub(h, d, p); }
    ModShift(b, p, d);
  }

  lemma ZeroCongruent(n: nat, d: nat)
    requires d > 0
    ensures ((d - d) * Pow2(n)) % d == 0
  {
    assert (d - d) * Pow2(n) == 0;
  }

  /** The difference of two word pairs, with a signed high word. */
  method Difference(hx: u32, lx: u32, hy: u32, ly: u32) returns (hz: int, lz: u32)
    ensures Join(hz, lz) == Join(hx, lx) - Join(hy, ly)
    ensures hz < 0 <==> Join(hx, lx) < Join(hy, ly)
    ensures hz <= hx
  {
    hz, lz := hx - hy, Wrap(lx - ly);
    if lx < ly { hz := hz - 1; }
    JoinSub(hx, lx, hy, ly);
  }

  /** A word pair shifted left by one. */
  method Twice(h: u32, l: u32) returns (hx: u32, lx: u32)
    requires h < 0x4000_0000
    ensures Join(hx, lx) == 2 * Join(h, l) && hx <= 2 * h + 1
  {
    JoinDouble(h, l);
    hx := h + h + Shr(l, 31);
    lx := Wrap(l + l);
  }

  /** One round of the loop; `zero` is its early return. */
  method Round(h: u32, l: u32, hy: u32, ly: u32, ghost n: nat, ghost target: nat)
    returns (hx: u32, lx: u32, zero: bool)
    requires IMPLICIT <= Join(hy, ly) < 2 * IMPLICIT && n > 0
    requires Congruent(Join(h, l), n, Join(hy, ly), target)
    ensures zero ==> target == 0
    ensures !zero ==> Congruent(Join(hx, lx), n - 1, Join(hy, ly), target)
  {
    ghost var d := Join(hy, ly);
    assert h < 4 * TWO20;
    zero := false;
    var hz, lz := Difference(h, l, hy, ly);
    if hz < 0 {
      KeepStep(Join(h, l), n, d, target);
      hide Congruent;
      hx, lx := Twice(h, l);
    } else {
      SubtractKeeps(Join(h, l), n, d, target);
      KeepStep(Join(h, l) - d, n, d, target);
      hide Congruent;
      OrIsZero(hz, lz);
      if Or(hz, lz) == 0 { return h, l, true; }
      hx, lx := Twice(hz, lz);
    }
  }

  /** The shift-subtract loop and the final subtraction. */
  method ShiftSubtract(h: u32, l: u32, hy: u32, ly: u32, shifts: nat) returns (hx: u32, lx: u32, zero: bool)
    requires IMPLICIT <= Join(h, l) < 2 * IMPLICIT && IMPLICIT <= Join(hy, ly) < 2 * IMPLICIT
    ensures var target := (Join(h, l) * Pow2(shifts)) % Join(hy, ly);
            if zero then target == 0 else Join(hx, lx) == target
  {
    ghost var d := Join(hy, ly);
    ghost var target := (Join(h, l) * Pow2(shifts)) % d;
    var n := shifts;
    hx, lx := h, l;
    while n > 0
      invariant Congruent(Join(hx, lx), n, d, target)
    {
      hx, lx, zero := Round(hx, lx, hy, ly, n, target);
      if zero { return; }
      n := n - 1;
    }
    zero := false;
    var hz, lz := Difference(hx, lx, hy, ly);
    if hz >= 0 {
      SubtractKeeps(Join(hx, lx), 0, d, target);
      hx, lx := hz, lz;
    }
    SmallRemainder(Join(hx, lx), d, target);
  }

  lemma SmallRemainder(h: nat, d: nat, target: nat)
    requires d > 0 && h < d && Congruent(h, 0, d, target)
    ensures h == target
  {
  }

  // ---------------------------------------------------------------- re-packing

  /** Moves the remainder s back to a 53-bit significand, lowering the exponent. */
  method Renormalize(h: u32, l: u32, start: int, ghost s: nat) returns (hx: u32, lx: u32, iy: int)
    requires 0 < Join(h, l) < 2 * IMPLICIT && -1074 <= start <= 1023
    requires s * IMPLICIT == Join(h, l) * Pow2(start + 1074)
    ensures Aligned(s, Join(hx, lx), iy) && iy <= start
  {
    hx, lx, iy := h, l, start;
    while hx < 0x0010_0000
      invariant 0 < Join(hx, lx) < 2 * IMPLICIT && -1074 <= iy <= start
      invariant s * IMPLICIT == Join(hx, lx) * Pow2(iy + 1074)
      decreases iy + 1074
    {
      LowerExponent(s, Join(hx, lx), iy);
      hx, lx := Twice(hx, lx);
      iy := iy - 1;
    }
  }

  lemma LowerExponent(s: nat, h: nat, iy: int)
    requires 0 < h < IMPLICIT && -1074 <= iy && s * IMPLICIT == h * Pow2(iy + 1074)
    ensures -1074 <= iy - 1 && s * IMPLICIT == (2 * h) * Pow2(iy - 1 + 1074)
  {
    if iy == -1074 {
      MulStrict(IMPLICIT, 0, s);
      MulMono(IMPLICIT, 1, s);
    } else {
      MulAssoc(h, 2, Pow2(iy - 1 + 1074));
    }
  }

  /** Cancelling the fixed point: an aligned magnitude in a normal binade ... */
  lemma AlignedNormal(s: nat, h: nat, iy: int)
    requires Aligned(s, h, iy) && iy >= -1022
    ensures s == h * Pow2(iy + 1022)
  {
    hide Pow2;
    assert Pow2(52) == IMPLICIT by { Pow2Values(); }
    ShiftTwice(h, iy + 1022, 52);
    MulStrict(IMPLICIT, s, h * Pow2(iy + 1022));
  }

  /** ... and below it, where shifting back by n drops only zeros. */
  lemma AlignedSubnormal(s: nat, h: nat, iy: int)
    requires Aligned(s, h, iy) && iy < -1022
    ensures var n := -1022 - iy; 1 <= n <= 52 && h == s * Pow2(n) && s < IMPLICIT
  {
    hide Pow2;
    var n := -1022 - iy;
    assert Pow2(52) == IMPLICIT by { Pow2Values(); }
    Pow2Split(52, n);
    MulAssoc(s, Pow2(n), Pow2(52 - n));
    CancelFactor(Pow2(52 - n), h, s * Pow2(n));
    HalfOf(s, n, h);
  }

  lemma CancelFactor(c: nat, a: nat, b: nat)
    requires c > 0 && a * c == b * c
    ensures a == b
  {
    MulStrict(c, a, b);
  }

  lemma HalfOf(s: nat, n: nat, h: nat)
    requires n >= 1 && h == s * Pow2(n)
    ensures 2 * s <= h
  {
    MulMono(s, 2, Pow2(n));
  }

  /** `hx - 0x00100000 | (iy+1023) << 20`, then the sign. */
  method PackNormal(hx: u32, lx: u32, iy: int, sx: u32, ghost s: nat) returns (z: Double)
    requires Aligned(s, Join(hx, lx), iy) && -1022 <= iy <= 1023 && (sx == 0 || sx == TWO31)
    ensures IsFinite(z) && Magnitude(z) == s && (Negative(z) <==> sx == TWO31)
  {
    hide Pow2;
    AlignedNormal(s, Join(hx, lx), iy);
    var e := iy + 1023;
    PackMagnitude(sx == TWO31, e, Join(hx, lx));
    PackedWords(hx, lx, e, sx == TWO31);
    hide Aligned, Magnitude, Pack;
    OrFields(hx - 0x0010_0000, e, sx);
    ExponentShift(e);
    hide Shl, Or;
    var w := Or(hx - 0x0010_0000, Shl(e, 20));
    z := Double(Or(w, sx), lx);
  }

  lemma ExponentShift(e: nat)
    requires e < 0x800
    ensures Shl(e, 20) == e * TWO20
  {
    assert Pow2(20) == TWO20 by { Pow2Values(); }
  }

  lemma PackedWords(hx: u32, lx: u32, e: nat, negative: bool)
    requires IMPLICIT <= Join(hx, lx) < 2 * IMPLICIT && e < 0x7ff
    ensures 0 <= hx - TWO20 < TWO20
    ensures Pack(negative, e, Join(hx, lx) - IMPLICIT)
            == Double(hx - TWO20 + e * TWO20 + (if negative then TWO31 else 0), lx)
  {
    DivUnique(Join(hx, lx) - IMPLICIT, TWO32, hx - TWO20);
  }

  /** Fraction, exponent and sign occupy separate bits of the high word. */
  lemma OrFields(f: nat, e: nat, sx: nat)
    requires f < TWO20 && e < 0x800 && (sx == 0 || sx == TWO31)
    ensures Or(f, e * TWO20) == f + e * TWO20
    ensures Or(f + e * TWO20, sx) == f + e * TWO20 + sx
  {
    hide Or;
    assert Pow2(20) == TWO20 && Pow2(31) == TWO31 by { Pow2Values(); }
    ModShift(0, e, TWO20);
    OrDisjoint(e * TWO20, f, 20);
    OrComm(f, e * TWO20);
    OrDisjoint(sx, f + e * TWO20, 31);
    OrComm(f + e * TWO20, sx);
  }

  /** Shifting a pair right by n <= 31 moves the low bits of hx into lx. */
  lemma JoinShr(hx: nat, lx: u32, n: nat, s: nat)
    requires 1 <= n <= 31 && Join(hx, lx) == s * Pow2(n)
    ensures lx / Pow2(n) < Pow2(32 - n)
    ensures 0 <= (hx % Pow2(n)) * Pow2(32 - n) + lx / Pow2(n) < TWO32
    ensures s == Join(hx / Pow2(n), (hx % Pow2(n)) * Pow2(32 - n) + lx / Pow2(n))
  {
    hide Pow2, Join;
    assert Pow2(32 - n) * Pow2(n) == TWO32 by { Pow2Split(32, n); Pow2Values(); }
    JoinShrWords(hx, lx, Pow2(n), Pow2(32 - n), s);
  }

  lemma JoinShrWords(hx: nat, lx: u32, p: nat, c: nat, s: nat)
    requires p > 0 && c * p == TWO32 && Join(hx, lx) == s * p
    ensures lx / p < c
    ensures 0 <= (hx % p) * c + lx / p < TWO32
    ensures s == Join(hx / p, (hx % p) * c + lx / p)
  {
    LowQuotient(hx, lx, p, c, s);
    HighQuotient(hx, p, c);
    LowWordRoom(hx % p, lx / p, p, c, lx);
  }

  lemma LowWordRoom(b: nat, u: nat, p: nat, c: nat, lx: u32)
    requires b < p && c * p == TWO32 && lx == p * u
    ensures u < c && 0 <= b * c + u < TWO32
  {
    MulStrict(p, u, c);
    MulStrict(c, b, p);
    MultipleRoom(b, p, c, u);
  }

  lemma LowQuotient(hx: nat, lx: nat, p: nat, c: nat, s: nat)
    requires p > 0 && c * p == TWO32 && hx * TWO32 + lx == s * p
    ensures s == hx * c + lx / p && lx == p * (lx / p)
  {
    MulAssoc(hx, c, p);
    MulSub(s, hx * c, p);
    DivUnique(lx, p, s - hx * c);
  }

  lemma HighQuotient(hx: nat, p: nat, c: nat)
    requires p > 0 && c * p == TWO32
    ensures hx * c == (hx / p) * TWO32 + (hx % p) * c
  {
    var a, b := hx / p, hx % p;
    assert hx == a * p + b;
    MulAssoc(a, p, c);
    assert (a * p + b) * c == (a * p) * c + b * c;
  }

  /** n <= 20: both words hold result bits; n <= 31: the high word is empty. */
  method ShiftDown(hx: u32, lx: u32, n: nat, ghost s: nat) returns (h: u32, l: u32)
    requires 1 <= n <= 52 && hx < 2 * TWO20 && Join(hx, lx) == s * Pow2(n)
    ensures Join(h, l) == s
  {
    if n <= 31 {
      JoinShr(hx, lx, n, s);
      LowWordOr(hx, lx, n);
      if n > 20 { EmptyHigh(hx, n); }
      hide Shl, Or;
      if n <= 20 {
        l := Or(Shr(lx, n), Shl(hx, 32 - n));
        h := Shr(hx, n);
      } else {
        l := Or(Shl(hx, 32 - n), Shr(lx, n));
        h := 0;
      }
    } else {
      WideShiftDown(hx, lx, n, s);
      l := Shr(hx, n - 32);
      h := 0;
    }
  }

  lemma EmptyHigh(hx: nat, n: nat)
    requires hx < 2 * TWO20 && n >= 21
    ensures hx / Pow2(n) == 0
  {
    assert Pow2(21) == 2 * TWO20 by { Pow2Values(); }
    Pow2Monotonic(21, n);
    DivUnique(hx, Pow2(n), 0);
  }

  lemma LowWordOr(hx: u32, lx: u32, n: nat)
    requires 1 <= n <= 31 && lx / Pow2(n) < Pow2(32 - n)
    ensures Shl(hx, 32 - n) == (hx % Pow2(n)) * Pow2(32 - n)
    ensures Or(Shr(lx, n), Shl(hx, 32 - n)) == (hx % Pow2(n)) * Pow2(32 - n) + lx / Pow2(n)
    ensures Or(Shl(hx, 32 - n), Shr(lx, n)) == (hx % Pow2(n)) * Pow2(32 - n) + lx / Pow2(n)
  {
    hide Pow2;
    ShlLow(hx, n);
    JoinShiftOr(hx % Pow2(n), lx / Pow2(n), 32 - n);
    OrComm((hx % Pow2(n)) * Pow2(32 - n), lx / Pow2(n));
    hide Or, Shl;
  }

  /** Shifting left by 32-n keeps the low n bits. */
  lemma ShlLow(hx: u32, n: nat)
    requires 1 <= n <= 31
    ensures Shl(hx, 32 - n) == (hx % Pow2(n)) * Pow2(32 - n)
  {
    hide Pow2;
    assert Pow2(n) * Pow2(32 - n) == TWO32 by { Pow2Split(32, n); Pow2Values(); }
    DivModScale(hx, Pow2(n), Pow2(32 - n));
  }

  lemma WideShiftDown(hx: nat, lx: u32, n: nat, s: nat)
    requires 32 <= n && Join(hx, lx) == s * Pow2(n)
    ensures s == hx / Pow2(n - 32)
  {
    hide Pow2;
    assert Pow2(32) == TWO32 by { Pow2Values(); }
    Pow2Split(n, 32);
    var p := Pow2(n - 32);
    MulAssoc(s, p, TWO32);
    assert hx == s * p && lx == 0 by { ModShift(lx, hx - s * p, TWO32); }
    DivUnique(hx, p, s);
  }

  /** The subnormal output: the significand shifts back by n = -1022 - iy. */
  method PackSubnormal(hx: u32, lx: u32, iy: int, sx: u32, ghost s: nat) returns (z: Double)
    requires Aligned(s, Join(hx, lx), iy) && iy < -1022 && (sx == 0 || sx == TWO31)
    ensures IsFinite(z) && Magnitude(z) == s && (Negative(z) <==> sx == TWO31)
  {
    AlignedSubnormal(s, Join(hx, lx), iy);
    HighWordSmall(hx, lx);
    hide Aligned, Or;
    var h, l := ShiftDown(hx, lx, -1022 - iy, s);
    OrFields(h, 0, sx);
    z := Double(Or(h, sx), l);
    SubnormalValue(h, l, sx);
  }

  lemma HighWordSmall(hx: nat, lx: u32)
    requires Join(hx, lx) < 2 * IMPLICIT
    ensures hx < 2 * TWO20
  {
  }

  lemma SubnormalValue(h: u32, l: u32, sx: u32)
    requires Join(h, l) < IMPLICIT && (sx == 0 || sx == TWO31)
    ensures var z := Double(h + sx, l);
            IsFinite(z) && Magnitude(z) == Join(h, l) && (Negative(z) <==> sx == TWO31)
  {
  }

  // ---------------------------------------------------------------- the method

  /** The remainders of the aligned significands and of the doubles agree. */
  lemma RemainderScale(mx: nat, my: nat, hx: nat, hy: nat, ix: int, iy: int)
    requires Aligned(mx, hx, ix) && Aligned(my, hy, iy) && ix >= iy && my > 0
    ensures (mx % my) * IMPLICIT == ((hx * Pow2(ix - iy)) % hy) * Pow2(iy + 1074)
  {
    hide Pow2;
    ShiftTwice(hx, ix - iy, iy + 1074);
    DivModScale(mx, my, IMPLICIT);
    DivModScale(hx * Pow2(ix - iy), hy, Pow2(iy + 1074));
  }

  /** The path where |x| > |y| > 0: alignment, loop, re-packing. */
  method Reduce(x: Double, y: Double, x0: u32, x1: u32, y0: u32, y1: u32, sx: u32) returns (z: Double)
    requires IsFinite(x) && IsFinite(y) && 0 < Magnitude(y) < Magnitude(x)
    requires x0 == x.hi % TWO31 && x1 == x.lo && y0 == y.hi % TWO31 && y1 == y.lo
    requires sx == 0 || sx == TWO31
    ensures IsFinite(z) && (Negative(z) <==> sx == TWO31)
    ensures Magnitude(z) == Magnitude(x) % Magnitude(y)
  {
    hide Magnitude;
    ghost var s := Magnitude(x) % Magnitude(y);
    var ix := Ilogb(x, x0, x1);
    var iy := Ilogb(y, y0, y1);
    var hx, lx := Align(x, x0, x1, ix);
    var hy, ly := Align(y, y0, y1, iy);
    ExponentsOrdered(Magnitude(x), Magnitude(y), ix, iy);
    RemainderScale(Magnitude(x), Magnitude(y), Join(hx, lx), Join(hy, ly), ix, iy);
    var zero;
    hx, lx, zero := ShiftSubtract(hx, lx, hy, ly, ix - iy);
    OrIsZero(hx, lx);
    if zero || Or(hx, lx) == 0 {
      ZeroIsZero(sx == TWO31);
      return Zero(sx == TWO31);
    }
    hx, lx, iy := Renormalize(hx, lx, iy, s);
    if iy >= -1022 {
      z := PackNormal(hx, lx, iy, sx, s);
    } else {
      z := PackSubnormal(hx, lx, iy, sx, s);
    }
  }

  lemma SignAndMagnitude(x: Double)
    ensures And(x.hi, 0x8000_0000) == if Negative(x) then TWO31 else 0
    ensures Xor(x.hi, And(x.hi, 0x8000_0000)) == x.hi % TWO31 == And(x.hi, 0x7fff_ffff)
    ensures Shr(And(x.hi, 0x8000_0000), 31) == 1 <==> Negative(x)
  {
    hide And, Xor, Or;
    TopBit(x.hi);
    assert Pow2(31) == TWO31 by { Pow2Values(); }
    XorClear(x.hi, 31);
    MagnitudeMask(x.hi);
  }

  lemma ExponentTest(x: Double)
    ensures x.hi % TWO31 >= 0x7ff0_0000 <==> !IsFinite(x)
    ensures x.hi % TWO31 > 0x7ff0_0000 || (x.hi % TWO31 == 0x7ff0_0000 && x.lo != 0) <==> IsNaN(x)
  {
    HighWordFields(x);
  }

  lemma ZeroTest(x: Double)
    ensures Or(x.hi % TWO31, x.lo) == 0 <==> Magnitude(x) == 0
  {
    hide Or;
    OrIsZero(x.hi % TWO31, x.lo);
    MagnitudeFacts(x);
  }

  /** `(ly | -ly) >> 31` is 1 exactly for ly != 0. */
  lemma NonzeroBit(lo: u32)
    ensures Or(lo, Wrap(TWO32 - lo)) < TWO32
    ensures Shr(Or(lo, Wrap(TWO32 - lo)), 31) == Bit(lo != 0)
  {
    hide And, Or;
    var m := Wrap(TWO32 - lo);
    assert Pow2(32) == TWO32 by { Pow2Values(); }
    OrBound(lo, m, 32);
    OrAtLeast(lo, m);
    OrIsZero(lo, m);
    TopBit(Or(lo, m));
  }

  /** `(hy | (ly|-ly) >> 31) > 0x7ff00000` detects a NaN. */
  lemma NanTest(y: Double)
    ensures Or(y.hi % TWO31, Bit(y.lo != 0)) > 0x7ff0_0000 <==> IsNaN(y)
  {
    hide Or;
    ExponentTest(y);
    OrLowBit(y.hi % TWO31, Bit(y.lo != 0));
  }

  lemma SmallerDividend(mx: nat, my: nat)
    requires mx < my
    ensures mx % my == mx
  {
  }

  /** `__ieee754_fmod` (section 7.12.10.1 of C99): x minus an integral multiple of y,
      with the sign of x and magnitude less than that of y, and exact. */
  method Fmod(x: Double, y: Double) returns (r: Result)
    ensures r.Undefined? <==> Magnitude(y) == 0 || !IsFinite(x) || IsNaN(y)
    ensures IsFinite(x) && IsInfinite(y) ==> r == Rem(x)
    ensures IsFinite(x) && IsFinite(y) && Magnitude(y) > 0
            ==> r.Rem? && IsFinite(r.z) && (Negative(r.z) <==> Negative(x))
                && Magnitude(r.z) == Magnitude(x) % Magnitude(y)
  {
    SignAndMagnitude(x);
    SignAndMagnitude(y);
    ExponentTest(x);
    ExponentTest(y);
    ZeroTest(y);
    NanTest(y);
    NonzeroBit(y.lo);
    BitsOrder(x, y);
    hide Magnitude, And, Or, Xor, Shr, Wrap;
    var sx := And(x.hi, 0x8000_0000);
    var hx, lx := Xor(x.hi, sx), x.lo;
    var hy, ly := And(y.hi, 0x7fff_ffff), y.lo;
    if Or(hy, ly) == 0 || hx >= 0x7ff0_0000
       || Or(hy, Shr(Or(ly, Wrap(TWO32 - ly)), 31)) > 0x7ff0_0000 {
      return Undefined;
    }
    if hx <= hy {
      if hx < hy || lx < ly {
        SmallerDividend(Magnitude(x), Magnitude(y));
        return Rem(x);
      }
      if lx == ly {
        ZeroIsZero(Shr(sx, 31) == 1);
        return Rem(Zero(Shr(sx, 31) == 1));
      }
    }
    var z := Reduce(x, y, hx, lx, hy, ly, sx);
    return Rem(z);
  }

  /** The contract of `Fmod` is the one of C99: the result is x - n*y for an integer n. */
  lemma RemainderIsC99(x: Double, y: Double, z: Double)
    requires Magnitude(y) > 0 && Magnitude(z) == Magnitude(x) % Magnitude(y)
    requires Negative(z) == Negative(x)
    ensures exists n: int :: Scaled(z) == Scaled(x) - n * Scaled(y)
    ensures Magnitude(z) < Magnitude(y)
  {
    hide Magnitude;
    var mx: int, my: int := Magnitude(x), Magnitude(y);
    var q := mx / my;
    var n := if Negative(x) == Negative(y) then q else -q;
    SignedQuotient(mx, my, q, Negative(x), Negative(y));
    assert Magnitude(z) == mx - q * my;
    assert Scaled(z) == Scaled(x) - n * Scaled(y);
  }

  lemma SignedQuotient(mx: int, my: int, q: int, nx: bool, ny: bool)
    ensures (if nx then -mx else mx) - (if nx == ny then q else -q) * (if ny then -my else my)
            == if nx then -(mx - q * my) else mx - q * my
  {
    assert (-q) * (-my) == q * my;
    assert (-q) * my == -(q * my);
    assert q * (-my) == -(q * my);
  }
}
