/**
 Double-precision numbers as pairs of words, the view the sources take through
 `__HI` and `__LO` (binary64, section 3.4 of IEEE 754-2008).

 Every finite double is a whole number of quanta of 2^-1074, so the value of a
 double is the integer `Scaled(x)`: x stands for Scaled(x) * 2^-1074.  All the
 specifications of this project are therefore statements about integers.
 */
module Ieee754 {
  import opened Words

  datatype Double = Double(hi: u32, lo: u32)

  const IMPLICIT: int := 0x10_0000_0000_0000  // 2^52
  const TWO20: int := 0x10_0000

  function Join(hi: int, lo: int): int {
    hi * TWO32 + lo
  }

  predicate Negative(x: Double) {
    x.hi >= TWO31
  }

  function Exponent(x: Double): nat {
    (x.hi / TWO20) % 0x800
  }

  function Fraction(x: Double): nat {
    Join(x.hi % TWO20, x.lo)
  }

  predicate IsFinite(x: Double) {
    Exponent(x) != 0x7ff
  }

  predicate IsNaN(x: Double) {
    Exponent(x) == 0x7ff && Fraction(x) != 0
  }

  predicate IsInfinite(x: Double) {
    Exponent(x) == 0x7ff && Fraction(x) == 0
  }

  /** The integral significand, with the implicit bit of a normal number. */
  function Significand(x: Double): nat {
    if Exponent(x) == 0 then Fraction(x) else IMPLICIT + Fraction(x)
  }

  /** The weight of the last significand bit is 2^UlpExponent(x) quanta. */
  function UlpExponent(x: Double): nat {
    if Exponent(x) == 0 then 0 else Exponent(x) - 1
  }

  /** |x|, in quanta. */
  function Magnitude(x: Double): nat {
    Significand(x) * Pow2(UlpExponent(x))
  }

  /** x, in quanta. */
  function Scaled(x: Double): int {
    var m: int := Magnitude(x);
    if Negative(x) then -m else m
  }

  /** 1.0, in quanta. */
  function One(): (one: nat)
    ensures one > 0
  {
    Pow2(1074)
  }

  /** The double with the given sign, biased exponent and fraction. */
  function Pack(negative: bool, e: nat, f: nat): Double
    requires e <= 0x7ff && f < IMPLICIT
  {
    PackHighFits(negative, e, f);
    Double(Bit(negative) * TWO31 + e * TWO20 + f / TWO32, f % TWO32)
  }

  function Zero(negative: bool): Double {
    Double(if negative then TWO31 else 0, 0)
  }

  lemma PackHighFits(negative: bool, e: nat, f: nat)
    requires e <= 0x7ff && f < IMPLICIT
    ensures 0 <= f / TWO32 < TWO20
    ensures Bit(negative) * TWO31 + e * TWO20 + f / TWO32 < TWO32
  {
  }

  lemma PackFields(negative: bool, e: nat, f: nat)
    requires e <= 0x7ff && f < IMPLICIT
    ensures var x := Pack(negative, e, f);
            Negative(x) == negative && Exponent(x) == e && Fraction(x) == f
  {
    PackHighFits(negative, e, f);
  }

  /** The two words of a double are its sign, exponent and fraction. */
  lemma WordFields(x: Double)
    ensures x == Pack(Negative(x), Exponent(x), Fraction(x))
    ensures x.hi == Bit(Negative(x)) * TWO31 + Exponent(x) * TWO20 + x.hi % TWO20
    ensures Fraction(x) < IMPLICIT
  {
    var low := x.hi % TWO31;
    assert low == (low / TWO20) * TWO20 + low % TWO20;
    PackHighFits(Negative(x), Exponent(x), Fraction(x));
  }

  lemma MagnitudeFacts(x: Double)
    ensures Significand(x) < 2 * IMPLICIT
    ensures Significand(x) >= IMPLICIT || UlpExponent(x) == 0
    ensures Magnitude(x) == 0 <==> Significand(x) == 0
    ensures Magnitude(x) == 0 <==> x.hi % TWO31 == 0 && x.lo == 0
  {
    WordFields(x);
    MulStrict(Pow2(UlpExponent(x)), 0, Significand(x));
  }

  /** A normal magnitude is determined by its significand and exponent. */
  lemma PackMagnitude(negative: bool, e: nat, h: nat)
    requires 1 <= e < 0x7ff && IMPLICIT <= h < 2 * IMPLICIT
    ensures var x := Pack(negative, e, h - IMPLICIT);
            Negative(x) == negative && IsFinite(x) && Exponent(x) == e
            && Significand(x) == h && Magnitude(x) == h * Pow2(e - 1)
  {
    PackFields(negative, e, h - IMPLICIT);
  }

  /** Multiples of a unit are at least a unit apart. */
  lemma UnitGap(m: nat, c: nat, p: nat, h: nat)
    requires p > 0
    ensures m * (c * p) > h * p ==> m * (c * p) >= (h + 1) * p
    ensures h > 0 && m * (c * p) < h * p ==> m * (c * p) <= (h - 1) * p
  {
    MulAssoc(m, c, p);
    MulStrict(p, h, m * c);
    MulStrict(p, h + 1, m * c);
    MulStrict(p, m * c, h - 1);
  }

  /** A significand with a finer unit stays below the binade. */
  lemma FinerUnit(m: nat, v: nat, p: nat, top: nat)
    requires m < 2 * top && 0 < v && 2 * v <= p
    ensures m * v < top * p
  {
    MulStrict(v, m, 2 * top);
    MulMono(top, 2 * v, p);
    MulAssoc(top, 2, v);
  }

  /** No double lies strictly between h and h+1 units of a normal binade. */
  lemma GapAbove(y: Double, h: nat, k: nat)
    requires IMPLICIT <= h < 2 * IMPLICIT
    requires Magnitude(y) > h * Pow2(k)
    ensures Magnitude(y) >= (h + 1) * Pow2(k)
  {
    hide Pow2;
    MagnitudeFacts(y);
    var u := UlpExponent(y);
    if u >= k {
      Pow2Add(u - k, k);
      UnitGap(Significand(y), Pow2(u - k), Pow2(k), h);
    } else {
      Pow2Monotonic(u, k);
      FinerUnit(Significand(y), Pow2(u), Pow2(k), IMPLICIT);
      MulMono(Pow2(k), IMPLICIT, h);
      assert false;
    }
  }

  /** ... nor between h-1 and h, unless h starts the binade. */
  lemma GapBelow(y: Double, h: nat, k: nat)
    requires IMPLICIT < h < 2 * IMPLICIT
    requires Magnitude(y) < h * Pow2(k)
    ensures Magnitude(y) <= (h - 1) * Pow2(k)
  {
    hide Pow2;
    MagnitudeFacts(y);
    var u := UlpExponent(y);
    if u >= k {
      Pow2Add(u - k, k);
      UnitGap(Significand(y), Pow2(u - k), Pow2(k), h);
    } else {
      Pow2Monotonic(u, k);
      FinerUnit(Significand(y), Pow2(u), Pow2(k), IMPLICIT);
      MulMono(Pow2(k), IMPLICIT, h - 1);
    }
  }

  // ---------------------------------------------------------------- word-pair arithmetic

  /** Doubling a word pair moves the top bit of the low word up. */
  lemma JoinDouble(hi: nat, lo: u32)
    ensures Shr(lo, 31) == Shr(And(lo, TWO31), 31) == lo / TWO31
    ensures Join(hi + hi + Shr(lo, 31), Wrap(lo + lo)) == 2 * Join(hi, lo)
  {
    hide And;
    TopBit(lo);
  }

  lemma SplitShift(lo: u32, p: nat, c: nat)
    requires p > 0 && c > 0 && c * p == TWO32
    ensures lo / c < p
    ensures lo * p == (lo / c) * TWO32 + (lo * p) % TWO32
  {
    DivModScale(lo, c, p);
    MulStrict(c, lo / c, p);
  }

  lemma JoinScale(hi: nat, lo: nat, p: nat)
    ensures Join(hi, lo) * p == (hi * p) * TWO32 + lo * p
  {
  }

  /** `hi << n | lo >> (32-n)` above `lo << n` shifts the pair; for n = 0 the right
      shift by 32 gives 0, as on the target. */
  lemma JoinShift(hi: nat, lo: u32, n: nat)
    requires n <= 32
    ensures Or(hi * Pow2(n), Shr(lo, 32 - n)) == hi * Pow2(n) + Shr(lo, 32 - n)
    ensures Shr(lo, 32 - n) < Pow2(n)
    ensures Join(hi * Pow2(n) + Shr(lo, 32 - n), Shl(lo, n)) == Join(hi, lo) * Pow2(n)
  {
    hide Or, Pow2;
    assert Pow2(32 - n) * Pow2(n) == TWO32 by { Pow2Split(32, n); Pow2Values(); }
    SplitShift(lo, Pow2(n), Pow2(32 - n));
    JoinShiftSum(hi, lo, Pow2(n), Pow2(32 - n));
    JoinShiftOr(hi, Shr(lo, 32 - n), n);
  }

  lemma JoinShiftSum(hi: nat, lo: u32, p: nat, c: nat)
    requires p > 0 && c > 0 && lo * p == (lo / c) * TWO32 + (lo * p) % TWO32
    ensures Join(hi * p + lo / c, (lo * p) % TWO32) == Join(hi, lo) * p
  {
    JoinScale(hi, lo, p);
  }

  lemma JoinShiftOr(hi: nat, t: nat, n: nat)
    requires t < Pow2(n)
    ensures Or(hi * Pow2(n), t) == hi * Pow2(n) + t
  {
    ModShift(0, hi, Pow2(n));
    OrDisjoint(hi * Pow2(n), t, n);
  }

  /** Subtraction of word pairs with a borrow. */
  lemma JoinSub(hi: int, lo: u32, yhi: int, ylo: u32)
    ensures Join(hi - yhi - Bit(lo < ylo), Wrap(lo - ylo)) == Join(hi, lo) - Join(yhi, ylo)
  {
  }

  lemma TestBit20(w: u32)
    requires w < 2 * TWO20
    ensures And(w, 0x0010_0000) == 0 <==> w < TWO20
  {
    hide And, Pow2;
    Pow2Values();
    AndMask(w, 1, 20);
  }

  /** `w & 0x000fffff | 0x00100000` puts the implicit bit above the fraction. */
  lemma SetImplicit(w: u32)
    ensures And(w, 0x000f_ffff) == w % TWO20
    ensures Or(And(w, 0x000f_ffff), 0x0010_0000) == TWO20 + w % TWO20
    ensures Or(0x0010_0000, And(0x000f_ffff, w)) == TWO20 + w % TWO20
  {
    hide And, Or, Pow2;
    Pow2Values();
    AndLow(w, 20);
    AndComm(w, 0x000f_ffff);
    OrDisjoint(TWO20, w % TWO20, 20);
    OrComm(w % TWO20, TWO20);
  }

  lemma ExponentMask(x: Double)
    ensures And(x.hi, 0x7ff0_0000) == Exponent(x) * TWO20
  {
    hide And, Pow2;
    assert Pow2(11) == 0x800 && Pow2(20) == TWO20 by { Pow2Values(); }
    AndMask(x.hi, 11, 20);
    assert Mask(11, 20) == 0x7ff0_0000;
    assert Field(x.hi, 11, 20) == Exponent(x);
  }

  lemma MagnitudeMask(w: u32)
    ensures And(w, 0x7fff_ffff) == w % TWO31
  {
    hide And;
    assert Pow2(31) == TWO31 by { Pow2Values(); }
    AndLow(w, 31);
  }

  lemma ShiftTwice(mag: nat, s: nat, i: nat)
    ensures (mag * Pow2(s)) * Pow2(i) == mag * Pow2(s + i)
  {
    Pow2Add(s, i);
    MulAssoc(mag, Pow2(s), Pow2(i));
  }

  lemma NormalScale(h: nat, m: nat)
    requires m > 0
    ensures (h * Pow2(m - 1)) * IMPLICIT == h * Pow2(m + 51)
  {
    assert Pow2(52) == IMPLICIT by { Pow2Values(); }
    ShiftTwice(h, m - 1, 52);
  }

  /** Doubles a word pair, as the square root does. */
  method DoubleWords(h0: u32, h1: u32) returns (ix0: u32, ix1: u32)
    requires h0 < 0x4000_0000
    ensures Join(ix0, ix1) == 2 * Join(h0, h1)
  {
    JoinDouble(h0, h1);
    ix0 := h0 + h0 + Shr(And(h1, 0x8000_0000), 31);
    ix1 := Wrap(h1 + h1);
  }

  /** |x| read as the integer its bits denote. */
  function Bits(x: Double): nat {
    Join(x.hi % TWO31, x.lo)
  }

  lemma BitsFields(x: Double)
    ensures Bits(x) == Exponent(x) * IMPLICIT + Fraction(x)
    ensures Fraction(x) < IMPLICIT
  {
    WordFields(x);
  }

  lemma HighWordFields(x: Double)
    ensures var hx := x.hi % TWO31;
            hx / TWO20 == Exponent(x) && hx % TWO20 == x.hi % TWO20
            && (hx < TWO20 <==> Exponent(x) == 0)
    ensures Exponent(x) == 0 ==> Magnitude(x) == Join(x.hi % TWO31, x.lo)
  {
    WordFields(x);
  }

  lemma ZeroIsZero(negative: bool)
    ensures var z := Zero(negative);
            Magnitude(z) == 0 && IsFinite(z) && Negative(z) == negative
  {
  }
}
