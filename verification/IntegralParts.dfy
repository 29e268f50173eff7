/**
 `floor`, `ceil`, `modf` and the integer test of `__ieee754_pow`.

 All four clear or test the k = 1075 - e low bits of the pattern of a double whose
 last place weighs 2^(e-1) quanta: those bits are exactly its fraction part.
 */
module IntegralParts {
  import opened Words
  import opened Ieee754

  // ---------------------------------------------------------------- patterns and values

  /** The magnitude with pattern b. */
  function BitsMagnitude(b: nat): nat {
    if b / IMPLICIT == 0 then b else (IMPLICIT + b % IMPLICIT) * Pow2(b / IMPLICIT - 1)
  }

  lemma BitsValue(x: Double)
    ensures Magnitude(x) == BitsMagnitude(Bits(x))
    ensures Bits(x) / IMPLICIT == Exponent(x) && Bits(x) % IMPLICIT == Fraction(x)
  {
    BitsFields(x);
    DivUnique(Bits(x), IMPLICIT, Exponent(x));
  }

  /** Adding d last places to a pattern adds d units to the value, even when the sum
      carries out of the fraction into the exponent. */
  lemma AddPlaces(b: nat, d: nat, e: nat)
    requires e >= 1 && b / IMPLICIT == e && d <= IMPLICIT - b % IMPLICIT
    ensures BitsMagnitude(b + d) == BitsMagnitude(b) + d * Pow2(e - 1)
  {
    var f, u := b % IMPLICIT, Pow2(e - 1);
    assert b == e * IMPLICIT + f;
    if d < IMPLICIT - f {
      DivUnique(b + d, IMPLICIT, e);
      assert (IMPLICIT + f + d) * u == (IMPLICIT + f) * u + d * u;
    } else {
      DivUnique(b + d, IMPLICIT, e + 1);
      assert Pow2(e) == 2 * u;
      MulAssoc(IMPLICIT, 2, u);
      assert (IMPLICIT + f + d) * u == (IMPLICIT + f) * u + d * u;
    }
  }

  /** ... and removing places removes as much, down to the start of the binade. */
  lemma RemovePlaces(b: nat, d: nat, e: nat)
    requires e >= 1 && b / IMPLICIT == e && d <= b % IMPLICIT
    ensures BitsMagnitude(b - d) == BitsMagnitude(b) - d * Pow2(e - 1)
  {
    var f, u := b % IMPLICIT, Pow2(e - 1);
    assert b == e * IMPLICIT + f;
    DivUnique(b - d, IMPLICIT, e);
    MulSub(IMPLICIT + f, d, u);
  }

  // ---------------------------------------------------------------- the fraction part

  /** For 1023 <= e <= 1074 the unit 1.0 is p = 2^(1075-e) last places. */
  lemma OneInPlaces(e: nat)
    requires 1023 <= e <= 1075
    ensures One() == Pow2(1075 - e) * Pow2(e - 1)
    ensures Pow2(1075 - e) <= IMPLICIT && Pow2(52) == IMPLICIT
    ensures IMPLICIT % Pow2(1075 - e) == 0
  {
    PlacesSplit(1074, e - 1);
    assert Pow2(52) == IMPLICIT by { Pow2Values(); }
    Pow2Monotonic(1075 - e, 52);
    Pow2Split(52, 1075 - e);
    ModShift(0, Pow2(52 - (1075 - e)), Pow2(1075 - e));
  }

  lemma PlacesSplit(one: nat, u: nat)
    requires u <= one
    ensures Pow2(one) == Pow2(one - u) * Pow2(u)
  {
    Pow2Split(one, u);
  }

  /** The low p bits of a pattern are the fraction part, in last places. */
  lemma FractionPlaces(b: nat, e: nat, p: nat, u: nat)
    requires e >= 1 && b / IMPLICIT == e && 0 < p <= IMPLICIT && IMPLICIT % p == 0
    requires u == Pow2(e - 1)
    ensures b % p <= b % IMPLICIT && (b % p > 0 ==> p - b % p <= IMPLICIT - b % IMPLICIT)
    ensures BitsMagnitude(b) % (p * u) == (b % p) * u
    ensures BitsMagnitude(b - b % p) == BitsMagnitude(b) - (b % p) * u
    ensures b % p > 0 ==> BitsMagnitude(b - b % p + p) == BitsMagnitude(b) - (b % p) * u + p * u
  {
    var f, d, c := b % IMPLICIT, b % p, IMPLICIT / p;
    assert IMPLICIT == c * p;
    assert b == e * IMPLICIT + f;
    FractionLow(f, c, p, e);
    RemovePlaces(b, d, e);
    assert BitsMagnitude(b) == (IMPLICIT + f) * u;
    ModShift(f, c, p);
    DivModScale(IMPLICIT + f, p, u);
    if d > 0 {
      AddPlaces(b, p - d, e);
      MulSub(p, d, u);
    }
  }

  lemma FractionLow(f: nat, c: nat, p: nat, e: nat)
    requires p > 0 && f < c * p
    ensures (e * (c * p) + f) % p == f % p
    ensures f % p <= f && (f % p > 0 ==> p - f % p <= c * p - f)
  {
    assert (f + (e * c) * p) % p == f % p by { ModShift(f, e * c, p); }
    assert e * (c * p) == (e * c) * p by { MulAssoc(e, c, p); }
    RoomAbove(f, f / p, c, p);
  }

  lemma RoomAbove(f: nat, q: nat, c: nat, p: nat)
    requires p > 0 && f < c * p && q == f / p
    ensures f % p <= f && p - f % p <= c * p - f
  {
    assert f == p * q + f % p;
    MulStrict(p, q, c);
    MulMono(p, q + 1, c);
  }

  // ---------------------------------------------------------------- specifications

  /** `SelfSum` stands for the returned expression x+x, for infinities and NaNs. */
  datatype Result = Integral(z: Double) | SelfSum

  /** The largest integral value not above s, in quanta (C99, section 7.12.9.2). */
  function FloorScaled(s: int): int {
    (s / One()) * One()
  }

  /** The smallest integral value not below s (C99, section 7.12.9.1). */
  function CeilScaled(s: int): int {
    -(((-s) / One()) * One())
  }

  /** k*1.0 lies below s exactly if it lies below floor(s), and above s exactly if it
      lies above ceil(s): the two are the integral neighbours of s. */
  lemma IntegralNeighbours(s: int, k: int)
    ensures k * One() <= s <==> k * One() <= FloorScaled(s)
    ensures s <= k * One() <==> CeilScaled(s) <= k * One()
    ensures FloorScaled(s) == -CeilScaled(-s)
  {
    hide One;
    QuotientOrder(s, k, One());
    QuotientOrder(-s, -k, One());
    NegateProduct(k, One());
  }

  lemma NegateProduct(k: int, one: int)
    ensures (-k) * one == -(k * one)
  {
  }

  lemma QuotientOrder(s: int, k: int, one: int)
    requires one > 0
    ensures k * one <= s <==> k * one <= (s / one) * one
  {
    var q := s / one;
    assert s == one * q + s % one;
    MulStrict(one, k, q);
    MulStrict(one, k, q + 1);
  }

  /** s rounded toward zero. */
  function TruncScaled(s: int): int {
    if s >= 0 then FloorScaled(s) else CeilScaled(s)
  }

  /** Clearing the fraction bits, and possibly adding 1.0, acts on magnitudes alike. */
  lemma RoundedPlaces(x: Double, r: Double, p: nat, up: bool)
    requires 1023 <= Exponent(x) <= 1074 && p == Pow2(1075 - Exponent(x))
    requires Bits(x) % p > 0 && Bits(r) == Bits(x) - Bits(x) % p + (if up then p else 0)
    ensures Magnitude(x) % One() > 0
    ensures Magnitude(r) == Magnitude(x) - Magnitude(x) % One() + (if up then One() else 0)
  {
    var e := Exponent(x);
    BitsValue(x);
    BitsValue(r);
    OneInPlaces(e);
    FractionPlaces(Bits(x), e, p, Pow2(e - 1));
    MulStrict(Pow2(e - 1), 0, Bits(x) % p);
  }

  /** A pattern with no fraction bits set is an integral value. */
  lemma NoFraction(x: Double, p: nat)
    requires 1023 <= Exponent(x) <= 1075 && p == Pow2(1075 - Exponent(x))
    ensures Magnitude(x) % One() == 0 <==> Bits(x) % p == 0
  {
    var e := Exponent(x);
    BitsValue(x);
    OneInPlaces(e);
    FractionPlaces(Bits(x), e, p, Pow2(e - 1));
    MulStrict(Pow2(e - 1), 0, Bits(x) % p);
  }

  /** From binade 1075 up every double is integral. */
  lemma LargeIsIntegral(x: Double)
    requires Exponent(x) >= 1075
    ensures Magnitude(x) % One() == 0
  {
    LargeMultiple(Significand(x), Exponent(x) - 1, 1074);
  }

  lemma LargeMultiple(h: nat, u: nat, one: nat)
    requires u >= one
    ensures (h * Pow2(u)) % Pow2(one) == 0
  {
    Pow2Split(u, one);
    MulAssoc(h, Pow2(u - one), Pow2(one));
    ModShift(0, h * Pow2(u - one), Pow2(one));
  }

  /** Below binade 1023 every double is less than 1. */
  lemma SmallIsFraction(x: Double)
    requires Exponent(x) <= 1022
    ensures Magnitude(x) < One()
  {
    SmallBound(x, 1074);
  }

  lemma SmallBound(x: Double, one: nat)
    requires UlpExponent(x) + 53 <= one
    ensures Magnitude(x) < Pow2(one)
  {
    hide Pow2;
    MagnitudeFacts(x);
    var u := UlpExponent(x);
    assert Pow2(53) == 2 * IMPLICIT by { Pow2Values(); }
    Pow2Add(53, u);
    Pow2Monotonic(53 + u, one);
    MulStrict(Pow2(u), Significand(x), 2 * IMPLICIT);
  }

  lemma FloorOfMagnitude(m: int, one: int)
    requires m >= 0 && one > 0
    ensures (m / one) * one == m - m % one
    ensures ((-m) / one) * one == if m % one == 0 then -m else -(m - m % one) - one
  {
    var q, r := m / one, m % one;
    assert m == one * q + r;
    if r == 0 {
      DivUnique(-m, one, -q);
    } else {
      assert (-q - 1) * one == -(q * one) - one;
      DivUnique(-m, one, -q - 1);
    }
  }

  /** Both roundings in terms of the magnitude and the sign. */
  lemma FloorCeilByMagnitude(x: Double)
    ensures var m, frac: int := Magnitude(x) - Magnitude(x) % One(), Magnitude(x) % One();
            && FloorScaled(Scaled(x)) == (if !Negative(x) then m else if frac == 0 then -m else -m - One())
            && CeilScaled(Scaled(x)) == (if Negative(x) then -m else if frac == 0 then m else m + One())
            && TruncScaled(Scaled(x)) == (if Negative(x) then -m else m)
  {
    hide One, Magnitude;
    FloorOfMagnitude(Magnitude(x), One());
  }

  // ---------------------------------------------------------------- words

  /** `((i0 >> 20) & 0x7ff) - 0x3ff`. */
  method UnbiasedExponent(i0: u32) returns (j0: int)
    ensures j0 == (i0 / TWO20) % 0x800 - 1023
  {
    assert Pow2(20) == TWO20 && Pow2(11) == 0x800 by { Pow2Values(); }
    SarField(i0);
    AndLow(Sar(i0, 20), 11);
    hide And, Sar;
    j0 := And(Sar(i0, 20), 0x7ff) - 0x3ff;
  }

  /** The replicated sign bits do not reach the exponent field. */
  lemma SarField(w: u32)
    ensures Sar(w, 20) % 0x800 == (w / TWO20) % 0x800
  {
    assert Pow2(20) == TWO20 by { Pow2Values(); }
    if w >= TWO31 {
      ModShift(w, -0x1000, TWO20);
      assert Signed(w) / TWO20 == w / TWO20 - 0x1000;
      assert Sar(w, 20) == w / TWO20 - 0x1000 + TWO32;
      ModShift(w / TWO20, 0x1f_fffe, 0x800);
    }
  }

  /** `all-ones >> n` leaves a mask of the remaining low bits. */
  lemma OnesShifted(total: nat, n: nat, ones: u32)
    requires n <= total <= 32 && ones == Pow2(total) - 1
    ensures Shr(ones, n) == Pow2(total - n) - 1
  {
    hide Pow2;
    Pow2Split(total, n);
    DivUnique(ones, Pow2(n), Pow2(total - n) - 1);
  }

  lemma PowerShifted(total: nat, n: nat, w: u32)
    requires n <= total <= 31 && w == Pow2(total)
    ensures Shr(w, n) == Pow2(total - n)
  {
    hide Pow2;
    Pow2Split(total, n);
    ModShift(0, Pow2(total - n), Pow2(n));
  }

  /** `w & ~mask` clears the low k bits. */
  lemma AndNotLow(w: u32, k: nat)
    requires k <= 32
    ensures 0 <= 0xffff_ffff - (Pow2(k) - 1) < TWO32
    ensures And(w, 0xffff_ffff - (Pow2(k) - 1)) == w - w % Pow2(k)
  {
    hide And, Pow2;
    assert Pow2(32) == TWO32 by { Pow2Values(); }
    Pow2Split(32, k);
    Pow2Monotonic(k, 32);
    HighMask(k);
    AndMask(w, 32 - k, k);
    HighField(w, Pow2(k), Pow2(32 - k));
  }

  lemma HighMask(k: nat)
    requires k <= 32 && Pow2(32 - k) * Pow2(k) == TWO32
    ensures Mask(32 - k, k) == 0xffff_ffff - (Pow2(k) - 1)
  {
    hide Pow2;
    MulSub(Pow2(32 - k), 1, Pow2(k));
  }

  lemma HighField(w: u32, p: nat, c: nat)
    requires p > 0 && c > 0 && c * p == TWO32
    ensures ((w / p) % c) * p == w - w % p
  {
    var q := w / p;
    assert w == p * q + w % p;
    MulStrict(p, q, c);
    SmallMod(q, c);
  }

  lemma SmallMod(q: nat, c: nat)
    requires q < c
    ensures q % c == q
  {
  }

  /** The fraction bits, when the binary point lies in the high word ... */
  lemma FractionInHigh(x: Double, n: nat)
    requires n <= 20
    ensures Bits(x) % (Pow2(n) * TWO32) == Join(x.hi % Pow2(n), x.lo)
    ensures Pow2(n) * TWO32 == Pow2(n + 32)
  {
    assert Pow2(32) == TWO32 by { Pow2Values(); }
    hide Pow2;
    Pow2Add(n, 32);
    HighBitsBelow(x.hi, n);
    JoinMod(x.hi % TWO31, x.lo, Pow2(n));
  }

  lemma JoinMod(h: nat, lo: u32, q: nat)
    requires q > 0
    ensures Join(h, lo) % (q * TWO32) == Join(h % q, lo)
  {
    var a, b := h / q, h % q;
    assert h == q * a + b;
    assert h * TWO32 == a * (q * TWO32) + b * TWO32;
    assert b * TWO32 + lo < q * TWO32;
    assert (a + 1) * (q * TWO32) == a * (q * TWO32) + q * TWO32;
    DivUnique(Join(h, lo), q * TWO32, a);
  }

  /** ... and when it lies in the low word. */
  lemma FractionInLow(x: Double, k: nat)
    requires k <= 32
    ensures Bits(x) % Pow2(k) == x.lo % Pow2(k)
  {
    assert Pow2(32) == TWO32 by { Pow2Values(); }
    Pow2Split(32, k);
    MulAssoc(x.hi % TWO31, Pow2(32 - k), Pow2(k));
    ModShift(x.lo, (x.hi % TWO31) * Pow2(32 - k), Pow2(k));
  }

  // ---------------------------------------------------------------- floor and ceil

  /** The branch 0 <= j0 < 20: the low word and part of the high word are fraction.
      `away` is the source's test that x must be rounded away from zero. */
  method RoundInHigh(x: Double, j0: nat, away: bool) returns (integral: bool, i0: u32, i1: u32)
    requires j0 == Exponent(x) - 1023 && j0 < 20
    ensures integral <==> Bits(x) % Pow2(52 - j0) == 0
    ensures integral ==> Double(i0, i1) == x
    ensures !integral ==>
        var r, p := Double(i0, i1), Pow2(52 - j0);
        Negative(r) == Negative(x) && Bits(r) == Bits(x) - Bits(x) % p + (if away then p else 0)
  {
    MaskHigh(x, j0);
    RoundHighWord(x.hi, 20 - j0, away);
    hide *;
    i0, i1 := x.hi, x.lo;
    var i := Shr(0x000f_ffff, j0);
    integral := Or(And(i0, i), i1) == 0;
    if !integral {
      if away { i0 := i0 + Shr(0x0010_0000, j0); }
      i0 := And(i0, 0xffff_ffff - i);
      i1 := 0;
      HighRounded(x, i0, 20 - j0, away);
    }
  }

  lemma MaskHigh(x: Double, j0: nat)
    requires j0 == Exponent(x) - 1023 && j0 < 20
    ensures Shr(0x000f_ffff, j0) == Pow2(20 - j0) - 1 && Shr(0x0010_0000, j0) == Pow2(20 - j0)
    ensures Or(And(x.hi, Pow2(20 - j0) - 1), x.lo) == 0 <==> Bits(x) % Pow2(52 - j0) == 0
  {
    hide Pow2, And, Or, Shr;
    assert Pow2(20) == TWO20 by { Pow2Values(); }
    OnesShifted(20, j0, 0x000f_ffff);
    PowerShifted(20, j0, 0x0010_0000);
    FractionInHigh(x, 20 - j0);
    AndLow(x.hi, 20 - j0);
    OrIsZero(x.hi % Pow2(20 - j0), x.lo);
  }

  /** Adding the unit and clearing what is below it, on the high word. */
  lemma RoundHighWord(w: u32, n: nat, away: bool)
    requires 1 <= n <= 20 && (w / TWO20) % 0x800 < 0x7ff
    ensures w + Pow2(n) < TWO32 && Pow2(n) <= TWO20
    ensures And(if away then w + Pow2(n) else w, 0xffff_ffff - (Pow2(n) - 1))
            == w - w % Pow2(n) + (if away then Pow2(n) else 0)
  {
    hide Pow2, And;
    HighRoom(w, n);
    if away {
      AndNotLow(w + Pow2(n), n);
      AddUnit(w, Pow2(n));
    } else {
      AndNotLow(w, n);
    }
  }

  lemma HighRoom(w: u32, n: nat)
    requires 1 <= n <= 20 && (w / TWO20) % 0x800 < 0x7ff
    ensures w + Pow2(n) < TWO32 && (w % TWO31) + Pow2(n) < TWO31
    ensures Pow2(n) <= TWO20
  {
    assert Pow2(20) == TWO20 by { Pow2Values(); }
    Pow2Monotonic(n, 20);
    hide Pow2;
    TopFieldBound(w);
  }

  lemma TopFieldBound(w: u32)
    requires (w / TWO20) % 0x800 < 0x7ff
    ensures w % TWO31 < 0x7ff * TWO20 && w < TWO31 + 0x7ff * TWO20
  {
    if w >= TWO31 { ModShift(w - TWO31, 0x800, TWO20); }
  }

  lemma AddUnit(w: nat, q: nat)
    requires q > 0
    ensures (w + q) % q == w % q
  {
    ModShift(w, 1, q);
  }

  /** Rounding the high word rounds the pattern, without touching the sign. */
  lemma HighRounded(x: Double, i0: u32, n: nat, away: bool)
    requires 1 <= n <= 20 && IsFinite(x)
    requires i0 == x.hi - x.hi % Pow2(n) + (if away then Pow2(n) else 0)
    ensures var r, p := Double(i0, 0), Pow2(n + 32);
            Negative(r) == Negative(x) && Bits(r) == Bits(x) - Bits(x) % p + (if away then p else 0)
  {
    hide Pow2;
    FractionInHigh(x, n);
    HighRoom(x.hi, n);
    HighBitsBelow(x.hi, n);
    HighRoundedWords(x, i0, Pow2(n), Pow2(n + 32), away);
  }

  lemma HighBitsBelow(w: u32, n: nat)
    requires n <= 20
    ensures w % Pow2(n) == (w % TWO31) % Pow2(n) <= w % TWO31
  {
    assert Pow2(31) == TWO31 by { Pow2Values(); }
    hide Pow2;
    Pow2Split(31, n);
    SignBitDrops(w, Pow2(n), Pow2(31 - n));
  }

  lemma SignBitDrops(w: u32, q: nat, c: nat)
    requires q > 0 && c * q == TWO31
    ensures w % q == (w % TWO31) % q <= w % TWO31
  {
    ModBelow(w % TWO31, q);
    if w >= TWO31 { ModShift(w - TWO31, c, q); }
  }

  lemma HighRoundedWords(x: Double, i0: u32, q: nat, p: nat, away: bool)
    requires x.hi % TWO31 + q < TWO31 && 0 < q && p == q * TWO32
    requires 0 <= x.hi % q <= x.hi % TWO31 && Bits(x) % p == Join(x.hi % q, x.lo)
    requires i0 == x.hi - x.hi % q + (if away then q else 0)
    ensures var r := Double(i0, 0);
            Negative(r) == Negative(x) && Bits(r) == Bits(x) - Bits(x) % p + (if away then p else 0)
  {
    var t, d := x.hi % q, if away then q else 0;
    SignKept(x.hi, i0, d - t);
    assert Bits(x) == Join(x.hi % TWO31, x.lo) && Bits(Double(i0, 0)) == Join(x.hi % TWO31 + d - t, 0);
    assert Negative(Double(i0, 0)) == Negative(x);
  }

  lemma ModBelow(f: nat, q: nat)
    requires q > 0
    ensures 0 <= f % q <= f && f % q < q
  {
    DivBound(f, q);
    assert f == q * (f / q) + f % q;
    MulMono(q, 0, f / q);
  }

  lemma SignKept(hi: u32, i0: u32, delta: int)
    requires 0 <= hi % TWO31 + delta < TWO31 && i0 == hi + delta
    ensures i0 / TWO31 == hi / TWO31
    ensures i0 % TWO31 == hi % TWO31 + delta
  {
    DivUnique(i0, TWO31, hi / TWO31);
  }

  /** The branch 20 <= j0 <= 51: part of the low word is fraction, and rounding away
      may carry into the high word and from there into the exponent. */
  method RoundInLow(x: Double, j0: nat, away: bool) returns (integral: bool, i0: u32, i1: u32)
    requires j0 == Exponent(x) - 1023 && 20 <= j0 <= 51
    ensures integral <==> Bits(x) % Pow2(52 - j0) == 0
    ensures integral ==> Double(i0, i1) == x
    ensures !integral ==>
        var r, p := Double(i0, i1), Pow2(52 - j0);
        Negative(r) == Negative(x) && Bits(r) == Bits(x) - Bits(x) % p + (if away then p else 0)
  {
    MaskLow(x, j0);
    hide *;
    i0, i1 := x.hi, x.lo;
    var i := Shr(0xffff_ffff, j0 - 20);
    integral := And(i1, i) == 0;
    if !integral {
      if away { i0, i1 := AddToLow(i0, i1, j0); }
      AndNotLow(i1, 52 - j0);
      LowRounded(x, i0, i1, 52 - j0, away);
      i1 := And(i1, 0xffff_ffff - i);
    }
  }

  /** Adds 2^(52-j0) to the pair; for j0 = 20 that is 1 in the high word. */
  method AddToLow(h: u32, l: u32, j0: nat) returns (i0: u32, i1: u32)
    requires 20 <= j0 <= 51 && h + 1 < TWO32
    requires j0 > 20 ==> Shl(1, 52 - j0) == Pow2(52 - j0) < TWO32
    requires j0 == 20 ==> Pow2(52 - j0) == TWO32
    ensures Join(i0, i1) == Join(h, l) + Pow2(52 - j0)
  {
    hide Pow2, Shl;
    i0, i1 := h, l;
    if j0 == 20 {
      i0 := i0 + 1;
    } else {
      var j := Wrap(i1 + Shl(1, 52 - j0));
      if j < i1 { i0 := i0 + 1; }
      i1 := j;
    }
  }

  lemma LowRounded(x: Double, i0: u32, j: u32, k: nat, away: bool)
    requires 1 <= k <= 32 && IsFinite(x)
    requires Join(i0, j) == Join(x.hi, x.lo) + (if away then Pow2(k) else 0)
    ensures 0 <= j - j % Pow2(k)
    ensures var r, p := Double(i0, j - j % Pow2(k)), Pow2(k);
            Negative(r) == Negative(x) && Bits(r) == Bits(x) - Bits(x) % p + (if away then p else 0)
  {
    hide Pow2;
    FractionInLow(x, k);
    assert Pow2(32) == TWO32 by { Pow2Values(); }
    Pow2Split(32, k);
    Pow2Monotonic(k, 32);
    SameLowBits(i0, j, x.hi, x.lo, Pow2(k), Pow2(32 - k), away);
    ModBelow(j, Pow2(k));
    assert x.hi % TWO31 + 1 < TWO31 by { HighRoom(x.hi, 1); }
    SignKept(x.hi, i0, i0 - x.hi);
  }

  lemma SameLowBits(i0: nat, j: u32, hi: nat, lo: u32, p: nat, c: nat, away: bool)
    requires p > 0 && c * p == TWO32
    requires Join(i0, j) == Join(hi, lo) + (if away then p else 0)
    ensures j % p == lo % p && (i0 == hi || i0 == hi + 1)
  {
    MulMono(p, 1, c);
    JoinModulo(i0, j, p, c);
    JoinModulo(hi, lo, p, c);
    AddUnit(Join(hi, lo), p);
  }

  lemma JoinModulo(hi: nat, lo: nat, p: nat, c: nat)
    requires p > 0 && c * p == TWO32
    ensures Join(hi, lo) % p == lo % p
  {
    MulAssoc(hi, c, p);
    ModShift(lo, hi * c, p);
  }

  lemma MaskLow(x: Double, j0: nat)
    requires j0 == Exponent(x) - 1023 && 20 <= j0 <= 51
    ensures Shr(0xffff_ffff, j0 - 20) == Pow2(52 - j0) - 1
    ensures j0 > 20 ==> Shl(1, 52 - j0) == Pow2(52 - j0) && 2 * Pow2(52 - j0) <= TWO32
    ensures j0 == 20 ==> Pow2(52 - j0) == TWO32
    ensures And(x.lo, Pow2(52 - j0) - 1) == x.lo % Pow2(52 - j0) == Bits(x) % Pow2(52 - j0)
    ensures x.hi + 1 < TWO32
  {
    hide Pow2, And, Shr, Bits;
    assert Pow2(32) == TWO32 by { Pow2Values(); }
    OnesShifted(32, j0 - 20, 0xffff_ffff);
    AndLow(x.lo, 52 - j0);
    FractionInLow(x, 52 - j0);
    Pow2Monotonic(52 - j0, 32);
    AllOnesNotFinite(x);
  }

  lemma AllOnesNotFinite(x: Double)
    requires IsFinite(x)
    ensures x.hi + 1 < TWO32
  {
  }

  /** |x| < 1 and |x| > 0 round to 0 or 1 of the same sign. */
  lemma UnitPattern(negative: bool)
    ensures var z := Double(if negative then 0xbff0_0000 else 0x3ff0_0000, 0);
            IsFinite(z) && Negative(z) == negative && Magnitude(z) == One()
  {
    UnitMagnitude(1074);
    var z := Double(if negative then 0xbff0_0000 else 0x3ff0_0000, 0);
    assert Exponent(z) == 1023 && Fraction(z) == 0;
  }

  lemma UnitMagnitude(one: nat)
    requires one >= 52
    ensures IMPLICIT * Pow2(one - 52) == Pow2(one)
  {
    assert Pow2(52) == IMPLICIT by { Pow2Values(); }
    Pow2Split(one, 52);
  }

  lemma SmallParts(x: Double)
    requires Exponent(x) <= 1022
    ensures Magnitude(x) % One() == Magnitude(x)
    ensures Magnitude(x) == 0 <==> x.hi % TWO31 == 0 && x.lo == 0
  {
    hide One, Magnitude;
    SmallIsFraction(x);
    SmallMod(Magnitude(x), One());
    MagnitudeFacts(x);
  }

  lemma RoundedIsFinite(x: Double, r: Double, p: nat, up: bool)
    requires Exponent(x) <= 1074 && p <= IMPLICIT
    requires Bits(r) <= Bits(x) + p
    ensures IsFinite(r)
  {
    BitsFields(x);
    BitsFields(r);
  }

  /** What the two rounding branches return, in terms of the value of x. */
  lemma BranchValue(x: Double, r: Double, integral: bool, away: bool)
    requires 1023 <= Exponent(x) <= 1074
    requires var p := Pow2(1075 - Exponent(x));
        && (integral <==> Bits(x) % p == 0)
        && (integral ==> r == x)
        && (!integral ==> Bits(r) == Bits(x) - Bits(x) % p + (if away then p else 0))
    ensures IsFinite(r)
    ensures integral <==> Magnitude(x) % One() == 0
    ensures Magnitude(r) == Magnitude(x) - Magnitude(x) % One() + (if away && !integral then One() else 0)
  {
    hide Magnitude, One, Bits;
    var p := Pow2(1075 - Exponent(x));
    NoFraction(x, p);
    OneInPlaces(Exponent(x));
    RoundedIsFinite(x, if integral then x else r, p, away);
    if !integral { RoundedPlaces(x, r, p, away); }
  }

  lemma PatternTests(x: Double)
    ensures Signed(x.hi) >= 0 <==> !Negative(x)
    ensures Or(And(x.hi, 0x7fff_ffff), x.lo) == 0 <==> x.hi % TWO31 == 0 && x.lo == 0
    ensures Exponent(x) > 0 && !Negative(x) ==> Signed(x.hi) > 0
    ensures Or(x.hi, x.lo) == 0 <==> x.hi == 0 && x.lo == 0
  {
    MagnitudeMask(x.hi);
    OrIsZero(x.hi % TWO31, x.lo);
    OrIsZero(x.hi, x.lo);
  }

  /** `floor`. */
  method Floor(x: Double) returns (r: Result)
    ensures r.SelfSum? <==> !IsFinite(x)
    ensures IsFinite(x) ==> IsFinite(r.z) && Negative(r.z) == Negative(x)
                            && Scaled(r.z) == FloorScaled(Scaled(x))
  {
    FloorCeilByMagnitude(x);
    PatternTests(x);
    UnitPattern(true);
    ZeroPattern(x);
    hide One, Magnitude, And, Or, FloorScaled, CeilScaled, TruncScaled;
    var i0, i1 := x.hi, x.lo;
    var j0 := UnbiasedExponent(i0);
    if j0 < 20 {
      if j0 < 0 {
        SmallParts(x);
        if Signed(i0) >= 0 {
          i0, i1 := 0, 0;
        } else if Or(And(i0, 0x7fff_ffff), i1) != 0 {
          i0, i1 := 0xbff0_0000, 0;
        }
      } else {
        var integral;
        integral, i0, i1 := RoundInHigh(x, j0, Signed(i0) < 0);
        BranchValue(x, Double(i0, i1), integral, Signed(x.hi) < 0);
        if integral { return Integral(x); }
      }
    } else if j0 > 51 {
      if j0 == 0x400 { return SelfSum; }
      LargeIsIntegral(x);
      return Integral(x);
    } else {
      var integral;
      integral, i0, i1 := RoundInLow(x, j0, Signed(i0) < 0);
      BranchValue(x, Double(i0, i1), integral, Signed(x.hi) < 0);
      if integral { return Integral(x); }
    }
    return Integral(Double(i0, i1));
  }

  /** `ceil`. */
  method Ceil(x: Double) returns (r: Result)
    ensures r.SelfSum? <==> !IsFinite(x)
    ensures IsFinite(x) ==> IsFinite(r.z) && Negative(r.z) == Negative(x)
                            && Scaled(r.z) == CeilScaled(Scaled(x))
  {
    FloorCeilByMagnitude(x);
    PatternTests(x);
    UnitPattern(false);
    ZeroPattern(x);
    hide One, Magnitude, And, Or, FloorScaled, CeilScaled, TruncScaled;
    var i0, i1 := x.hi, x.lo;
    var j0 := UnbiasedExponent(i0);
    if j0 < 20 {
      if j0 < 0 {
        SmallParts(x);
        if Signed(i0) < 0 {
          i0, i1 := 0x8000_0000, 0;
        } else if Or(i0, i1) != 0 {
          i0, i1 := 0x3ff0_0000, 0;
        }
      } else {
        var integral;
        integral, i0, i1 := RoundInHigh(x, j0, Signed(i0) > 0);
        BranchValue(x, Double(i0, i1), integral, Signed(x.hi) > 0);
        if integral { return Integral(x); }
      }
    } else if j0 > 51 {
      if j0 == 0x400 { return SelfSum; }
      LargeIsIntegral(x);
      return Integral(x);
    } else {
      var integral;
      integral, i0, i1 := RoundInLow(x, j0, Signed(i0) > 0);
      BranchValue(x, Double(i0, i1), integral, Signed(x.hi) > 0);
      if integral { return Integral(x); }
    }
    return Integral(Double(i0, i1));
  }

  lemma ZeroPattern(x: Double)
    ensures Magnitude(Double(0, 0)) == 0 && Magnitude(Double(TWO31, 0)) == 0
    ensures x.hi % TWO31 == 0 && x.lo == 0 ==> x == Zero(Negative(x))
  {
  }

  // ---------------------------------------------------------------- modf

  /** The double of magnitude s * 2^u: every such product is representable. */
  function Encode(negative: bool, s: nat, u: nat): (z: Double)
    requires s < 2 * IMPLICIT && u <= 2045
    ensures IsFinite(z) && Negative(z) == negative && Magnitude(z) == s * Pow2(u)
    decreases u
  {
    if s >= IMPLICIT then
      PackMagnitude(negative, u + 1, s);
      Pack(negative, u + 1, s - IMPLICIT)
    else if u == 0 then
      PackFields(negative, 0, s);
      Pack(negative, 0, s)
    else
      MulAssoc(s, 2, Pow2(u - 1));
      Encode(negative, 2 * s, u - 1)
  }

  /** The floating subtraction x - t of the truncation t from x.  The difference is the
      fraction part, which is representable, so the subtraction is exact. */
  function SubtractTruncation(x: Double, p: nat): (z: Double)
    requires 1023 <= Exponent(x) <= 1074 && p == Pow2(1075 - Exponent(x))
    ensures IsFinite(z) && Negative(z) == Negative(x)
    ensures Magnitude(z) == Magnitude(x) % One()
  {
    BitsValue(x);
    OneInPlaces(Exponent(x));
    FractionPlaces(Bits(x), Exponent(x), p, Pow2(Exponent(x) - 1));
    Encode(Negative(x), Bits(x) % p, Exponent(x) - 1)
  }

  /** What section 7.12.6.12 of C99 asks of modf beyond finite arguments: an infinity has
      a zero fraction part with its sign, a NaN gives NaNs. */
  predicate IsC99Parts(x: Double, frac: Double, iptr: Double) {
    if IsNaN(x) then IsNaN(frac) && IsNaN(iptr)
    else if IsInfinite(x) then iptr == x && frac == Zero(Negative(x))
    else
      && IsFinite(frac) && IsFinite(iptr)
      && Negative(frac) == Negative(x) && Negative(iptr) == Negative(x)
      && Scaled(iptr) == TruncScaled(Scaled(x))
      && Scaled(frac) == Scaled(x) - Scaled(iptr)
  }

  /** `modf`: what C99 asks, except that a NaN leaves a signed zero as its fraction part. */
  method Modf(x: Double) returns (frac: Double, iptr: Double)
    ensures IsC99Parts(x, frac, iptr) <==> !IsNaN(x)
    ensures IsNaN(x) ==> iptr == x && frac == Zero(Negative(x))
  {
    hide Magnitude, One, FloorScaled, CeilScaled, TruncScaled, And, Bits;
    var i0, i1 := x.hi, x.lo;
    var j0 := UnbiasedExponent(i0);
    SignBit(x);
    var zero := Double(And(x.hi, 0x8000_0000), 0);
    if j0 < 20 {
      if j0 < 0 {
        WholeSmall(x);
        return x, zero;
      } else {
        var integral;
        integral, i0, i1 := RoundInHigh(x, j0, false);
        BranchValue(x, Double(i0, i1), integral, false);
        WholeRest(x, Double(i0, i1));
        if integral { return zero, x; }
        return SubtractTruncation(x, Pow2(52 - j0)), Double(i0, i1);
      }
    } else if j0 > 51 {
      if IsFinite(x) {
        LargeIsIntegral(x);
        WholeRest(x, x);
      }
      return zero, x;
    } else {
      var integral;
      integral, i0, i1 := RoundInLow(x, j0, false);
      BranchValue(x, Double(i0, i1), integral, false);
      WholeRest(x, Double(i0, i1));
      if integral { return zero, x; }
      return SubtractTruncation(x, Pow2(52 - j0)), Double(i0, i1);
    }
  }

  lemma SignBit(x: Double)
    ensures Double(And(x.hi, 0x8000_0000), 0) == Zero(Negative(x))
    ensures Negative(Zero(Negative(x))) == Negative(x) && IsFinite(Zero(Negative(x)))
    ensures Scaled(Zero(Negative(x))) == 0
  {
    TopBit(x.hi);
    ZeroIsZero(Negative(x));
    hide And, Magnitude;
  }

  lemma WholeSmall(x: Double)
    requires Exponent(x) <= 1022
    ensures TruncScaled(Scaled(x)) == 0
  {
    SmallParts(x);
    FloorCeilByMagnitude(x);
  }

  /** Truncating the magnitude truncates the value, and what is left is the fraction. */
  lemma WholeRest(x: Double, t: Double)
    requires Negative(t) == Negative(x) && Magnitude(t) == Magnitude(x) - Magnitude(x) % One()
    ensures Scaled(t) == TruncScaled(Scaled(x))
    ensures Scaled(x) - Scaled(t) == if Negative(x) then -(Magnitude(x) % One()) else Magnitude(x) % One()
  {
    hide Magnitude, One;
    FloorCeilByMagnitude(x);
  }

  // ---------------------------------------------------------------- yisint

  /** |y| is an odd whole number. */
  predicate IsOddInteger(y: Double) {
    Magnitude(y) % One() == 0 && (Magnitude(y) / One()) % 2 == 1
  }

  lemma HugeIsEven(y: Double)
    requires Exponent(y) >= 1076
    ensures Magnitude(y) % One() == 0 && !IsOddInteger(y)
  {
    EvenMultiple(Significand(y), Exponent(y) - 1, 1074);
  }

  lemma EvenMultiple(h: nat, u: nat, one: nat)
    requires u >= one + 1
    ensures (h * Pow2(u)) % Pow2(one) == 0 && ((h * Pow2(u)) / Pow2(one)) % 2 == 0
  {
    hide Pow2;
    Pow2Split(u, one);
    Pow2Split(u - one, 1);
    assert Pow2(1) == 2 by { Pow2Values(); }
    var c := Pow2(u - one - 1);
    MulAssoc(h, c * 2, Pow2(one));
    MulAssoc(h, c, 2);
    ModShift(0, h * (c * 2), Pow2(one));
    ModShift(0, h * c, 2);
  }

  /** The whole part of |y| is the significand without its fraction places. */
  lemma WholePart(y: Double, p: nat)
    requires 1023 <= Exponent(y) <= 1075 && p == Pow2(1075 - Exponent(y))
    ensures Magnitude(y) / One() == Significand(y) / p
  {
    OneInPlaces(Exponent(y));
    DivModScale(Significand(y), p, Pow2(Exponent(y) - 1));
  }

  /** Shifting right and back tests the low n bits; the lowest bit left is the next one. */
  lemma ShiftTest(w: u32, n: nat)
    ensures Shl(Shr(w, n), n) == w <==> w % Pow2(n) == 0
    ensures And(Shr(w, n), 1) == (w / Pow2(n)) % 2
  {
    ShiftBack(w, Pow2(n));
    assert Pow2(1) == 2 by { Pow2Values(); }
    AndLow(Shr(w, n), 1);
    hide And, Pow2;
  }

  lemma ShiftBack(w: u32, p: nat)
    requires p > 0
    ensures ((w / p) * p) % TWO32 == w - w % p
  {
    ModBelow(w, p);
    assert (w / p) * p == w - w % p;
    SmallMod((w / p) * p, TWO32);
  }

  lemma LowParity(y: Double, k: nat)
    requires 20 < k <= 52 && Exponent(y) == k + 1023
    ensures var n := 52 - k;
        && (Shl(Shr(y.lo, n), n) == y.lo <==> Bits(y) % Pow2(n) == 0)
        && And(Shr(y.lo, n), 1) == (Magnitude(y) / One()) % 2
  {
    hide Magnitude, One, And, Shl, Shr;
    var n := 52 - k;
    ShiftTest(y.lo, n);
    FractionInLow(y, n);
    WholePart(y, Pow2(n));
    hide Pow2;
    assert Pow2(32) == TWO32 && Pow2(1) == 2 by { Pow2Values(); }
    Pow2Split(32, n);
    Pow2Split(32 - n, 1);
    LowWordParity(y, Pow2(n), Pow2(31 - n));
  }

  lemma LowWordParity(y: Double, p: nat, c: nat)
    requires p > 0 && (c * 2) * p == TWO32 && Exponent(y) > 0
    ensures (Significand(y) / p) % 2 == (y.lo / p) % 2
  {
    var h := TWO20 + y.hi % TWO20;
    assert Significand(y) == h * TWO32 + y.lo;
    MulAssoc(h, c * 2, p);
    ModShift(y.lo, h * (c * 2), p);
    MulAssoc(h, c, 2);
    ModShift(y.lo / p, h * c, 2);
  }

  lemma HighShiftTest(y: Double, n: nat)
    requires n <= 20 && y.lo == 0
    ensures var iy := y.hi % TWO31;
        && (Shl(Shr(iy, n), n) == iy <==> Bits(y) % Pow2(n + 32) == 0)
        && And(Shr(iy, n), 1) == (iy / Pow2(n)) % 2
  {
    hide And, Shl, Shr, Pow2;
    ShiftTest(y.hi % TWO31, n);
    FractionInHigh(y, n);
    HighBitsBelow(y.hi, n);
  }

  lemma HighParity(y: Double, k: nat)
    requires k <= 20 && Exponent(y) == k + 1023 && y.lo == 0
    ensures ((y.hi % TWO31) / Pow2(20 - k)) % 2 == (Magnitude(y) / One()) % 2
  {
    hide Magnitude, One;
    WholePart(y, Pow2(20 - k + 32));
    assert Pow2(20) == TWO20 && Pow2(32) == TWO32 by { Pow2Values(); }
    var half := EvenContribution(k);
    hide Pow2;
    Pow2Split(20, 20 - k);
    Pow2Add(20 - k, 32);
    HighWordSum(y);
    HighWordParity(y, Pow2(20 - k), Pow2(k), half);
  }

  lemma EvenContribution(k: nat) returns (half: nat)
    ensures (1022 + k) * Pow2(k) == 2 * half
  {
    if k == 0 {
      half := 511;
    } else {
      var p := Pow2(k - 1);
      half := (1022 + k) * p;
      MulAssoc(1022 + k, 2, p);
    }
  }

  lemma HighWordSum(y: Double)
    ensures y.hi % TWO31 == Exponent(y) * TWO20 + y.hi % TWO20
  {
    WordFields(y);
  }

  /** The exponent field above the fraction does not disturb the parity: it
      contributes (e-1)*2^k, which is even also for k = 0, where e-1 = 1022. */
  lemma HighWordParity(y: Double, q: nat, c: nat, half: nat)
    requires q > 0 && c * q == TWO20 && Exponent(y) > 0 && y.lo == 0
    requires (Exponent(y) - 1) * c == 2 * half
    requires y.hi % TWO31 == Exponent(y) * TWO20 + y.hi % TWO20
    ensures (Significand(y) / (q * TWO32)) % 2 == ((y.hi % TWO31) / q) % 2
  {
    var h, e := TWO20 + y.hi % TWO20, Exponent(y);
    assert Significand(y) == h * TWO32;
    DivModScale(h, q, TWO32);
    MulAssoc(e - 1, c, q);
    assert y.hi % TWO31 == h + (2 * half) * q;
    ModShift(h, 2 * half, q);
    ModShift(h / q, half, 2);
  }

  lemma LowNonzero(y: Double, k: nat)
    requires k <= 20 && y.lo != 0
    ensures Bits(y) % Pow2(52 - k) != 0
  {
    FractionInHigh(y, 20 - k);
  }

  /** The classification of y in `__ieee754_pow` for negative x: 0 for a non-integer,
      1 for an odd and 2 for an even integer.  For hx >= 0 it is not computed. */
  method YIsInt(y: Double, hx: u32) returns (yisint: nat)
    requires Magnitude(y) > 0
    ensures hx < TWO31 ==> yisint == 0
    ensures hx >= TWO31 && IsFinite(y) ==>
        yisint == if Magnitude(y) % One() != 0 then 0 else if IsOddInteger(y) then 1 else 2
    ensures hx >= TWO31 && !IsFinite(y) ==> yisint == 2
  {
    hide One, Magnitude;
    MagnitudeMask(y.hi);
    HighWordFields(y);
    hide And;
    var iy, ly := And(y.hi, 0x7fff_ffff), y.lo;
    yisint := 0;
    if Signed(hx) < 0 {
      if iy >= 0x4340_0000 {
        if IsFinite(y) { HugeIsEven(y); }
        yisint := 2;
      } else if iy >= 0x3ff0_0000 {
        assert Shr(iy, 20) == Exponent(y) by { Pow2Values(); }
        var k := Shr(iy, 20) - 0x3ff;
        NoFraction(y, Pow2(52 - k));
        if k > 20 {
          LowParity(y, k);
          var j := Shr(ly, 52 - k);
          if Shl(j, 52 - k) == ly { yisint := 2 - And(j, 1); }
        } else if ly == 0 {
          HighShiftTest(y, 20 - k);
          HighParity(y, k);
          var j := Shr(iy, 20 - k);
          if Shl(j, 20 - k) == iy { yisint := 2 - And(j, 1); }
        } else {
          LowNonzero(y, k);
        }
      } else {
        SmallParts(y);
      }
    }
  }
}
