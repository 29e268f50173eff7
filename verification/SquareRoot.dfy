/**
 `__ieee754_sqrt`: the bit-by-bit square root on two words.
 */
module SquareRoot {
  import opened Words
  import opened Ieee754

  /** `NotFinite` stands for the returned expression x*x+x, `Invalid` for NAN. */
  datatype Result = Root(z: Double) | NotFinite | Invalid

  /** z is strictly nearer to the square root of x than y is: the root lies on
      z's side of the midpoint of z and y, where (z+y)^2 / 4 is compared with x. */
  predicate Nearer(x: nat, one: nat, z: nat, y: nat) {
    if z < y then 4 * (x * one) < (z + y) * (z + y) else (z + y) * (z + y) < 4 * (x * one)
  }

  /** z is the correctly rounded square root of x (IEEE 754-2008, sections 5.4.1 and
      4.3.1): among all finite doubles it is strictly the nearest, so no tie occurs. */
  ghost predicate IsRoundedRoot(x: Double, z: Double) {
    && IsFinite(z) && !Negative(z)
    && forall y: Double :: IsFinite(y) && !Negative(y) && Magnitude(y) != Magnitude(z)
        ==> Nearer(Magnitude(x), One(), Magnitude(z), Magnitude(y))
  }

  // ---------------------------------------------------------------- the digit recurrence

  /** Q holds the root of n down to the bits of weight u, and i is the scaled remainder. */
  predicate Partial(n: nat, Q: nat, i: int, u: nat) {
    && 2 * (n - Q * Q) == i * u
    && 0 <= i
    && n < (Q + u) * (Q + u)
  }

  lemma RecurrenceStep(n: nat, Q: nat, i: int, p: nat)
    requires p > 0 && Partial(n, Q, i, 2 * p)
    ensures if 2 * Q + p <= i then Partial(n, Q + p, 2 * (i - (2 * Q + p)), p)
            else Partial(n, Q, 2 * i, p)
  {
    var t := 2 * Q + p;
    SquareOfSum(Q, p);
    MulAssoc(i, 2, p);
    if t <= i {
      ProductDifference(i, t, p);
      assert Q + 2 * p == (Q + p) + p;
    } else {
      MulStrict(p, i, t);
    }
  }

  lemma SquareOfSum(a: int, b: int)
    ensures (a + b) * (a + b) == a * a + (2 * a + b) * b
  {
  }

  lemma ProductDifference(a: int, b: int, c: int)
    ensures 2 * (a * c - b * c) == (2 * (a - b)) * c
  {
  }

  lemma RemainderBound(n: nat, Q: nat, i: int, u: nat)
    requires u > 0 && Partial(n, Q, i, u)
    ensures i < 2 * (2 * Q + u)
  {
    SquareOfSum(Q, u);
    MulAssoc(2, 2 * Q + u, u);
    MulStrict(u, i, 2 * (2 * Q + u));
  }

  // ---------------------------------------------------------------- the method

  /** A magnitude shifted into 53 bits was shifted by at most 52. */
  lemma ShiftCount(mag: nat, n: nat)
    requires 0 < mag && mag * Pow2(n) < 2 * IMPLICIT
    ensures n <= 52
    ensures (mag * Pow2(n)) * Pow2(52 - n) == mag * IMPLICIT
  {
    hide Pow2;
    Pow2Values();
    MulMono(Pow2(n), 1, mag);
    if n > 52 { Pow2Monotonic(53, n); }
    Pow2Add(n, 52 - n);
    MulAssoc(mag, Pow2(n), Pow2(52 - n));
  }

  /** The first loop moves 21 bits up at a time until the high word is nonzero. */
  method FillHighWord(hi: u32, lo: u32) returns (m: int, ix0: u32, ix1: u32)
    requires 0 < Join(hi, lo) && hi < TWO20
    ensures m <= 0 && 0 < ix0 < 2 * TWO20
    ensures Join(ix0, ix1) == Join(hi, lo) * Pow2(-m)
  {
    m, ix0, ix1 := 0, hi, lo;
    while ix0 == 0
      invariant m <= 0 && ix0 < 2 * TWO20
      invariant 0 < Join(ix0, ix1) == Join(hi, lo) * Pow2(-m)
      decreases 2 * IMPLICIT - Join(ix0, ix1)
    {
      Raise(Join(hi, lo), -m, ix1);
      m := m - 21;
      ix0 := Or(ix0, Shr(ix1, 11));
      ix1 := Shl(ix1, 21);
    }
  }

  lemma Raise(mag: nat, s: nat, lo: u32)
    requires 0 < Join(0, lo) == mag * Pow2(s)
    ensures Or(0, Shr(lo, 11)) == Shr(lo, 11) < 2 * TWO20
    ensures Join(Shr(lo, 11), Shl(lo, 21)) == mag * Pow2(s + 21)
    ensures Join(Shr(lo, 11), Shl(lo, 21)) > Join(0, lo)
  {
    assert Pow2(21) == 2 * TWO20 by { Pow2Values(); }
    JoinShift(0, lo, 21);
    Pow2Add(s, 21);
    MulAssoc(mag, Pow2(s), Pow2(21));
  }

  /** The second loop moves the leading bit of the high word to bit 20. */
  method RaiseToBit20(hi: u32) returns (i: nat, ix0: u32)
    requires 0 < hi < 2 * TWO20
    ensures i <= 20 && ix0 == hi * Pow2(i) && TWO20 <= ix0 < 2 * TWO20
  {
    i, ix0 := 0, hi;
    TestBit20(ix0);
    while And(ix0, 0x0010_0000) == 0
      invariant ix0 == hi * Pow2(i) && ix0 < 2 * TWO20
      invariant And(ix0, 0x0010_0000) == 0 <==> ix0 < TWO20
      decreases 2 * TWO20 - ix0
    {
      DoubleOnce(hi, i);
      ix0 := Shl(ix0, 1);
      i := i + 1;
      TestBit20(ix0);
    }
    assert Pow2(21) == 2 * TWO20 by { Pow2Values(); }
    BitCount(hi, i, 21);
  }

  lemma DoubleOnce(hi: nat, i: nat)
    requires 0 < hi * Pow2(i) < TWO20
    ensures Shl(hi * Pow2(i), 1) == hi * Pow2(i + 1) == 2 * (hi * Pow2(i))
  {
    assert Pow2(1) == 2;
    MulAssoc(hi, 2, Pow2(i));
  }

  lemma BitCount(h: nat, i: nat, top: nat)
    requires 0 < h && h * Pow2(i) < Pow2(top)
    ensures i < top
  {
    MulMono(Pow2(i), 1, h);
    if i >= top { Pow2Monotonic(top, i); }
  }

  /** The subnormal branch: both loops, then the low word follows the high one. */
  method NormalizeSubnormal(hi: u32, lo: u32) returns (m: int, ix0: u32, ix1: u32)
    requires 0 < Join(hi, lo) && hi < TWO20
    ensures TWO20 <= ix0 < 2 * TWO20 && -51 <= m <= 1
    ensures Join(hi, lo) * IMPLICIT == Join(ix0, ix1) * Pow2(m + 51)
  {
    m, ix0, ix1 := FillHighWord(hi, lo);
    ghost var mid, s := ix0, -m;
    var i;
    i, ix0 := RaiseToBit20(ix0);
    m := m - (i - 1);
    JoinShift(mid, ix1, i);
    OrFits(mid, Shr(ix1, 32 - i), i);
    ix0 := Or(ix0, Shr(ix1, 32 - i));
    ix1 := Shl(ix1, i);
    ShiftTwice(Join(hi, lo), s, i);
    ShiftCount(Join(hi, lo), s + i);
  }

  /** Scales a positive finite x to a 53-bit significand, whatever its binade. */
  method Normalize(x: Double) returns (m: int, ix0: u32, ix1: u32)
    requires IsFinite(x) && !Negative(x) && Magnitude(x) > 0
    ensures IMPLICIT <= Join(ix0, ix1) < 2 * IMPLICIT
    ensures -51 <= m <= 2046
    ensures Magnitude(x) * IMPLICIT == Join(ix0, ix1) * Pow2(m + 51)
  {
    ix0, ix1 := x.hi, x.lo;
    m := Shr(ix0, 20);
    ExponentWord(x);
    if m == 0 {
      m, ix0, ix1 := NormalizeSubnormal(ix0, ix1);
      HighPart(ix0);
    } else {
      NormalScale(Significand(x), m);
    }
    SetImplicit(ix0);
    ix0 := Or(And(ix0, 0x000f_ffff), 0x0010_0000);
  }

  lemma ExponentWord(x: Double)
    requires !Negative(x)
    ensures Shr(x.hi, 20) == Exponent(x)
    ensures Exponent(x) == 0 ==> x.hi < TWO20 && Magnitude(x) == Join(x.hi, x.lo)
    ensures Exponent(x) > 0 ==> Significand(x) == Join(TWO20 + x.hi % TWO20, x.lo)
  {
    assert Pow2(20) == TWO20 by { Pow2Values(); }
    WordFields(x);
  }

  lemma HighPart(w: nat)
    requires TWO20 <= w < 2 * TWO20
    ensures w == TWO20 + w % TWO20
  {
  }

  lemma OrFits(hi: nat, t: nat, i: nat)
    requires i <= 20 && hi * Pow2(i) < 2 * TWO20 && t < Pow2(i)
    ensures hi * Pow2(i) + t < 2 * TWO20
  {
    hide Pow2;
    assert Pow2(21 - i) * Pow2(i) == 2 * TWO20 by { Pow2Split(21, i); Pow2Values(); }
    MultipleRoom(hi, Pow2(21 - i), Pow2(i), t);
  }

  lemma HalvePower(k: nat)
    requires k > 0 && Pow2(k) <= TWO32
    ensures Pow2(k) == 2 * Pow2(k - 1)
    ensures Shr(Pow2(k - 1), 1) == if k == 1 then 0 else Pow2(k - 2)
  {
    assert Pow2(1) == 2;
  }

  /** One digit of the high word: the low word of the trial subtrahend is 0, so
      comparing high words decides. */
  lemma HighStep(n: nat, q: nat, ix0: nat, ix1: u32, r: nat)
    requires 0 < r && q + 2 * r <= 0x40_0000
    requires Partial(n, Join(q, 0), Join(ix0, ix1), 2 * (r * TWO32))
    ensures ix0 < 0x400_0000
    ensures if 2 * q + r <= ix0 then Partial(n, Join(q + r, 0), 2 * Join(ix0 - (2 * q + r), ix1), r * TWO32)
            else Partial(n, Join(q, 0), 2 * Join(ix0, ix1), r * TWO32)
  {
    RemainderBound(n, Join(q, 0), Join(ix0, ix1), 2 * (r * TWO32));
    RecurrenceStep(n, Join(q, 0), Join(ix0, ix1), r * TWO32);
  }

  /** One iteration of the high-word loop. */
  method HighDigit(p: u32, h0: u32, i0: u32, i1: u32, r: u32, ghost n: nat)
    returns (q: u32, s0: u32, ix0: u32, ix1: u32)
    requires 0 < r && h0 == 2 * p && p + 2 * r <= 0x40_0000
    requires Partial(n, Join(p, 0), Join(i0, i1), 2 * (r * TWO32))
    ensures s0 == 2 * q && q + r <= 0x40_0000 && ix0 < 0x800_0000
    ensures Partial(n, Join(q, 0), Join(ix0, ix1), r * TWO32)
  {
    hide Partial, Pow2;
    HighStep(n, p, i0, i1, r);
    q, s0, ix0, ix1 := p, h0, i0, i1;
    var t := s0 + r;
    if t <= ix0 {
      s0 := t + r;
      ix0 := ix0 - t;
      q := q + r;
    }
    ix0, ix1 := DoubleWords(ix0, ix1);
  }

  /** The high-word loop: digits of weight 2^53 down to 2^32. */
  method HighDigits(i0: u32, i1: u32, ghost n: nat)
    returns (q: u32, s0: u32, ix0: u32, ix1: u32)
    requires i0 < 0x800_0000 && Partial(n, 0, Join(i0, i1), 0x40_0000 * TWO32)
    ensures Partial(n, Join(q, 0), Join(ix0, ix1), TWO32)
    ensures q < 0x40_0000 && s0 == 2 * q && ix0 < 0x800_0000
  {
    hide Partial, Pow2;
    var r: u32 := 0x0020_0000;
    q, s0, ix0, ix1 := 0, 0, i0, i1;
    ghost var k := 22;
    assert Pow2(22) == 0x40_0000 && Pow2(21) == 0x20_0000 && Pow2(0) == 1 by { Pow2Values(); }
    while r != 0
      invariant 0 <= k <= 22 && Pow2(k) <= 0x40_0000
      invariant r == if k == 0 then 0 else Pow2(k - 1)
      invariant s0 == 2 * q && q + Pow2(k) <= 0x40_0000 && ix0 < 0x800_0000
      invariant Partial(n, Join(q, 0), Join(ix0, ix1), Pow2(k) * TWO32)
      decreases k
    {
      HalvePower(k);
      q, s0, ix0, ix1 := HighDigit(q, s0, ix0, ix1, r, n);
      r := Shr(r, 1);
      k := k - 1;
    }
  }

  /** The carry that the low-word loop keeps out of the 64-bit divisor [s0,s1] = 2*[q,q1]. */
  predicate LowRoom(q1: nat, u: nat) {
    q1 + u <= TWO32 && (if u == TWO32 then q1 == 0 else q1 < TWO31 ==> q1 + u <= TWO31)
  }

  /** The trial divisor [s0,t1] and, if the digit is set, the new divisor with the
      carry from s1 into s0. */
  lemma LowDivisor(q: nat, q1: nat, s0: nat, s1: u32, r: nat)
    requires 0 < r && LowRoom(q1, 2 * r)
    requires Join(s0, s1) == 2 * Join(q, q1)
    ensures s1 + r < TWO32 && Join(s0, s1 + r) == 2 * Join(q, q1) + r
    ensures LowRoom(q1 + r, r) && LowRoom(q1, r) && q1 + r < TWO32
    ensures var t1, s1' := s1 + r, Wrap(s1 + r + r);
            Join(s0 + Bit(t1 >= TWO31 && s1' < TWO31), s1') == 2 * Join(q, q1 + r)
  {
    if q1 < TWO31 {
      assert s1 == 2 * q1 && s0 == 2 * q;
    } else {
      assert s1 == 2 * q1 - TWO32 && s0 == 2 * q + 1;
    }
  }

  /** Comparing two words lexicographically compares the pairs. */
  lemma JoinCompare(xh: int, xl: u32, yh: int, yl: u32)
    ensures xh < yh || (xh == yh && xl <= yl) <==> Join(xh, xl) <= Join(yh, yl)
  {
  }

  lemma LowRemainder(n: nat, q: nat, q1: nat, ix0: nat, ix1: u32, r: nat)
    requires 0 < r && q < 0x40_0000 && LowRoom(q1, 2 * r)
    requires Partial(n, Join(q, q1), Join(ix0, ix1), 2 * r)
    ensures ix0 < 0x400_0000
  {
    RemainderBound(n, Join(q, q1), Join(ix0, ix1), 2 * r);
  }

  /** One iteration of the low-word loop. */
  method LowDigit(q: u32, p1: u32, h0: u32, h1: u32, i0: u32, i1: u32, r: u32, ghost n: nat)
    returns (q1: u32, s0: u32, s1: u32, ix0: u32, ix1: u32)
    requires 0 < r && q < 0x40_0000 && LowRoom(p1, 2 * r)
    requires Join(h0, h1) == 2 * Join(q, p1)
    requires Partial(n, Join(q, p1), Join(i0, i1), 2 * r)
    ensures LowRoom(q1, r) && Join(s0, s1) == 2 * Join(q, q1)
    ensures ix0 < 0x800_0000 && Partial(n, Join(q, q1), Join(ix0, ix1), r)
  {
    hide Partial, Pow2;
    LowDivisor(q, p1, h0, h1, r);
    LowRemainder(n, q, p1, i0, i1, r);
    RecurrenceStep(n, Join(q, p1), Join(i0, i1), r);
    q1, s0, s1, ix0, ix1 := p1, h0, h1, i0, i1;
    var t1, t := s1 + r, s0;
    JoinCompare(t, t1, ix0, ix1);
    if t < ix0 || (t == ix0 && t1 <= ix1) {
      s0, s1 := NextDivisor(s0, t1, r);
      ix0, ix1 := SubtractWords(ix0, ix1, t, t1);
      q1 := q1 + r;
      assert Join(q, q1) == Join(q, p1) + r;
    }
    ix0, ix1 := DoubleWords(ix0, ix1);
  }

  /** The low-word loop: digits of weight 2^31 down to 1. */
  method LowDigits(q: u32, h0: u32, i0: u32, i1: u32, ghost n: nat)
    returns (q1: u32, ix0: u32, ix1: u32)
    requires q < 0x40_0000 && h0 == 2 * q && i0 < 0x800_0000
    requires Partial(n, Join(q, 0), Join(i0, i1), TWO32)
    ensures Partial(n, Join(q, q1), Join(ix0, ix1), 1)
    ensures ix0 < 0x800_0000
  {
    hide Pow2;
    assert LowRoom(0, TWO32);
    hide Partial, LowRoom;
    var s0: u32, s1: u32 := h0, 0;
    var r: u32 := 0x8000_0000;
    q1, ix0, ix1 := 0, i0, i1;
    ghost var k := 32;
    assert Pow2(32) == TWO32 && Pow2(31) == TWO31 && Pow2(0) == 1 by { Pow2Values(); }
    while r != 0
      invariant 0 <= k <= 32 && Pow2(k) <= TWO32
      invariant r == if k == 0 then 0 else Pow2(k - 1)
      invariant Join(s0, s1) == 2 * Join(q, q1) && LowRoom(q1, Pow2(k)) && ix0 < 0x800_0000
      invariant Partial(n, Join(q, q1), Join(ix0, ix1), Pow2(k))
      decreases k
    {
      HalvePower(k);
      q1, s0, s1, ix0, ix1 := LowDigit(q, q1, s0, s1, ix0, ix1, r, n);
      r := Shr(r, 1);
      k := k - 1;
    }
  }

  /** Doubles the accepted bit in the divisor; the low word carries into the high one when
      its top bit goes from 1 to 0. */
  method NextDivisor(h0: u32, t1: u32, r: u32) returns (s0: u32, s1: u32)
    requires h0 < TWO31
    ensures s1 == Wrap(t1 + r) && s0 == h0 + Bit(t1 >= TWO31 && s1 < TWO31)
  {
    s0, s1 := h0, Wrap(t1 + r);
    TopBit(t1);
    TopBit(s1);
    if And(t1, 0x8000_0000) == 0x8000_0000 && And(s1, 0x8000_0000) == 0 { s0 := s0 + 1; }
  }

  /** Subtracts the divisor from the remainder, borrowing from the high word. */
  method SubtractWords(h0: u32, h1: u32, t: u32, t1: u32) returns (ix0: u32, ix1: u32)
    requires Join(t, t1) <= Join(h0, h1)
    ensures Join(ix0, ix1) == Join(h0, h1) - Join(t, t1)
    ensures ix0 <= h0
  {
    ix0, ix1 := h0 - t, h1;
    if ix1 < t1 { ix0 := ix0 - 1; }
    ix1 := Wrap(ix1 - t1);
    JoinSub(h0, h1, t, t1);
  }

  // ---------------------------------------------------------------- rounding

  lemma SquareMono(a: nat, b: nat)
    ensures a < b <==> a * a < b * b
    ensures a <= b <==> a * a <= b * b
  {
    if a < b {
      MulMono(a, a, b);
      MulStrict(b, a, b);
    } else {
      MulMono(b, b, a);
      MulMono(a, b, a);
      if b < a { MulStrict(a, b, a); }
    }
  }

  lemma OddSquare(a: nat)
    ensures (a * a) % 2 == a % 2
  {
    var h := a / 2;
    if a % 2 == 1 {
      assert a == 2 * h + 1;
      assert a * a == 2 * (2 * (h * h) + 2 * h) + 1;
    } else {
      assert a == 2 * h;
      assert a * a == 2 * (2 * (h * h));
    }
  }

  /** The 54-bit root of a significand y in [1,4), and its distance from rounding up. */
  lemma RootRange(y: nat, Q: nat, i: int)
    requires IMPLICIT <= y <= 4 * IMPLICIT - 2
    requires Partial(y * (4 * IMPLICIT), Q, i, 1)
    ensures 2 * IMPLICIT <= Q <= 4 * IMPLICIT - 2
    ensures i == 0 ==> Q % 2 == 0
    ensures Q * Q <= y * (4 * IMPLICIT) < (Q + 1) * (Q + 1)
    ensures i != 0 ==> Q * Q < y * (4 * IMPLICIT)
  {
    var n := y * (4 * IMPLICIT);
    RangeFromSquares(y, n, Q);
    if i == 0 {
      OddSquare(Q);
      assert n == 2 * (y * (2 * IMPLICIT));
    }
  }

  lemma RangeFromSquares(y: nat, n: nat, Q: nat)
    requires IMPLICIT <= y <= 4 * IMPLICIT - 2 && n == y * (4 * IMPLICIT)
    requires Q * Q <= n < (Q + 1) * (Q + 1)
    ensures 2 * IMPLICIT <= Q <= 4 * IMPLICIT - 2
  {
    var m := 2 * IMPLICIT;
    assert m * m <= n;
    SquareMono(m, Q + 1);
    var top := 4 * IMPLICIT - 1;
    assert n < top * top;
    SquareMono(Q, top);
  }

  /** Rounding the last of the 54 bits to even leaves the root strictly inside the
      rounding interval of the 53-bit result h. */
  lemma RoundedBounds(n: nat, Q: nat, i: int, h: nat)
    requires 0 < Q && Q * Q <= n < (Q + 1) * (Q + 1)
    requires i == 0 ==> Q % 2 == 0
    requires i != 0 ==> Q * Q < n
    requires 2 * h == Q + Q % 2
    ensures (2 * h - 1) * (2 * h - 1) < n < (2 * h + 1) * (2 * h + 1)
  {
    SquareMono(2 * h - 1, Q);
    SquareMono(Q + 1, 2 * h + 1);
  }

  /** Strictly inside the interval, the result is the nearest multiple ... */
  lemma NearestMultiple(n: nat, h: nat, p: nat, y: nat, x4: nat)
    requires p > 0 && h >= 1 && x4 == n * (p * p)
    requires (2 * h - 1) * (2 * h - 1) < n < (2 * h + 1) * (2 * h + 1)
    ensures y >= (h + 1) * p ==> x4 < (h * p + y) * (h * p + y)
    ensures y <= (h - 1) * p ==> (h * p + y) * (h * p + y) < x4
  {
    ScaledSquare(2 * h - 1, p, n);
    ScaledSquare(2 * h + 1, p, n);
    if y >= (h + 1) * p {
      assert h * p + (h + 1) * p == (2 * h + 1) * p;
      SquareMono((2 * h + 1) * p, h * p + y);
    }
    if y <= (h - 1) * p {
      assert h * p + (h - 1) * p == (2 * h - 1) * p;
      SquareMono(h * p + y, (2 * h - 1) * p);
    }
  }

  lemma ScaledSquare(a: nat, p: nat, n: nat)
    requires p > 0
    ensures (a * p) * (a * p) == (a * a) * (p * p)
    ensures a * a < n ==> (a * p) * (a * p) < n * (p * p)
    ensures a * a <= n ==> (a * p) * (a * p) <= n * (p * p)
    ensures n < a * a ==> n * (p * p) < (a * p) * (a * p)
  {
    assert (a * p) * (a * p) == (a * a) * (p * p) by {
      MulAssoc(a * p, a, p);
      MulAssoc(a, a, p);
      MulAssoc(a * a, p, p);
    }
    assert p * p > 0 by { MulStrict(p, 0, p); }
    MulStrict(p * p, a * a, n);
    MulStrict(p * p, n, a * a);
  }

  /** ... and at the start of a binade also against the finer binade below. */
  lemma NearestAtBinade(n: nat, h: nat, p: nat, y: nat, x4: nat)
    requires p > 0 && x4 == n * (p * p) && (2 * h) * (2 * h) <= n
    ensures y < h * p ==> (h * p + y) * (h * p + y) < x4
  {
    ScaledSquare(2 * h, p, n);
    if y < h * p {
      assert h * p + h * p == (2 * h) * p;
      SquareMono(h * p + y, (2 * h) * p);
    }
  }

  /** The value of x, its significand y and the root's unit 2^k fit together. */
  lemma RootScale(mag: nat, y: nat, k: nat)
    requires 485 <= k && mag * IMPLICIT == y * Pow2(2 * k - 970)
    ensures 4 * (mag * One()) == (y * (4 * IMPLICIT)) * (Pow2(k) * Pow2(k))
  {
    hide Pow2;
    var a: nat := 1074;
    RootExponents(k, a);
    ScaleProducts(mag, y, One(), Pow2(2 * k + 104 - a), Pow2(a - 52), Pow2(k) * Pow2(k), IMPLICIT);
  }

  lemma RootExponents(k: nat, a: nat)
    requires 52 <= a && 485 <= k && 2 * k + 104 >= a
    ensures Pow2(a) == Pow2(a - 52) * IMPLICIT
    ensures Pow2(2 * k + 104 - a) * Pow2(a - 52) == (Pow2(k) * Pow2(k)) * IMPLICIT
  {
    hide Pow2;
    assert Pow2(52) == IMPLICIT by { Pow2Values(); }
    Pow2Add(a - 52, 52);
    Pow2Add(2 * k + 104 - a, a - 52);
    Pow2Add(k + k, 52);
    Pow2Add(k, k);
  }

  lemma ScaleProducts(mag: nat, y: nat, one: nat, s: nat, t: nat, pp: nat, c: nat)
    requires one == t * c && s * t == pp * c && mag * c == y * s
    ensures 4 * (mag * one) == (y * (4 * c)) * pp
  {
    calc {
      mag * one;
      mag * (t * c);
      { MulAssoc(mag, t, c); }
      t * (mag * c);
      t * (y * s);
      { MulAssoc(t, y, s); MulAssoc(y, s, t); }
      y * (pp * c);
      { MulAssoc(y, pp, c); }
      (y * c) * pp;
    }
    MulAssoc(y, 4, c);
    MulAssoc(4, y * c, pp);
  }

  // ---------------------------------------------------------------- assembly

  /** Doubling an odd exponent's significand makes the exponent even. */
  lemma EvenExponent(mag: nat, X: nat, m: int)
    requires -51 <= m <= 2046 && mag * IMPLICIT == X * Pow2(m + 51)
    ensures var odd, half := (m - 1023) % 2, (m - 1023) / 2;
            mag * IMPLICIT == (X * (1 + odd)) * Pow2(2 * (half + 1022) - 970)
  {
    if (m - 1023) % 2 == 1 {
      MulAssoc(X, 2, Pow2(m + 50));
    }
  }

  /** The result with significand h and exponent half is the rounded root. */
  lemma RootIsNearest(x: Double, z: Double, y: nat, half: int, Q: nat, i: int, h: nat)
    requires IMPLICIT <= y <= 4 * IMPLICIT - 2 && -537 <= half <= 511
    requires Magnitude(x) * IMPLICIT == y * Pow2(2 * (half + 1022) - 970)
    requires Partial(y * (4 * IMPLICIT), Q, i, 1)
    requires 2 * h == Q + Q % 2
    requires IMPLICIT <= h < 2 * IMPLICIT && z == Pack(false, half + 1023, h - IMPLICIT)
    ensures IsRoundedRoot(x, z)
  {
    hide Pow2;
    var n, k := y * (4 * IMPLICIT), half + 1022;
    hide Magnitude, Partial, One;
    RootRange(y, Q, i);
    RoundedBounds(n, Q, i, h);
    RootScale(Magnitude(x), y, k);
    PackMagnitude(false, half + 1023, h);
    forall d: Double | IsFinite(d) && !Negative(d) && Magnitude(d) != Magnitude(z)
      ensures Nearer(Magnitude(x), One(), Magnitude(z), Magnitude(d))
    {
      NearestCandidate(n, h, k, d, 4 * (Magnitude(x) * One()));
    }
  }

  lemma NearestCandidate(n: nat, h: nat, k: nat, d: Double, x4: nat)
    requires IMPLICIT <= h < 2 * IMPLICIT && Magnitude(d) != h * Pow2(k)
    requires x4 == n * (Pow2(k) * Pow2(k)) && (2 * IMPLICIT) * (2 * IMPLICIT) <= n
    requires (2 * h - 1) * (2 * h - 1) < n < (2 * h + 1) * (2 * h + 1)
    ensures var z, y := h * Pow2(k), Magnitude(d);
            if z < y then x4 < (z + y) * (z + y) else (z + y) * (z + y) < x4
  {
    NearestMultiple(n, h, Pow2(k), Magnitude(d), x4);
    if Magnitude(d) > h * Pow2(k) {
      GapAbove(d, h, k);
    } else if h == IMPLICIT {
      NearestAtBinade(n, h, Pow2(k), Magnitude(d), x4);
    } else {
      GapBelow(d, h, k);
    }
  }

  lemma JoinParity(hi: nat, lo: u32)
    ensures Join(hi, lo) % 2 == lo % 2
    ensures Join(hi, lo) == 0 <==> hi == 0 && lo == 0
  {
    ModShift(lo, hi * 0x8000_0000, 2);
  }

  lemma RoundedRange(Q: nat)
    requires 2 * IMPLICIT <= Q <= 4 * IMPLICIT - 2
    ensures var e := Q + Q % 2;
            e % 2 == 0 && 2 * IMPLICIT <= e < 4 * IMPLICIT && IMPLICIT <= e / 2 < 2 * IMPLICIT && 2 * (e / 2) == e
  {
  }

  /** Rounds [q,q1] to even when digits were lost.  With round-to-nearest,
      one-tiny and one+tiny both equal one, so only the last branch is live. */
  method RoundDigits(p: u32, p1: u32, inexact: bool) returns (q: u32, q1: u32)
    requires p < 0x40_0000
    ensures inexact ==> Join(q, q1) == Join(p, p1) + Join(p, p1) % 2
    ensures !inexact ==> Join(q, q1) == Join(p, p1)
  {
    JoinParity(p, p1);
    q, q1 := p, p1;
    if inexact {
      if q1 == 0xffff_ffff {
        q1 := 0;
        q := q + 1;
      } else {
        assert Pow2(1) == 2;
        AndLow(q1, 1);
        q1 := q1 + And(q1, 1);
      }
    }
  }

  /** Halving a pair of words: the low bit of the high word moves down. */
  lemma JoinHalve(q: nat, q1: u32)
    requires Join(q, q1) % 2 == 0
    ensures Join(q, q1) / 2 == Join(q / 2, q1 / 2 + (q % 2) * TWO31)
    ensures q1 / 2 + (q % 2) * TWO31 < TWO32
  {
    JoinParity(q, q1);
    var a, b := q / 2, q1 / 2;
    assert q == 2 * a + q % 2 && q1 == 2 * b;
  }

  /** The low word of the halved root takes the lowest bit of the high word. */
  method HalveLow(q: u32, q1: u32) returns (ix1: u32)
    ensures ix1 == q1 / 2 + (q % 2) * TWO31
  {
    assert Pow2(1) == 2;
    AndLow(q, 1);
    ix1 := Shr(q1, 1);
    if And(q, 1) == 1 {
      assert Pow2(31) == TWO31 by { Pow2Values(); }
      OrDisjoint(TWO31, ix1, 31);
      OrComm(TWO31, ix1);
      ix1 := Or(ix1, 0x8000_0000);
    }
  }

  /** Packs the halved root with its exponent. */
  method AssembleRoot(q: u32, q1: u32, m: int) returns (z: Double)
    requires -537 <= m <= 511
    requires Join(q, q1) % 2 == 0 && 2 * IMPLICIT <= Join(q, q1) < 4 * IMPLICIT
    ensures z == Pack(false, m + 1023, Join(q, q1) / 2 - IMPLICIT)
  {
    JoinHalve(q, q1);
    var ix1 := HalveLow(q, q1);
    assert Shr(q, 1) == q / 2 by { assert Pow2(1) == 2; }
    var ix0 := Shr(q, 1) + 0x3fe0_0000;
    ix0 := ix0 + m * 0x10_0000;
    PackWords(q / 2, ix1, m + 1023);
    z := Double(ix0, ix1);
  }

  lemma PackWords(hi: nat, lo: u32, e: nat)
    requires TWO20 <= hi < 2 * TWO20 && e < 0x7ff
    ensures IMPLICIT <= Join(hi, lo) < 2 * IMPLICIT
    ensures Pack(false, e, Join(hi, lo) - IMPLICIT) == Double(hi + (e - 1) * TWO20, lo)
  {
    DivUnique(Join(hi - TWO20, lo), TWO32, hi - TWO20);
  }

  /** The two digit loops, rounding and re-packing, for a significand y in [1,4). */
  method RootOfSignificand(x: Double, i0: u32, i1: u32, m: int) returns (z: Double)
    requires IMPLICIT <= Join(i0, i1) <= 4 * IMPLICIT - 2 && -537 <= m <= 511
    requires Magnitude(x) * IMPLICIT == Join(i0, i1) * Pow2(2 * (m + 1022) - 970)
    ensures IsRoundedRoot(x, z)
  {
    ghost var y, n := Join(i0, i1), Join(i0, i1) * (4 * IMPLICIT);
    var ix0, ix1 := DoubleWords(i0, i1);
    FirstPartial(y);
    hide Partial, IsRoundedRoot;
    var q, s0, q1;
    q, s0, ix0, ix1 := HighDigits(ix0, ix1, n);
    q1, ix0, ix1 := LowDigits(q, s0, ix0, ix1, n);
    ghost var Q, i := Join(q, q1), Join(ix0, ix1);
    RootRange(y, Q, i);
    OrIsZero(ix0, ix1);
    JoinParity(ix0, ix1);
    RoundedRange(Q);
    q, q1 := RoundDigits(q, q1, Or(ix0, ix1) != 0);
    assert Join(q, q1) == Q + Q % 2;
    z := AssembleRoot(q, q1, m);
    RootIsNearest(x, z, y, m, Q, i, Join(q, q1) / 2);
  }

  lemma FirstPartial(y: nat)
    requires y <= 4 * IMPLICIT - 2
    ensures Partial(y * (4 * IMPLICIT), 0, 2 * y, 0x40_0000 * TWO32)
  {
  }

  /** `__ieee754_sqrt`; edom says whether errno is set to EDOM. */
  method Sqrt(x: Double) returns (r: Result, edom: bool)
    ensures !IsFinite(x) ==> r == NotFinite && edom
    ensures IsFinite(x) && Magnitude(x) == 0 ==> r == Root(x) && !edom
    ensures IsFinite(x) && Magnitude(x) > 0 && Negative(x) ==> r == Invalid && edom
    ensures IsFinite(x) && Magnitude(x) > 0 && !Negative(x)
            ==> r.Root? && IsRoundedRoot(x, r.z) && !edom
  {
    hide IsRoundedRoot, Magnitude;
    var ix0, ix1 := x.hi, x.lo;
    SpecialTests(x);
    if And(ix0, 0x7ff0_0000) == 0x7ff0_0000 { return NotFinite, true; }
    if Signed(ix0) <= 0 {
      if Or(And(ix0, 0x7fff_ffff), ix1) == 0 { return Root(x), false; }
      else if Signed(ix0) < 0 { return Invalid, true; }
    }
    var m;
    m, ix0, ix1 := Normalize(x);
    EvenExponent(Magnitude(x), Join(ix0, ix1), m);
    m := m - 1023;
    if m % 2 == 1 { ix0, ix1 := DoubleWords(ix0, ix1); }
    m := m / 2;
    var z := RootOfSignificand(x, ix0, ix1, m);
    return Root(z), false;
  }

  lemma SpecialTests(x: Double)
    ensures And(x.hi, 0x7ff0_0000) == 0x7ff0_0000 <==> !IsFinite(x)
    ensures Or(And(x.hi, 0x7fff_ffff), x.lo) == 0 <==> Magnitude(x) == 0
    ensures Signed(x.hi) > 0 ==> Magnitude(x) > 0
  {
    ExponentMask(x);
    MagnitudeMask(x.hi);
    OrIsZero(x.hi % TWO31, x.lo);
    MagnitudeFacts(x);
  }

  // ---------------------------------------------------------------- reading the specification

  /** x as a real number. */
  function Value(x: Double): real {
    Scaled(x) as real / One() as real
  }

  /** What `Nearer` says about real numbers: with r the real square root of x, z is
      closer to r than any other non-negative double y. */
  lemma RoundedRootIsClosest(x: Double, z: Double, y: Double, r: real)
    requires IsRoundedRoot(x, z) && !Negative(x) && r >= 0.0 && r * r == Value(x)
    requires IsFinite(y) && !Negative(y) && Magnitude(y) != Magnitude(z)
    ensures Distance(Value(z), r) < Distance(Value(y), r)
  {
    hide One, Magnitude;
    var one := One() as real;
    assert Nearer(Magnitude(x), One(), Magnitude(z), Magnitude(y));
    RealNearer(Magnitude(x) as real, one, Magnitude(z) as real, Magnitude(y) as real, r);
  }

  function Distance(a: real, b: real): real {
    if a < b then b - a else a - b
  }

  lemma RealNearer(x: real, one: real, z: real, y: real, r: real)
    requires one > 0.0 && x >= 0.0 && z >= 0.0 && y >= 0.0 && r >= 0.0 && z != y
    requires r * r == x / one
    requires if z < y then 4.0 * (x * one) < (z + y) * (z + y) else (z + y) * (z + y) < 4.0 * (x * one)
    ensures Distance(z / one, r) < Distance(y / one, r)
  {
    var m := r * one;
    RealSquare(x, one, r);
    if z < y { SquareOrder(2.0 * m, z + y); } else { SquareOrder(z + y, 2.0 * m); }
    DistanceScale(z, r, one);
    DistanceScale(y, r, one);
    RealDivMono(Distance(z, m), Distance(y, m), one);
  }

  lemma RealSquare(x: real, one: real, r: real)
    requires one > 0.0 && r * r == x / one
    ensures 4.0 * (x * one) == (2.0 * (r * one)) * (2.0 * (r * one))
  {
    assert (x / one) * one == x;
    assert x * one == (r * r) * one * one;
  }

  lemma SquareOrder(a: real, b: real)
    requires a >= 0.0 && b >= 0.0
    ensures a * a < b * b ==> a < b
  {
    if a >= b { assert a * a >= b * a >= b * b; }
  }

  lemma DistanceScale(a: real, r: real, one: real)
    requires one > 0.0
    ensures Distance(a / one, r) == Distance(a, r * one) / one
  {
    assert (a / one) * one == a;
    assert a / one - r == (a - r * one) / one;
  }

  lemma RealDivMono(a: real, b: real, c: real)
    requires c > 0.0 && a < b
    ensures a / c < b / c
  {
  }
}
