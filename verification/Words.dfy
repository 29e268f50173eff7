/**
 The 32-bit machine words of the C sources, as integers.

 A word is the integer its bits denote; `Signed` reads the same bits as two's
 complement.  The bitwise operators are defined bit by bit, and the lemmas below
 connect the masks, shifts and disjoint ORs of the sources to arithmetic.
 */
module Words {

  const TWO32: int := 0x1_0000_0000
  const TWO31: int := 0x8000_0000

  type u8 = x: int | 0 <= x < 0x100
  type u16 = x: int | 0 <= x < 0x1_0000
  type u32 = x: int | 0 <= x < 0x1_0000_0000
  type i32 = x: int | -0x8000_0000 <= x < 0x8000_0000

  function Pow2(n: nat): (p: nat)
    ensures p > 0
  {
    if n == 0 then 1 else 2 * Pow2(n - 1)
  }

  /** Reduction modulo 2^32, what storing into an `unsigned` does. */
  function Wrap(x: int): u32 {
    x % TWO32
  }

  /** The `int` with the bit pattern `u`. */
  function Signed(u: u32): i32 {
    if u < TWO31 then u else u - TWO32
  }

  /** `x << n` on an unsigned word. */
  function Shl(x: u32, n: nat): u32 {
    (x * Pow2(n)) % TWO32
  }

  /** `x >> n` on an unsigned word. */
  function Shr(x: u32, n: nat): (r: u32)
  {
    DivBound(x, Pow2(n));
    x / Pow2(n)
  }

  /** `x >> n` on an `int` with pattern `x`: the sign bit is replicated. */
  function Sar(x: u32, n: nat): u32 {
    Wrap(Signed(x) / Pow2(n))
  }

  function Bit(b: bool): nat { if b then 1 else 0 }

  function And(x: nat, y: nat): (r: nat)
    ensures r <= x && r <= y
  {
    if x == 0 || y == 0 then 0 else 2 * And(x / 2, y / 2) + Bit(x % 2 == 1 && y % 2 == 1)
  }

  function Or(x: nat, y: nat): nat {
    if x == 0 && y == 0 then 0 else 2 * Or(x / 2, y / 2) + Bit(x % 2 == 1 || y % 2 == 1)
  }

  function Xor(x: nat, y: nat): nat {
    if x == 0 && y == 0 then 0 else 2 * Xor(x / 2, y / 2) + Bit(x % 2 != y % 2)
  }

  // ---------------------------------------------------------------- powers of two

  lemma {:induction false} Pow2Add(a: nat, b: nat)
    ensures Pow2(a + b) == Pow2(a) * Pow2(b)
  {
    if a != 0 {
      Pow2Add(a - 1, b);
      assert Pow2(a + b) == 2 * Pow2(a - 1 + b);
    }
  }

  lemma Pow2Split(a: nat, b: nat)
    requires b <= a
    ensures Pow2(a - b) * Pow2(b) == Pow2(a)
  {
    Pow2Add(a - b, b);
  }

  lemma {:induction false} Pow2Monotonic(a: nat, b: nat)
    requires a <= b
    ensures Pow2(a) <= Pow2(b)
    ensures a < b ==> 2 * Pow2(a) <= Pow2(b)
  {
    if a < b { Pow2Monotonic(a, b - 1); }
  }

  lemma Pow2Values()
    ensures Pow2(0) == 1 && Pow2(1) == 2 && Pow2(11) == 0x800 && Pow2(22) == 0x40_0000
    ensures Pow2(7) == 0x80 && Pow2(8) == 0x100 && Pow2(15) == 0x8000 && Pow2(16) == 0x1_0000 && Pow2(23) == 0x80_0000
    ensures Pow2(20) == 0x10_0000 && Pow2(21) == 0x20_0000
    ensures Pow2(24) == 0x100_0000 && Pow2(31) == TWO31 && Pow2(32) == TWO32
    ensures Pow2(52) == 0x10_0000_0000_0000 && Pow2(53) == 0x20_0000_0000_0000
  {
    assert Pow2(10) == 0x400;
    Pow2Add(10, 10);
    Pow2Add(20, 11);
    Pow2Add(21, 1);
    Pow2Add(20, 32);
    Pow2Add(21, 32);
  }

  lemma DivBound(x: nat, d: nat)
    requires d > 0
    ensures 0 <= x / d <= x
  {
    MulMono(x / d, 1, d);
  }

  /** Quotients are determined by their two inequalities. */
  lemma DivUnique(x: int, d: int, q: int)
    requires d > 0 && q * d <= x < (q + 1) * d
    ensures x / d == q
    ensures x % d == x - q * d
  {
    var k, r := x / d, x % d;
    assert x == d * k + r;
    assert d * k <= x < d * (k + 1);
    MulStrict(d, k, q + 1);
    MulStrict(d, q, k + 1);
  }

  lemma MulMono(a: int, x: int, y: int)
    requires a >= 0 && x <= y
    ensures a * x <= a * y
    ensures x * a <= y * a
  {
  }

  lemma MulStrict(a: int, x: int, y: int)
    requires a > 0
    ensures a * x < a * y <==> x < y
    ensures a * x <= a * y <==> x <= y
    ensures a * x == a * y <==> x == y
  {
    if x < y { assert a * (y - x) > 0; } else if y < x { assert a * (x - y) > 0; }
  }

  lemma MulSub(a: int, b: int, c: int)
    ensures (a - b) * c == a * c - b * c == a * c - c * b
  {
  }

  lemma DivDiv(x: nat, a: nat, b: nat)
    requires a > 0 && b > 0
    ensures a * b > 0
    ensures (x / a) / b == x / (a * b)
  {
    assert a * b > 0;
    var q := (x / a) / b;
    var r1, r2 := x % a, (x / a) % b;
    assert x == a * (b * q + r2) + r1;
    assert a * (b * q + r2) == (a * b) * q + a * r2;
    assert a * r2 <= a * (b - 1) by { MulMono(a, r2, b - 1); }
    assert a * (b - 1) == a * b - a;
    assert (q + 1) * (a * b) == q * (a * b) + a * b;
    DivUnique(x, a * b, q);
  }

  /** Scaling by a common factor leaves a quotient and scales a remainder. */
  lemma DivModScale(x: int, y: int, c: int)
    requires y > 0 && c > 0
    ensures y * c > 0
    ensures (x * c) / (y * c) == x / y
    ensures (x * c) % (y * c) == (x % y) * c
  {
    var q, r := x / y, x % y;
    assert y * c > 0;
    assert x == y * q + r;
    assert x * c == (y * q) * c + r * c;
    assert (y * q) * c == q * (y * c);
    assert r * c >= 0;
    assert r * c < y * c;
    assert (q + 1) * (y * c) == q * (y * c) + y * c;
    DivUnique(x * c, y * c, q);
  }

  /** Adding a multiple of the modulus leaves the remainder. */
  lemma ModShift(x: int, k: int, m: int)
    requires m > 0
    ensures (x + k * m) % m == x % m
    ensures (x + k * m) / m == x / m + k
  {
    var q, r := x / m, x % m;
    assert x == m * q + r;
    assert (q + k) * m == q * m + k * m;
    assert (q + k + 1) * m == q * m + k * m + m;
    DivUnique(x + k * m, m, q + k);
  }

  /** Between multiples of p there is room for a remainder. */
  lemma MultipleRoom(a: nat, b: nat, p: nat, t: nat)
    requires p > 0 && a * p < b * p && t < p
    ensures a * p + t < b * p
  {
    MulStrict(p, a, b);
    MulMono(p, a + 1, b);
  }

  // ---------------------------------------------------------------- masks

  lemma {:induction false} AndSelf(x: nat)
    ensures And(x, x) == x
  {
    if x > 0 { AndSelf(x / 2); }
  }

  lemma {:induction false} AndComm(x: nat, y: nat)
    ensures And(x, y) == And(y, x)
  {
    if x != 0 && y != 0 { AndComm(x / 2, y / 2); }
  }

  lemma {:induction false} AndLow(x: nat, a: nat)
    ensures And(x, Pow2(a) - 1) == x % Pow2(a)
  {
    if a == 0 {
    } else if x == 0 {
    } else {
      var p := Pow2(a - 1);
      AndLow(x / 2, a - 1);
      assert And(x, 2 * p - 1) == 2 * And(x / 2, p - 1) + x % 2 by {
        assert (2 * p - 1) / 2 == p - 1 && (2 * p - 1) % 2 == 1;
        AndZero(x / 2);
      }
      ModDouble(x, p);
    }
  }

  lemma AndZero(x: nat)
    ensures And(x, 0) == 0
  {
  }

  lemma ModDouble(x: int, p: int)
    requires p > 0
    ensures x % (2 * p) == 2 * ((x / 2) % p) + x % 2
  {
    var h := x / 2;
    var q, r := h / p, h % p;
    assert h == p * q + r;
    assert x == (2 * p) * q + (2 * r + x % 2);
    assert (q + 1) * (2 * p) == q * (2 * p) + 2 * p;
    DivUnique(x, 2 * p, q);
  }

  /** The mask with `a` ones above `b` zeros. */
  function Mask(a: nat, b: nat): nat {
    MulMono(Pow2(b), 1, Pow2(a));
    (Pow2(a) - 1) * Pow2(b)
  }

  /** The `a`-bit field of `x` that starts at bit `b`. */
  function Field(x: nat, a: nat, b: nat): nat {
    DivBound(x, Pow2(b));
    (x / Pow2(b)) % Pow2(a)
  }

  /** Masking keeps a bit field in place. */
  lemma {:induction false} AndMask(x: nat, a: nat, b: nat)
    ensures And(x, Mask(a, b)) == Field(x, a, b) * Pow2(b)
  {
    if b == 0 {
      AndLow(x, a);
    } else {
      AndMask(x / 2, a, b - 1);
      MaskStep(x, a, b);
      AndDouble(x, Mask(a, b - 1));
      MulAssoc(Field(x, a, b), 2, Pow2(b - 1));
    }
  }

  lemma MaskStep(x: nat, a: nat, b: nat)
    requires b > 0
    ensures Mask(a, b) == 2 * Mask(a, b - 1)
    ensures Field(x, a, b) == Field(x / 2, a, b - 1)
  {
    DivDiv(x, 2, Pow2(b - 1));
    MulAssoc(Pow2(a) - 1, 2, Pow2(b - 1));
  }

  lemma MulAssoc(a: int, b: int, c: int)
    ensures a * (b * c) == b * (a * c) == (a * b) * c
  {
  }

  lemma AndDouble(x: nat, y: nat)
    ensures And(x, 2 * y) == 2 * And(x / 2, y)
  {
    if x != 0 && y != 0 {
      assert (2 * y) / 2 == y && (2 * y) % 2 == 0;
    }
  }

  /** OR of words with no common bits is addition. */
  lemma {:induction false} OrDisjoint(x: nat, y: nat, k: nat)
    requires x % Pow2(k) == 0 && y < Pow2(k)
    ensures Or(x, y) == x + y
  {
    if k == 0 {
      assert y == 0;
      OrZero(x);
    } else if x == 0 && y == 0 {
    } else {
      var p := Pow2(k - 1);
      var q := x / (2 * p);
      assert x == 2 * (p * q);
      ModShift(0, q, p);
      assert x / 2 == 0 + q * p;
      OrDisjoint(x / 2, y / 2, k - 1);
    }
  }

  lemma {:induction false} OrZero(x: nat)
    ensures Or(x, 0) == x
  {
    if x != 0 { OrZero(x / 2); }
  }

  lemma {:induction false} OrComm(x: nat, y: nat)
    ensures Or(x, y) == Or(y, x)
  {
    if x != 0 || y != 0 { OrComm(x / 2, y / 2); }
  }

  lemma {:induction false} OrAtLeast(x: nat, y: nat)
    ensures Or(x, y) >= x && Or(x, y) >= y
    decreases x + y
  {
    if x != 0 || y != 0 { OrAtLeast(x / 2, y / 2); }
  }

  lemma {:induction false} OrBound(x: nat, y: nat, k: nat)
    requires x < Pow2(k) && y < Pow2(k)
    ensures Or(x, y) < Pow2(k)
  {
    if k == 0 {
    } else if x != 0 || y != 0 {
      OrBound(x / 2, y / 2, k - 1);
    }
  }

  lemma OrIsZero(x: nat, y: nat)
    ensures Or(x, y) == 0 <==> x == 0 && y == 0
  {
    OrAtLeast(x, y);
  }

  lemma TopBit(w: u32)
    ensures Shr(w, 31) == w / TWO31
    ensures And(w, TWO31) == (w / TWO31) * TWO31
    ensures Shr(And(w, TWO31), 31) == w / TWO31
  {
    hide And, Pow2;
    assert Pow2(31) == TWO31 && Pow2(1) == 2 by { Pow2Values(); }
    AndMask(w, 1, 31);
    assert Mask(1, 31) == TWO31;
    OneBitField(w);
  }

  lemma OneBitField(w: u32)
    ensures Field(w, 1, 31) == w / TWO31
    ensures ((w / TWO31) * TWO31) / TWO31 == w / TWO31
  {
    assert Pow2(31) == TWO31 && Pow2(1) == 2 by { Pow2Values(); }
    hide Pow2;
  }

  lemma ShlExact(x: u32, n: nat)
    requires x * Pow2(n) < TWO32
    ensures Shl(x, n) == x * Pow2(n)
  {
  }

  /** The bits of x from bit k up. */
  function Top(x: nat, k: nat): nat {
    DivBound(x, Pow2(k));
    MulMono(Pow2(k), 0, x / Pow2(k));
    (x / Pow2(k)) * Pow2(k)
  }

  lemma TopStep(x: nat, k: nat)
    requires k > 0
    ensures Top(x, k) == 2 * Top(x / 2, k - 1)
    ensures x % Pow2(k) == 2 * ((x / 2) % Pow2(k - 1)) + x % 2
  {
    DivDiv(x, 2, Pow2(k - 1));
    MulAssoc(x / Pow2(k), 2, Pow2(k - 1));
    ModDouble(x, Pow2(k - 1));
  }

  /** XOR with its own top part clears it. */
  lemma {:induction false} XorClear(x: nat, k: nat)
    ensures Xor(x, Top(x, k)) == x % Pow2(k)
  {
    if k == 0 {
      XorSelf(x);
    } else {
      XorClear(x / 2, k - 1);
      TopStep(x, k);
      XorDouble(x, Top(x / 2, k - 1));
    }
  }

  lemma {:induction false} XorSelf(x: nat)
    ensures Xor(x, x) == 0
  {
    if x != 0 { XorSelf(x / 2); }
  }

  lemma XorDouble(x: nat, y: nat)
    ensures Xor(x, 2 * y) == 2 * Xor(x / 2, y) + x % 2
  {
    assert (2 * y) / 2 == y && (2 * y) % 2 == 0;
  }

  lemma OrLowBit(h: nat, b: nat)
    requires b <= 1
    ensures Or(h, b) == if b == 1 && h % 2 == 0 then h + 1 else h
  {
    OrZero(h / 2);
  }

  // ---------------------------------------------------------------- XOR is addition over GF(2)

  lemma {:induction false} XorComm(x: nat, y: nat)
    ensures Xor(x, y) == Xor(y, x)
  {
    if x != 0 || y != 0 { XorComm(x / 2, y / 2); }
  }

  lemma XorHalves(x: nat, y: nat)
    ensures Xor(x, y) / 2 == Xor(x / 2, y / 2)
    ensures Xor(x, y) % 2 == Bit(x % 2 != y % 2)
  {
  }

  lemma {:induction false} XorAssoc(x: nat, y: nat, z: nat)
    ensures Xor(Xor(x, y), z) == Xor(x, Xor(y, z))
    decreases x + y + z
  {
    XorHalves(x, y);
    XorHalves(y, z);
    XorHalves(Xor(x, y), z);
    XorHalves(x, Xor(y, z));
    if x != 0 || y != 0 || z != 0 { XorAssoc(x / 2, y / 2, z / 2); }
  }

  lemma {:induction false} XorZero(x: nat)
    ensures Xor(x, 0) == x && Xor(0, x) == x
  {
    if x != 0 { XorZero(x / 2); }
  }

  /** Four summands may be paired either way. */
  lemma XorSwap(a: nat, b: nat, c: nat, d: nat)
    ensures Xor(Xor(a, b), Xor(c, d)) == Xor(Xor(a, c), Xor(b, d))
  {
    XorAssoc(a, b, Xor(c, d));
    XorAssoc(b, c, d);
    XorComm(b, c);
    XorAssoc(c, b, d);
    XorAssoc(a, c, Xor(b, d));
  }

  /** Cancelling an equal summand. */
  lemma XorCancel(a: nat, b: nat)
    ensures Xor(a, Xor(a, b)) == b
    ensures Xor(a, b) == 0 <==> a == b
  {
    XorAssoc(a, a, b);
    XorSelf(a);
    XorZero(b);
    XorZero(a);
  }

  lemma {:induction false} XorBound(x: nat, y: nat, k: nat)
    requires x < Pow2(k) && y < Pow2(k)
    ensures Xor(x, y) < Pow2(k)
  {
    if k > 0 && (x != 0 || y != 0) { XorBound(x / 2, y / 2, k - 1); }
  }

  lemma XorEven(x: nat, y: nat)
    ensures Xor(2 * x, 2 * y) == 2 * Xor(x, y)
  {
    assert (2 * x) / 2 == x && (2 * y) / 2 == y;
  }

  /** XOR of words with no common bits is addition. */
  lemma {:induction false} XorShifted(x: nat, y: nat, k: nat)
    requires y < Pow2(k)
    ensures Xor(x * Pow2(k), y) == x * Pow2(k) + y
  {
    if k == 0 {
      XorZero(x);
    } else {
      var t := x * Pow2(k - 1);
      MulAssoc(x, 2, Pow2(k - 1));
      XorShifted(x, y / 2, k - 1);
      XorComm(2 * t, y);
      XorDouble(y, t);
      XorComm(y / 2, t);
    }
  }
}
