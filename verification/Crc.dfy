/**
 `RFLiCalculateCRC` and its two resumable versions.

 The register starts at 0 and takes the message bit by bit, most significant bit of
 each byte first; the message is not multiplied by x^16 beforehand.
 */
module Crc {
  import opened Words


  const GENERATOR: int := 0x1_1021  // x^16 + x^12 + x^5 + 1 (ITU-T V.41, section 2)

  /** Storing into a u8, and into a u16. */
  function Low8(x: int): u8 { x % 0x100 }

  function Low16(x: int): u16 { x % 0x1_0000 }

  // ---------------------------------------------------------------- the shift register

  lemma XorFits(x: nat, y: nat)
    requires x < 0x1_0000 && y < 0x1_0000
    ensures Xor(x, y) < 0x1_0000
  {
    assert Pow2(16) == 0x1_0000 by { Pow2Values(); }
    XorBound(x, y, 16);
  }

  /** One step of the register, taking in one message bit. */
  function ShiftIn(crc: u16, bit: bool): u16 {
    var shifted := Low16(2 * crc);
    XorFits(shifted, 0x1021);
    var reduced: u16 := if crc >= 0x8000 then Xor(shifted, 0x1021) else shifted;
    XorFits(reduced, Bit(bit));
    Xor(reduced, Bit(bit))
  }

  /** The register after a sequence of bits. */
  function Feed(crc: u16, bits: seq<bool>): u16 {
    if |bits| == 0 then crc else ShiftIn(Feed(crc, bits[..|bits| - 1]), bits[|bits| - 1])
  }

  /** The bits of a byte from its current top bit on. */
  function TopBits(data: u8, n: nat): (s: seq<bool>)
    ensures |s| == n
    decreases n
  {
    if n == 0 then [] else [data >= 0x80] + TopBits(Low8(2 * data), n - 1)
  }

  /** The message as bits, most significant first. */
  function BitsOf(bytes: seq<u8>): (s: seq<bool>)
    ensures |s| == 8 * |bytes|
  {
    if |bytes| == 0 then [] else BitsOf(bytes[..|bytes| - 1]) + TopBits(bytes[|bytes| - 1], 8)
  }

  /** The CRC of a message. */
  function CrcOf(bytes: seq<u8>): u16 {
    Feed(0, BitsOf(bytes))
  }

  lemma {:induction false} FeedConcat(crc: u16, a: seq<bool>, b: seq<bool>)
    ensures Feed(crc, a + b) == Feed(Feed(crc, a), b)
  {
    if |b| == 0 {
      assert a + b == a;
    } else {
      var n := |b| - 1;
      assert (a + b)[..|a| + n] == a + b[..n];
      FeedConcat(crc, a, b[..n]);
    }
  }

  lemma FeedFirst(crc: u16, bit: bool, rest: seq<bool>)
    ensures Feed(crc, [bit] + rest) == Feed(ShiftIn(crc, bit), rest)
  {
    FeedConcat(crc, [bit], rest);
    assert [bit][..0] == [];
  }

  // ---------------------------------------------------------------- the direct loop

  /** The body of the inner loop. */
  method FeedBit(start: u16, data: u8) returns (crc: u16)
    ensures crc == ShiftIn(start, data >= 0x80)
  {
    StepBits(start, data);
    hide ShiftIn, Xor, And;
    crc := start;
    if And(crc, 0x8000) != 0 {
      crc := Low16(2 * crc);
      crc := Xor(crc, 0x1021);
    } else {
      crc := Low16(2 * crc);
    }
    if And(data, 0x80) != 0 {
      crc := Xor(crc, 0x1);
    }
  }

  /** The inner loop: eight steps, most significant bit of data first. */
  method FeedByte(start: u16, byte: u8) returns (crc: u16)
    ensures crc == Feed(start, TopBits(byte, 8))
  {
    hide Feed, TopBits, ShiftIn;
    var data: u8 := byte;
    crc := start;
    var j := 0;
    while j < 8
      invariant 0 <= j <= 8
      invariant Feed(start, TopBits(byte, 8)) == Feed(crc, TopBits(data, 8 - j))
    {
      FeedTop(crc, data, 8 - j);
      crc := FeedBit(crc, data);
      data := Low8(2 * data as int);
      j := j + 1;
    }
    FeedNothing(crc, data);
  }

  lemma FeedNothing(crc: u16, data: u8)
    ensures Feed(crc, TopBits(data, 0)) == crc
  {
  }

  lemma FeedTop(crc: u16, data: u8, n: nat)
    requires n > 0
    ensures Feed(crc, TopBits(data, n)) == Feed(ShiftIn(crc, data >= 0x80), TopBits(Low8(2 * data as int), n - 1))
  {
    FeedFirst(crc, data >= 0x80, TopBits(Low8(2 * data as int), n - 1));
  }

  /** The register tests of the source are the ones of `ShiftIn`. */
  lemma StepBits(crc: u16, data: u8)
    ensures And(crc, 0x8000) != 0 <==> crc >= 0x8000
    ensures And(data, 0x80) != 0 <==> data >= 0x80
    ensures Xor(Low16(2 * crc), 0x1021) < 0x1_0000
    ensures var reduced: nat := if crc >= 0x8000 then Xor(Low16(2 * crc), 0x1021) else Low16(2 * crc);
            reduced < 0x1_0000 && Xor(reduced, 0x1) < 0x1_0000
            && ShiftIn(crc, data >= 0x80) == if data >= 0x80 then Xor(reduced, 0x1) else reduced
  {
    assert Pow2(15) == 0x8000 && Pow2(7) == 0x80 by { Pow2Values(); }
    TestBit(crc, 15, 0x8000);
    TestBit(data, 7, 0x80);
    hide Pow2, And;
    var shifted := Low16(2 * crc);
    XorFits(shifted, 0x1021);
    var reduced: nat := if crc >= 0x8000 then Xor(shifted, 0x1021) else shifted;
    XorFits(reduced, 1);
    XorZero(reduced);
  }

  lemma TestBit(w: nat, k: nat, bit: nat)
    requires bit == Pow2(k) && w < 2 * bit
    ensures And(w, bit) != 0 <==> w >= bit
  {
    assert Pow2(1) == 2 by { Pow2Values(); }
    AndMask(w, 1, k);
    assert Mask(1, k) == bit;
    DivUnique(w, bit, if w >= bit then 1 else 0);
  }

  /** `RFLiCalculateCRC`. */
  method CalculateCRC(p: seq<u8>) returns (crc: u16)
    ensures crc == CrcOf(p)
  {
    hide Feed, TopBits, BitsOf;
    EmptyMessage();
    assert p[..0] == [];
    crc := 0;
    var i := 0;
    while i < |p|
      invariant 0 <= i <= |p| && crc == CrcOf(p[..i])
    {
      ByteAppend(0, p[..i], p[i]);
      assert p[..i + 1] == p[..i] + [p[i]];
      crc := FeedByte(crc, p[i]);
      i := i + 1;
    }
    assert p[..i] == p;
  }

  lemma EmptyMessage()
    ensures CrcOf([]) == 0
  {
  }

  lemma ByteAppend(crc: u16, p: seq<u8>, b: u8)
    ensures Feed(crc, BitsOf(p + [b])) == Feed(Feed(crc, BitsOf(p)), TopBits(b, 8))
    ensures CrcOf(p + [b]) == Feed(CrcOf(p), TopBits(b, 8))
  {
    assert (p + [b])[..|p|] == p;
    FeedConcat(crc, BitsOf(p), TopBits(b, 8));
    FeedConcat(0, BitsOf(p), TopBits(b, 8));
  }

  // ---------------------------------------------------------------- linearity

  /** Bitwise difference of equally long bit strings. */
  function Difference(a: seq<bool>, b: seq<bool>): (d: seq<bool>)
    requires |a| == |b|
    ensures |d| == |a|
  {
    seq(|a|, i requires 0 <= i < |a| => a[i] != b[i])
  }

  /** The part of a step that does not depend on the message. */
  function Shift(crc: u16): u16 {
    XorFits(Low16(2 * crc), 0x1021);
    if crc >= 0x8000 then Xor(Low16(2 * crc), 0x1021) else Low16(2 * crc)
  }

  lemma ShiftInParts(crc: u16, bit: bool)
    ensures ShiftIn(crc, bit) == Xor(Shift(crc), Bit(bit))
  {
  }

  /** x^16 is replaced by the rest of the generator: dropping the bit that leaves the
      register is adding x^16, so a step multiplies by x modulo the generator. */
  lemma ShiftIsReduction(crc: u16)
    ensures Shift(crc) == Xor(2 * crc as int, if crc >= 0x8000 then GENERATOR else 0)
  {
    hide Xor;
    if crc >= 0x8000 {
      ReduceTop(Low16(2 * crc));
    } else {
      XorZero(2 * crc as int);
    }
  }

  lemma ReduceTop(low: u16)
    ensures Xor(low, 0x1021) == Xor(low + 0x1_0000, GENERATOR)
  {
    HighBitXor(low);
    HighBitXor(0x1021);
    hide Xor;
    XorSwap(low, 0x1_0000, 0x1021, 0x1_0000);
    XorSelf(0x1_0000);
    XorZero(Xor(low, 0x1021));
  }

  lemma HighBitXor(low: nat)
    requires low < 0x1_0000
    ensures Xor(low, 0x1_0000) == low + 0x1_0000
  {
    assert Pow2(16) == 0x1_0000 by { Pow2Values(); }
    hide Xor, Pow2;
    XorDisjoint(low, 16);
  }

  lemma {:induction false} XorDisjoint(low: nat, k: nat)
    requires low < Pow2(k)
    ensures Xor(low, Pow2(k)) == low + Pow2(k)
  {
    if k > 0 {
      XorDisjoint(low / 2, k - 1);
      XorDouble(low, Pow2(k - 1));
    }
  }

  lemma ShiftLinear(a: u16, b: u16)
    ensures Xor(a, b) < 0x1_0000
    ensures Shift(Xor(a, b)) == Xor(Shift(a), Shift(b))
  {
    XorFits(a, b);
    var c := Xor(a, b);
    ShiftIsReduction(a);
    ShiftIsReduction(b);
    ShiftIsReduction(c);
    XorEven(a, b);
    TopOfXor(a, b);
    hide Shift, Xor;
    var ga, gb: nat := if a >= 0x8000 then GENERATOR else 0, if b >= 0x8000 then GENERATOR else 0;
    XorSwap(2 * a as int, ga, 2 * b as int, gb);
    XorSelf(GENERATOR);
    XorZero(GENERATOR);
    XorZero(0);
  }

  /** The top bit of a sum is the sum of the top bits. */
  lemma TopOfXor(a: u16, b: u16)
    ensures Xor(a, b) >= 0x8000 <==> (a >= 0x8000) != (b >= 0x8000)
  {
    assert Pow2(15) == 0x8000 by { Pow2Values(); }
    XorTop(a, b, 15);
  }

  lemma {:induction false} XorTop(a: nat, b: nat, k: nat)
    requires a < 2 * Pow2(k) && b < 2 * Pow2(k)
    ensures Xor(a, b) >= Pow2(k) <==> (a >= Pow2(k)) != (b >= Pow2(k))
  {
    XorHalves(a, b);
    if k > 0 {
      XorTop(a / 2, b / 2, k - 1);
    } else {
      XorHalves(a, b);
      XorZero(0);
    }
  }

  lemma StepLinear(a: u16, b: u16, x: bool, y: bool)
    ensures Xor(a, b) < 0x1_0000
    ensures ShiftIn(Xor(a, b), x != y) == Xor(ShiftIn(a, x), ShiftIn(b, y))
  {
    ShiftLinear(a, b);
    ShiftInParts(a, x);
    ShiftInParts(b, y);
    ShiftInParts(Xor(a, b), x != y);
    assert Bit(x != y) == Xor(Bit(x), Bit(y)) by { XorZero(0); XorZero(1); XorSelf(1); }
    XorSwap(Shift(a), Bit(x), Shift(b), Bit(y));
  }

  /** The register is linear over GF(2) in its start value and the message. */
  lemma {:induction false} FeedLinear(a: u16, b: u16, x: seq<bool>, y: seq<bool>)
    requires |x| == |y|
    ensures Xor(a, b) < 0x1_0000
    ensures Feed(Xor(a, b), Difference(x, y)) == Xor(Feed(a, x), Feed(b, y))
  {
    XorFits(a, b);
    if |x| > 0 {
      var n := |x| - 1;
      FeedLinear(a, b, x[..n], y[..n]);
      assert Difference(x, y)[..n] == Difference(x[..n], y[..n]);
      StepLinear(Feed(a, x[..n]), Feed(b, y[..n]), x[n], y[n]);
    }
  }

  // ---------------------------------------------------------------- the CRC as a polynomial remainder

  /** The number whose binary digits are the bits: the coefficients of a polynomial. */
  function Value(bits: seq<bool>): nat {
    if |bits| == 0 then 0 else 2 * Value(bits[..|bits| - 1]) + Bit(bits[|bits| - 1])
  }

  /** The message as one number, first byte most significant. */
  function BigEndian(bytes: seq<u8>): nat {
    if |bytes| == 0 then 0 else 0x100 * BigEndian(bytes[..|bytes| - 1]) + bytes[|bytes| - 1]
  }

  /** Multiplication of polynomials over GF(2). */
  function ClMul(q: nat, g: nat): nat {
    if q == 0 then 0 else Xor(2 * ClMul(q / 2, g), if q % 2 == 1 then g else 0)
  }

  /** The quotient of the long division that the register performs. */
  function Quotient(bits: seq<bool>): nat {
    if |bits| == 0 then 0
    else 2 * Quotient(bits[..|bits| - 1]) + Bit(Feed(0, bits[..|bits| - 1]) >= 0x8000)
  }

  lemma ClMulStep(q: nat, t: bool)
    ensures ClMul(2 * q + Bit(t), GENERATOR) == Xor(2 * ClMul(q, GENERATOR), if t then GENERATOR else 0)
  {
    assert (2 * q + Bit(t)) / 2 == q;
    XorZero(0);
  }

  lemma XorLowBit(x: nat, b: bool)
    ensures 2 * x + Bit(b) == Xor(2 * x, Bit(b))
  {
    XorZero(x);
    assert (2 * x) / 2 == x;
  }

  /** The register holds the message minus a multiple of the generator. */
  lemma {:induction false} DivisionStep(bits: seq<bool>)
    ensures Value(bits) == Xor(ClMul(Quotient(bits), GENERATOR), Feed(0, bits))
  {
    hide Xor, ShiftIn, ClMul;
    if |bits| == 0 {
      EmptyDivision();
    } else {
      var n := |bits| - 1;
      DivisionStep(bits[..n]);
      DivideBit(Value(bits[..n]), Quotient(bits[..n]), Feed(0, bits[..n]), bits[n]);
    }
  }

  lemma EmptyDivision()
    ensures Xor(ClMul(0, GENERATOR), 0) == 0
  {
  }

  lemma DivideBit(v: nat, q: nat, c: u16, b: bool)
    requires v == Xor(ClMul(q, GENERATOR), c)
    ensures 2 * v + Bit(b) == Xor(ClMul(2 * q + Bit(c >= 0x8000), GENERATOR), ShiftIn(c, b))
  {
    hide Xor, ShiftIn, Shift, ClMul;
    ShiftInParts(c, b);
    ShiftIsReduction(c);
    ClMulStep(q, c >= 0x8000);
    XorLowBit(v, b);
    XorEven(ClMul(q, GENERATOR), c);
    CancelReduction(2 * ClMul(q, GENERATOR), 2 * c as int, if c >= 0x8000 then GENERATOR else 0, Bit(b));
  }

  lemma CancelReduction(m: nat, c: nat, g: nat, b: nat)
    ensures Xor(Xor(m, g), Xor(Xor(c, g), b)) == Xor(Xor(m, c), b)
  {
    XorAssoc(Xor(m, g), Xor(c, g), b);
    XorSwap(m, g, c, g);
    XorSelf(g);
    XorZero(Xor(m, c));
  }

  lemma {:induction false} ClMulLinear(p: nat, q: nat, g: nat)
    ensures ClMul(Xor(p, q), g) == Xor(ClMul(p, g), ClMul(q, g))
    decreases p + q
  {
    XorZero(0);
    XorZero(g);
    XorSelf(g);
    if p != 0 || q != 0 {
      ClMulLinear(p / 2, q / 2, g);
      XorHalves(p, q);
      var gp, gq := if p % 2 == 1 then g else 0, if q % 2 == 1 then g else 0;
      ClMulUnfold(p, g);
      ClMulUnfold(q, g);
      ClMulUnfold(Xor(p, q), g);
      XorEven(ClMul(p / 2, g), ClMul(q / 2, g));
      XorSwap(2 * ClMul(p / 2, g), gp, 2 * ClMul(q / 2, g), gq);
    }
  }

  lemma ClMulUnfold(q: nat, g: nat)
    ensures ClMul(q, g) == Xor(2 * ClMul(q / 2, g), if q % 2 == 1 then g else 0)
  {
    XorZero(0);
  }

  lemma {:induction false} XorHigh(x: nat, y: nat, k: nat)
    requires y < Pow2(k) <= x
    ensures Xor(x, y) >= Pow2(k)
  {
    XorHalves(x, y);
    if k > 0 { XorHigh(x / 2, y / 2, k - 1); } else { XorZero(x); }
  }

  /** A nonzero multiple of the generator has degree at least 16. */
  lemma {:induction false} ClMulDegree(q: nat)
    requires q > 0
    ensures ClMul(q, GENERATOR) >= 0x1_0000
  {
    XorZero(GENERATOR);
    if q > 1 {
      ClMulDegree(q / 2);
      assert Pow2(17) == 0x2_0000 by { Pow2Values(); }
      XorHigh(2 * ClMul(q / 2, GENERATOR), if q % 2 == 1 then GENERATOR else 0, 17);
    }
  }

  lemma RemainderUnique(q: nat, r: u16, q': nat, r': u16)
    requires Xor(ClMul(q, GENERATOR), r) == Xor(ClMul(q', GENERATOR), r')
    ensures r == r'
  {
    hide Xor, ClMul;
    var m, m' := ClMul(q, GENERATOR), ClMul(q', GENERATOR);
    XorSwap(m, r, m', r');
    XorSelf(Xor(m, r));
    XorCancel(Xor(m, m'), Xor(r, r'));
    ClMulLinear(q, q', GENERATOR);
    XorFits(r, r');
    if Xor(q, q') != 0 {
      ClMulDegree(Xor(q, q'));
    } else {
      ClMulZero();
    }
    XorCancel(r, r');
  }

  lemma ClMulZero()
    ensures ClMul(0, GENERATOR) == 0
  {
  }

  /** r is the CRC of the message exactly if it is the remainder of the message
      polynomial modulo the generator. */
  lemma CrcIsRemainder(bytes: seq<u8>, r: u16)
    ensures r == CrcOf(bytes) <==> exists q: nat :: BigEndian(bytes) == Xor(ClMul(q, GENERATOR), r)
  {
    BitsValue(bytes);
    DivisionStep(BitsOf(bytes));
    if q: nat :| BigEndian(bytes) == Xor(ClMul(q, GENERATOR), r) {
      RemainderUnique(q, r, Quotient(BitsOf(bytes)), CrcOf(bytes));
    }
  }

  // ---------------------------------------------------------------- bits and bytes

  lemma {:induction false} ValueConcat(a: seq<bool>, b: seq<bool>)
    ensures Value(a + b) == Value(a) * Pow2(|b|) + Value(b)
  {
    if |b| == 0 {
      assert a + b == a;
    } else {
      var n := |b| - 1;
      assert (a + b)[..|a| + n] == a + b[..n];
      ValueConcat(a, b[..n]);
      MulAssoc(Value(a), 2, Pow2(n));
    }
  }

  lemma {:induction false} TopBitsValue(data: u8, n: nat)
    requires n <= 8
    ensures Value(TopBits(data, n)) == data / Pow2(8 - n)
    decreases n
  {
    if n == 0 {
      assert Pow2(8) == 0x100 by { Pow2Values(); }
    } else {
      var rest := Low8(2 * data as int);
      TopBitsValue(rest, n - 1);
      ValueConcat([data >= 0x80], TopBits(rest, n - 1));
      assert [data >= 0x80][..0] == [];
      assert Value([data >= 0x80]) == Bit(data >= 0x80);
      TopBitQuotient(data, n);
    }
  }

  lemma TopBitQuotient(data: u8, n: nat)
    requires 1 <= n <= 8
    ensures data / Pow2(8 - n) == Bit(data >= 0x80) * Pow2(n - 1) + Low8(2 * data as int) / Pow2(9 - n)
  {
    assert Pow2(7) == 0x80 by { Pow2Values(); }
    Pow2Split(7, n - 1);
    assert Pow2(9 - n) == 2 * Pow2(8 - n);
    hide Pow2;
    SplitTopBit(data, Pow2(n - 1), Pow2(8 - n));
  }

  lemma SplitTopBit(data: u8, c: nat, p: nat)
    requires p > 0 && c * p == 0x80
    ensures data / p == Bit(data >= 0x80) * c + Low8(2 * data as int) / (2 * p)
  {
    var d := if data >= 0x80 then data - 0x80 else data;
    DoubledLow(data, d);
    DoubledQuotient(d, p);
    ModShift(d, c, p);
    hide Low8;
    if data >= 0x80 { assert data == d + c * p; }
  }

  lemma DoubledLow(data: u8, d: nat)
    requires d == if data >= 0x80 then data - 0x80 else data
    ensures Low8(2 * data as int) == 2 * d
  {
  }

  lemma DoubledQuotient(d: nat, p: nat)
    requires p > 0
    ensures (2 * d) / (2 * p) == d / p
  {
    DivModScale(d, p, 2);
  }

  lemma ByteValue(b: u8, n: nat)
    requires n == 8
    ensures Value(TopBits(b, n)) == b
  {
    hide Value, TopBits, Pow2;
    TopBitsValue(b, n);
    assert Pow2(0) == 1 by { Pow2Values(); }
  }

  lemma {:induction false} BitsValue(bytes: seq<u8>)
    ensures Value(BitsOf(bytes)) == BigEndian(bytes)
  {
    hide TopBits, Value;
    if |bytes| == 0 {
      EmptyValue();
    } else {
      var n := |bytes| - 1;
      BitsValue(bytes[..n]);
      ValueConcat(BitsOf(bytes[..n]), TopBits(bytes[n], 8));
      ByteValue(bytes[n], 8);
      assert Pow2(8) == 0x100 by { Pow2Values(); }
    }
  }

  lemma EmptyValue()
    ensures Value([]) == 0
  {
  }

  lemma LastByteBits(a: seq<u8>)
    requires |a| > 0
    ensures var n := |a| - 1;
            BitsOf(a)[..8 * n] == BitsOf(a[..n]) && BitsOf(a)[8 * n..] == TopBits(a[n], 8)
  {
    hide TopBits;
  }

  /** Different messages of the same length have different bits. */
  lemma {:induction false} BitsInjective(a: seq<u8>, b: seq<u8>)
    requires |a| == |b| && BitsOf(a) == BitsOf(b)
    ensures a == b
  {
    hide TopBits, Value, BitsOf;
    if |a| > 0 {
      var n := |a| - 1;
      LastByteBits(a);
      LastByteBits(b);
      BitsInjective(a[..n], b[..n]);
      SameByte(a[n], b[n]);
      SameSequence(a, b);
    }
  }

  lemma SameByte(x: u8, y: u8)
    ensures TopBits(x, 8) == TopBits(y, 8) ==> x == y
  {
    hide TopBits, Value;
    ByteValue(x, 8);
    ByteValue(y, 8);
  }

  lemma SameSequence(a: seq<u8>, b: seq<u8>)
    requires |a| == |b| > 0 && a[..|a| - 1] == b[..|a| - 1] && a[|a| - 1] == b[|a| - 1]
    ensures a == b
  {
    assert a == a[..|a| - 1] + [a[|a| - 1]];
  }

  // ---------------------------------------------------------------- burst errors

  predicate AllZero(bits: seq<bool>) {
    forall i :: 0 <= i < |bits| ==> !bits[i]
  }

  /** The shift step is invertible: only 0 is mapped to 0. */
  lemma ShiftNonzero(crc: u16)
    requires crc != 0
    ensures ShiftIn(crc, false) != 0
  {
    ShiftInParts(crc, false);
    XorZero(Shift(crc));
    if crc >= 0x8000 {
      XorHalves(Low16(2 * crc), 0x1021);
    }
  }

  lemma {:induction false} ZerosAfter(crc: u16, bits: seq<bool>)
    requires AllZero(bits)
    ensures crc != 0 ==> Feed(crc, bits) != 0
    ensures crc == 0 ==> Feed(crc, bits) == 0
  {
    if |bits| > 0 {
      var n := |bits| - 1;
      ZerosAfter(crc, bits[..n]);
      if crc != 0 {
        ShiftNonzero(Feed(crc, bits[..n]));
      } else {
        XorZero(0);
      }
    }
  }

  lemma ShiftSmall(crc: u16, bit: bool)
    requires crc < 0x8000
    ensures ShiftIn(crc, bit) == 2 * crc as int + Bit(bit)
  {
    hide Xor, ShiftIn;
    ShiftInParts(crc, bit);
    XorLowBit(crc, bit);
  }

  /** Up to 16 bits fit the register unreduced. */
  lemma {:induction false} ShortMessage(bits: seq<bool>)
    requires |bits| <= 16
    ensures Feed(0, bits) == Value(bits) < Pow2(|bits|)
  {
    hide ShiftIn;
    if |bits| > 0 {
      var n := |bits| - 1;
      ShortMessage(bits[..n]);
      assert Pow2(15) == 0x8000 by { Pow2Values(); }
      Pow2Monotonic(n, 15);
      ShiftSmall(Feed(0, bits[..n]), bits[n]);
    }
  }

  lemma {:induction false} ValueNonzero(bits: seq<bool>)
    requires !AllZero(bits)
    ensures Value(bits) > 0
  {
    var n := |bits| - 1;
    if !bits[n] { ValueNonzero(bits[..n]); }
  }

  /** The CRC of a difference that is zero outside a window of 16 bits. */
  lemma BurstNonzero(d: seq<bool>, i: nat)
    requires !AllZero(d)
    requires forall k :: 0 <= k < |d| && !(i <= k < i + 16) ==> !d[k]
    ensures Feed(0, d) != 0
  {
    hide Feed, Value, ShiftIn;
    var lo := if i < |d| then i else |d|;
    var hi := if i + 16 < |d| then i + 16 else |d|;
    var a, b, c := d[..lo], d[lo..hi], d[hi..];
    assert d == (a + b) + c;
    FeedConcat(0, a + b, c);
    FeedConcat(0, a, b);
    ZerosAfter(0, a);
    ShortMessage(b);
    WindowNonzero(d, lo, hi);
    ValueNonzero(b);
    ZerosAfter(Feed(0, b), c);
  }

  lemma WindowNonzero(d: seq<bool>, lo: nat, hi: nat)
    requires lo <= hi <= |d| && !AllZero(d)
    requires forall k :: 0 <= k < |d| && !(lo <= k < hi) ==> !d[k]
    ensures !AllZero(d[lo..hi])
  {
    var k :| 0 <= k < |d| && d[k];
    assert d[lo..hi][k - lo];
  }

  /** Any change of a message that is confined to 16 consecutive bits changes the CRC. */
  lemma BurstDetected(a: seq<u8>, b: seq<u8>, i: nat)
    requires |a| == |b| && a != b
    requires forall k :: 0 <= k < 8 * |a| && !(i <= k < i + 16) ==> BitsOf(a)[k] == BitsOf(b)[k]
    ensures CrcOf(a) != CrcOf(b)
  {
    hide Feed, BitsOf, TopBits, Xor;
    var x, y := BitsOf(a), BitsOf(b);
    var d := Difference(x, y);
    if AllZero(d) {
      forall k | 0 <= k < |x| ensures x[k] == y[k] { assert !d[k]; }
      assert x == y;
      BitsInjective(a, b);
    } else {
      BurstNonzero(d, i);
      XorSelf(0);
      FeedLinear(0, 0, x, y);
      XorCancel(CrcOf(a), CrcOf(b));
    }
  }

  // ---------------------------------------------------------------- the stored checksum

  lemma BigEndianTail(m: seq<u8>, hi: u8, lo: u8)
    ensures BigEndian(m + [hi, lo]) == BigEndian(m) * 0x1_0000 + hi * 0x100 + lo
  {
    assert (m + [hi, lo])[..|m| + 1] == m + [hi];
    assert (m + [hi])[..|m|] == m;
  }

  /** A message that ends with the CRC of itself with those two bytes zeroed has CRC 0. */
  lemma SelfCheck(m: seq<u8>, hi: u8, lo: u8)
    requires CrcOf(m + [0, 0]) == hi as int * 0x100 + lo
    ensures CrcOf(m + [hi, lo]) == 0
  {
    hide CrcOf, Xor, ClMul, BigEndian;
    var c := CrcOf(m + [0, 0]);
    var q := QuotientOf(m + [0, 0]);
    BigEndianTail(m, 0, 0);
    BigEndianTail(m, hi, lo);
    assert Xor(BigEndian(m) * 0x1_0000, c) == BigEndian(m) * 0x1_0000 + c by {
      assert Pow2(16) == 0x1_0000 by { Pow2Values(); }
      XorShifted(BigEndian(m), c, 16);
    }
    XorAssoc(ClMul(q, GENERATOR), c, c);
    XorSelf(c);
    assert BigEndian(m + [hi, lo]) == Xor(ClMul(q, GENERATOR), 0);
    CrcIsRemainder(m + [hi, lo], 0);
  }

  lemma QuotientOf(bytes: seq<u8>) returns (q: nat)
    ensures BigEndian(bytes) == Xor(ClMul(q, GENERATOR), CrcOf(bytes))
  {
    hide CrcOf, Xor, ClMul, BigEndian;
    CrcIsRemainder(bytes, CrcOf(bytes));
    q :| BigEndian(bytes) == Xor(ClMul(q, GENERATOR), CrcOf(bytes));
  }

  // ---------------------------------------------------------------- the resumable loops

  const ASYNC_CRC_STEP: nat := 0x1400

  /** How many alarms a run over `size` bytes takes. */
  function AlarmsFor(size: nat): nat {
    if size <= ASYNC_CRC_STEP then 1 else 1 + AlarmsFor(size - ASYNC_CRC_STEP)
  }

  /** One alarm for every started step, and one for an empty image. */
  lemma {:induction false} AlarmsAreCeiling(size: nat)
    ensures AlarmsFor(size) == if size == 0 then 1 else (size + ASYNC_CRC_STEP - 1) / ASYNC_CRC_STEP
  {
    if size > ASYNC_CRC_STEP { AlarmsAreCeiling(size - ASYNC_CRC_STEP); }
  }

  /** `RFLiCRCInfo` and the database image it runs over; the image ends with the two
      bytes of `hidden.crc`. */
  class HeaderCrc {
    const database: array<u8>
    var current: nat
    var count: nat
    var crc: u16
    var size: nat
    var armed: bool

    constructor (image: array<u8>)
      ensures database == image && !armed
    {
      database := image;
      current, count, crc, size, armed := 0, 0, 0, 0, false;
    }

    /** A suspended run holds the CRC of the prefix it has read. */
    predicate Suspended()
      reads this, database
    {
      && armed && size == database.Length
      && current == count <= size
      && crc == CrcOf(database[..count])
    }

    /** The common part of `RFLiCreateHeaderCRCAsync` and `RFLiCheckHeaderCRCAsync`. */
    method Start()
      modifies this
      ensures Suspended() && count == 0
    {
      size, current, count, crc := database.Length, 0, 0, 0;
      armed := true;
      EmptyMessage();
      assert database[..0] == [];
    }

    /** The loop of `alarmCreateCb_` and `alarmCheckCb_`: at most one step of bytes, then
        either the alarm is set again or the CRC is handed to the callback. */
    method Alarm() returns (done: bool, result: u16)
      requires Suspended()
      modifies this
      ensures done <==> database.Length <= old(count) + ASYNC_CRC_STEP
      ensures done ==> result == CrcOf(database[..]) && !armed
      ensures !done ==> Suspended() && count == old(count) + ASYNC_CRC_STEP
    {
      hide CrcOf, Feed, BitsOf, TopBits;
      var current', count', crc', curCount := current, count, crc, 0;
      done, result := false, 0;
      while count' < size
        invariant count == old(count) && size == database.Length
        invariant count' == current' == count + curCount <= size && curCount <= ASYNC_CRC_STEP
        invariant crc' == CrcOf(database[..count'])
      {
        var data := database[current'];
        if curCount >= ASYNC_CRC_STEP {
          current, count, crc := current', count', crc';
          armed := true;
          return;
        }
        ByteAppend(0, database[..count'], data);
        assert database[..count' + 1] == database[..count'] + [data];
        crc' := FeedByte(crc', data);
        current', count', curCount := current' + 1, count' + 1, curCount + 1;
      }
      assert database[..count'] == database[..];
      armed := false;
      done, result := true, crc';
    }

    /** A check run, from the request to the callback. */
    method Check() returns (result: u16, alarms: nat)
      modifies this
      ensures result == CrcOf(database[..]) && !armed
      ensures alarms == AlarmsFor(database.Length)
    {
      hide CrcOf;
      Start();
      var done;
      done, result := Alarm();
      alarms := 1;
      while !done
        invariant done ==> result == CrcOf(database[..]) && !armed && alarms == AlarmsFor(database.Length)
        invariant !done ==> Suspended() && alarms + AlarmsFor(size - count) == AlarmsFor(database.Length)
        decreases if done then 0 else 1, size - count
      {
        done, result := Alarm();
        alarms := alarms + 1;
      }
    }

    /** A create run: `hidden.crc` is cleared, and set big-endian after the callback, which
        starts the save. `handed` is the image as the callback finds it: its checksum is not
        in it yet, so that a save that took the image at once would pass the check only if
        the checksum is 0. */
    method Create() returns (result: u16, alarms: nat, handed: seq<u8>)
      requires database.Length >= 2
      modifies this, database
      ensures alarms == AlarmsFor(database.Length)
      ensures var n := database.Length - 2;
              && database[..n] == old(database[..n])
              && result == CrcOf(database[..n] + [0, 0])
              && database[n] as int * 0x100 + database[n + 1] == result
              && handed == old(database[..n]) + [0, 0]
      ensures CrcOf(handed) == result
      ensures CrcOf(database[..]) == 0
    {
      hide CrcOf;
      var n := database.Length - 2;
      database[n], database[n + 1] := 0, 0;
      ghost var m := database[..n];
      assert database[..] == m + [0, 0];
      result, alarms := Check();
      handed := database[..];
      database[n], database[n + 1] := result / 0x100, result % 0x100;
      assert database[..] == m + [database[n], database[n + 1]];
      SelfCheck(m, database[n], database[n + 1]);
    }
  }
}
