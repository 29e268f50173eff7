/**
 The digit arithmetic of `__kernel_rem_pio2`: distilling the products q[] into 24-bit
 digits, and splitting the number they denote into n, a sign and a fraction.

 The doubles of this part hold exact values: whole numbers below 2^53, and z, a
 dyadic fraction scaled by `scalbn`; so they are modelled as integers and reals.
 */
module RemPio2 {
  import opened Words

  const B: int := 0x100_0000  // 2^24

  function Base(n: nat): (b: nat)
    ensures b > 0
  {
    if n == 0 then 1 else B * Base(n - 1)
  }

  /** The number with base-2^24 digits s, least significant first. */
  function Digits(s: seq<int>): int {
    if |s| == 0 then 0 else Digits(s[..|s| - 1]) + s[|s| - 1] * Base(|s| - 1)
  }

  /** The number sum of q[i] * 2^(24*(last-i)), with q[] most significant first. */
  function Weighted(q: seq<nat>): nat {
    if |q| == 0 then 0 else Weighted(q[..|q| - 1]) * B + q[|q| - 1]
  }

  predicate AreDigits(s: seq<int>) {
    forall i :: 0 <= i < |s| ==> 0 <= s[i] < B
  }

  lemma {:induction false} DigitsBound(s: seq<int>)
    requires AreDigits(s)
    ensures 0 <= Digits(s) < Base(|s|)
  {
    if |s| > 0 {
      var n := |s| - 1;
      DigitsBound(s[..n]);
      MulMono(Base(n), s[n], B - 1);
      MulMono(Base(n), 0, s[n]);
      MulSub(B, 1, Base(n));
    }
  }

  // ---------------------------------------------------------------- distillation

  /** One step: the product at position j-1 takes over what z exceeds 24 bits by. */
  lemma DistillStep(q: seq<nat>, j: nat, z: nat, base: nat, digits: int)
    requires 1 <= j <= |q|
    ensures var fw, d := z / B, z % B;
            (Weighted(q[..j]) * B + z) * base + digits
            == (Weighted(q[..j - 1]) * B + (q[j - 1] + fw)) * (B * base) + (digits + d * base)
  {
    var w := Weighted(q[..j - 1]);
    assert q[..j][..j - 1] == q[..j - 1];
    assert Weighted(q[..j]) == w * B + q[j - 1];
    CarryUp(w, q[j - 1], z, base);
  }

  lemma CarryUp(w: nat, next: nat, z: nat, base: nat)
    ensures var fw, d := z / B, z % B;
            ((w * B + next) * B + z) * base == (w * B + (next + fw)) * (B * base) + d * base
  {
    var fw, d := z / B, z % B;
    assert ((w * B + next) * B + z) == (w * B + (next + fw)) * B + d;
    MulAssoc(w * B + (next + fw), B, base);
  }

  /** The distillation loop: each product keeps its low 24 bits as a
      digit and hands the rest to the next one.  The total value is conserved. */
  method Distill(q: seq<nat>, jz: nat, iq: array<int>) returns (z: nat)
    requires jz < |q| && jz <= iq.Length
    requires forall i :: 0 <= i <= jz ==> q[i] < 0x10_0000_0000_0000
    modifies iq
    ensures AreDigits(iq[..jz])
    ensures Weighted(q[..jz + 1]) == z * Base(jz) + Digits(iq[..jz])
    ensures z < 0x10_0000_2000_0000
    ensures forall k :: jz <= k < iq.Length ==> iq[k] == old(iq[k])
  {
    hide Weighted, Digits, Base;
    var i, j := 0, jz;
    z := q[jz];
    DistillStart(q, jz);
    assert iq[..0] == [];
    while j > 0
      invariant 0 <= j && i + j == jz
      invariant z < 0x10_0000_2000_0000
      invariant AreDigits(iq[..i])
      invariant Weighted(q[..jz + 1]) == (Weighted(q[..j]) * B + z) * Base(i) + Digits(iq[..i])
      invariant forall k :: i <= k < iq.Length ==> iq[k] == old(iq[k])
    {
      ghost var before := iq[..i];
      var fw := z / B;
      DistillStep(q, j, z, Base(i), Digits(before));
      AppendDigit(before, z % B);
      NextBase(i);
      iq[i] := z - B * fw;
      assert iq[..i + 1] == before + [z % B];
      z := q[j - 1] + fw;
      i, j := i + 1, j - 1;
    }
    assert q[..0] == [];
    NothingWeighted();
  }

  lemma DistillStart(q: seq<nat>, jz: nat)
    requires jz < |q|
    ensures Weighted(q[..jz + 1]) == (Weighted(q[..jz]) * B + q[jz]) * Base(0) + Digits([])
  {
    assert q[..jz + 1][..jz] == q[..jz];
  }

  lemma NextBase(i: nat)
    ensures Base(i + 1) == B * Base(i)
  {
  }

  lemma NothingWeighted()
    ensures Weighted([]) == 0
  {
  }

  lemma AppendDigit(s: seq<int>, d: int)
    ensures Digits(s + [d]) == Digits(s) + d * Base(|s|)
    ensures AreDigits(s) && 0 <= d < B ==> AreDigits(s + [d])
  {
    assert (s + [d])[..|s|] == s;
  }

  // ---------------------------------------------------------------- the complement loop

  /** `compute 1-q`: the digits of 2^(24*jz) minus the number, or 0 for 0. */
  method Complement(iq: array<int>, jz: nat) returns (carry: int)
    requires jz <= iq.Length && AreDigits(iq[..jz])
    modifies iq
    ensures AreDigits(iq[..jz])
    ensures carry == if Digits(old(iq[..jz])) == 0 then 0 else 1
    ensures Digits(iq[..jz]) == if carry == 0 then 0 else Base(jz) - Digits(old(iq[..jz]))
    ensures forall k :: jz <= k < iq.Length ==> iq[k] == old(iq[k])
  {
    ghost var was := iq[..jz];
    carry := 0;
    var i := 0;
    while i < jz
      invariant 0 <= i <= jz && (carry == 0 || carry == 1)
      invariant AreDigits(iq[..jz])
      invariant forall k :: i <= k < iq.Length ==> iq[k] == old(iq[k])
      invariant Complemented(was[..i], iq[..i], carry)
    {
      ghost var before := iq[..i];
      var j := iq[i];
      ComplementDigit(was[..i], before, j);
      hide Complemented, Digits;
      if carry == 0 {
        if j != 0 {
          carry := 1;
          iq[i] := 0x100_0000 - j;
        }
      } else {
        iq[i] := 0xff_ffff - j;
      }
      assert was[..i + 1] == was[..i] + [j];
      assert iq[..i + 1] == before + [iq[i]];
      i := i + 1;
    }
    assert was[..jz] == was;
  }

  /** The invariant of the loop: the processed digits, and whether any was nonzero. */
  predicate Complemented(was: seq<int>, now: seq<int>, carry: int) {
    && |was| == |now|
    && (carry == 0 <==> Digits(was) == 0)
    && Digits(now) == if carry == 0 then 0 else Base(|was|) - Digits(was)
  }

  lemma ComplementDigit(was: seq<int>, now: seq<int>, j: int)
    requires |was| == |now| && AreDigits(was) && 0 <= j < B
    ensures Complemented(was, now, 0) && j == 0 ==> Complemented(was + [j], now + [0], 0)
    ensures Complemented(was, now, 0) && j != 0 ==> Complemented(was + [j], now + [B - j], 1)
    ensures Complemented(was, now, 1) ==> Complemented(was + [j], now + [B - 1 - j], 1)
  {
    var base := Base(|was|);
    DigitsBound(was);
    AppendDigit(was, j);
    AppendDigit(now, 0);
    AppendDigit(now, B - j);
    AppendDigit(now, B - 1 - j);
    MulMono(base, 0, j);
    MulMono(base, 1, j + 1);
    MulSub(B, j, base);
    MulSub(B - 1, j, base);
    MulSub(B, 1, base);
    assert j != 0 ==> j * base > 0 by { MulStrict(base, 0, j); }
  }

  // ---------------------------------------------------------------- the integer part of z

  /** z * 2^k. */
  function Scalbn(z: real, k: int): real {
    if k >= 0 then z * Pow2(k) as real else z / Pow2(-k) as real
  }

  lemma FloorQuotient(a: int, b: int)
    requires b > 0
    ensures (a as real / b as real).Floor == a / b
  {
    var q, x := a / b, a as real / b as real;
    assert a == b * q + a % b;
    assert x * b as real == a as real;
    RealProduct(b, q);
    RealProduct(b, q + 1);
    assert b * q <= a < b * (q + 1) by { assert b * (q + 1) == b * q + b; }
    RealBounds(x, b as real, q as real, (q + 1) as real);
  }

  lemma RealProduct(a: int, b: int)
    ensures (a * b) as real == a as real * b as real
  {
  }

  lemma RealBounds(x: real, b: real, lo: real, hi: real)
    requires b > 0.0 && b * lo <= x * b < b * hi
    ensures lo <= x < hi
  {
    RealOrder(x, lo, b);
    RealOrder(x, hi, b);
  }

  lemma RealOrder(x: real, y: real, b: real)
    requires b > 0.0
    ensures x < y <==> x * b < b * y
  {
    if x < y { assert (y - x) * b > 0.0; } else { assert (x - y) * b >= 0.0; }
  }

  /** Scaling, dropping multiples of 8 and splitting off the integer n are exact. */
  lemma IntegerSteps(a: nat, d: nat, z: real)
    requires d > 0 && z == a as real / d as real
    ensures var m := a % (8 * d);
            var z1 := z - 8.0 * (z * 0.125).Floor as real;
            && z1.Floor == m / d && 0 <= m / d < 8
            && z1 - z1.Floor as real == (m % d) as real / d as real
            && a == 8 * d * (a / (8 * d)) + m / d * d + m % d
  {
    var m, k := a % (8 * d), a / (8 * d);
    assert z * 0.125 == a as real / (8 * d) as real by { EighthOf(a as real, d as real); }
    FloorQuotient(a, 8 * d);
    assert a == 8 * d * k + m;
    RemainderQuotient(a, 8 * k, m, d);
    FloorQuotient(m, d);
    assert m == d * (m / d) + m % d;
    RemainderQuotient(m, m / d, m % d, d);
    MulStrict(d, m / d, 8);
  }

  lemma EighthOf(a: real, d: real)
    requires d > 0.0
    ensures a / d * 0.125 == a / (8.0 * d)
  {
  }

  lemma RemainderQuotient(a: int, k: int, m: int, d: int)
    requires d > 0 && a == d * k + m
    ensures a as real / d as real - k as real == m as real / d as real
  {
    assert (d * k) as real == d as real * k as real;
    assert a as real / d as real == (d as real * k as real) / d as real + m as real / d as real;
  }

  // ---------------------------------------------------------------- n, ih and the fraction

  /** 1.0 in units of the last digit, whose weight is 2^(q0-24*jz). */
  function Unit(jz: nat, q0: int): nat
    requires q0 <= 24 * jz
  {
    Pow2(24 * jz - q0)
  }

  lemma {:induction false} BasePower(n: nat)
    ensures Base(n) == Pow2(24 * n)
  {
    if n > 0 {
      BasePower(n - 1);
      assert Pow2(24) == B by { Pow2Values(); }
      Pow2Add(24 * (n - 1), 24);
    }
  }

  /** The fraction that z and the digits denote together, in the same units. */
  function Fraction(z: real, digits: int, unit: int): real {
    z * unit as real + digits as real
  }

  /** The number w (in those units) is n, modulo 8, plus or minus a fraction of at
      most 1/2; ih > 0 is the sign. */
  predicate SplitsInto(w: int, unit: int, k: int, n: int, ih: int, fraction: real) {
    && w as real == (8 * k + n) as real * unit as real + (if ih == 0 then fraction else -fraction)
    && 0.0 <= fraction
    && (if ih == 0 then 2.0 * fraction < unit as real else 2.0 * fraction <= unit as real)
  }

  /** Scales z, drops multiples of 8 and splits off the integer part. */
  method IntegerPart(z0: nat, q0: int) returns (n: int, z: real, ghost k: int, ghost r: nat)
    ensures 0 <= n < 8
    ensures q0 >= 0 ==> z == 0.0 && z0 * Pow2(q0) == 8 * k + n
    ensures q0 < 0 ==> var d := Pow2(-q0);
                       r < d && z0 == (8 * k + n) * d + r && z == r as real / d as real
  {
    z := Scalbn(z0 as real, q0);
    ghost var d := if q0 < 0 then Pow2(-q0) else 1;
    ghost var a := if q0 < 0 then z0 else z0 * Pow2(q0);
    ScalbnQuotient(z0, q0, a, d);
    IntegerSteps(a, d, z);
    hide Scalbn, Pow2;
    z := z - 8.0 * (z * 0.125).Floor as real;
    n := z.Floor;
    z := z - n as real;
    k, r := a / (8 * d), a % (8 * d) % d;
    CollectEights(d, k, n);
  }

  lemma ScalbnQuotient(z0: nat, q0: int, a: nat, d: nat)
    requires d == if q0 < 0 then Pow2(-q0) else 1
    requires a == if q0 < 0 then z0 else z0 * Pow2(q0)
    ensures d > 0 && Scalbn(z0 as real, q0) == a as real / d as real
  {
    if q0 >= 0 { assert (z0 * Pow2(q0)) as real == z0 as real * Pow2(q0) as real; }
  }

  lemma CollectEights(d: int, k: int, n: int)
    ensures 8 * d * k + n * d == (8 * k + n) * d
  {
  }

  /** The q0 top bits of the leading digit belong to n; the next bit is the half test. */
  method TopBits(iq: array<int>, jz: nat, q0: int) returns (i: int, ih: int)
    requires 1 <= jz <= iq.Length && (q0 == 1 || q0 == 2) && AreDigits(iq[..jz])
    modifies iq
    ensures AreDigits(iq[..jz]) && (ih == 0 || ih == 1) && 0 <= i < 4
    ensures Digits(old(iq[..jz])) == i * Unit(jz, q0) + Digits(iq[..jz])
    ensures 0 <= Digits(iq[..jz]) < Unit(jz, q0)
    ensures ih == 1 <==> 2 * Digits(iq[..jz]) >= Unit(jz, q0)
  {
    ghost var low, top := iq[..jz - 1], iq[jz - 1];
    assert iq[..jz] == low + [top];
    AppendDigit(low, top);
    var m := if q0 == 1 then 0x80_0000 else 0x40_0000;
    UnitOfTop(jz, q0);
    i := iq[jz - 1] / m;
    iq[jz - 1] := iq[jz - 1] - i * m;
    ih := iq[jz - 1] / (m / 2);
    assert iq[..jz] == low + [top % m];
    AppendDigit(low, top % m);
    DigitsBound(low);
    TopSplit(Digits(low), top, Base(jz - 1), m);
  }

  /** 2^(24-q0) top-digit units make 1.0. */
  lemma UnitOfTop(jz: nat, q0: int)
    requires jz >= 1 && (q0 == 1 || q0 == 2)
    ensures Unit(jz, q0) == (if q0 == 1 then 0x80_0000 else 0x40_0000) * Base(jz - 1)
    ensures Base(jz) == Pow2(q0) * Unit(jz, q0)
  {
    BasePower(jz - 1);
    BasePower(jz);
    assert Pow2(24) == B && Pow2(22) == 0x40_0000 && Pow2(1) == 2 by { Pow2Values(); }
    assert Pow2(23) == 0x80_0000 && Pow2(2) == 4;
    Pow2Add(24 - q0, 24 * (jz - 1));
    Pow2Add(q0, 24 * jz - q0);
    assert 24 - q0 + 24 * (jz - 1) == 24 * jz - q0;
  }

  lemma TopSplit(low: int, top: int, base: int, m: int)
    requires 0 <= low < base && 0 <= top < B && (m == 0x80_0000 || m == 0x40_0000)
    ensures low + top * base == (top / m) * (m * base) + (low + top % m * base)
    ensures 0 <= low + top % m * base < m * base
    ensures (top % m) / (m / 2) == 0 || (top % m) / (m / 2) == 1
    ensures (top % m) / (m / 2) == 1 <==> 2 * (low + top % m * base) >= m * base
    ensures 0 <= top / m < 4
  {
    var i, t, h := top / m, top % m, m / 2;
    assert top == i * m + t && 0 <= t < m && m == 2 * h;
    HalfTest(t, h);
    DigitProduct(i, m, t, base);
    WithinUnit(low, t, m, base);
    HalfUnit(low, t, h, base);
    MulAssoc(2, h, base);
  }

  lemma HalfTest(t: int, h: int)
    requires h > 0 && 0 <= t < 2 * h
    ensures t / h == if t < h then 0 else 1
  {
    DivUnique(t, h, if t < h then 0 else 1);
  }

  lemma DigitProduct(i: int, m: int, t: int, base: int)
    ensures (i * m + t) * base == i * (m * base) + t * base
  {
    MulAssoc(i, m, base);
  }

  lemma WithinUnit(low: int, t: int, m: int, base: int)
    requires 0 <= low < base && 0 <= t < m
    ensures 0 <= low + t * base < m * base
  {
    MulMono(base, 0, t);
    MulMono(base, t + 1, m);
  }

  lemma HalfUnit(low: int, t: int, h: int, base: int)
    requires 0 <= low < base
    ensures t >= h <==> low + t * base >= h * base
  {
    if t >= h { MulMono(base, h, t); } else { MulMono(base, t + 1, h); }
  }

  // ---------------------------------------------------------------- the three cases of q0

  /** Rounding up: w = (k8+n)*u + f is also (k8+n+1)*u - (u-f). */
  lemma SplitUp(w: int, u: int, k: int, n: int, f: int)
    requires w == (8 * k + n) * u + f && 0 <= f <= u
    ensures 2 * f < u ==> SplitsInto(w, u, k, n, 0, f as real)
    ensures 2 * f >= u ==> SplitsInto(w, u, k, n + 1, 1, (u - f) as real)
    ensures 2 * f >= u ==> SplitsInto(w, u, k, n + 1, 2, (u - f) as real)
  {
    assert ((8 * k + n) * u) as real == (8 * k + n) as real * u as real;
    assert (8 * k + (n + 1)) * u == (8 * k + n) * u + u;
    assert ((8 * k + (n + 1)) * u) as real == (8 * k + (n + 1)) as real * u as real;
  }

  /** q0 > 0: the top bits of the leading digit belong to n. */
  lemma WholeHigh(z0: nat, base: int, p: int, u: int, kn: int, i: int, dg: int, rest: int)
    requires base == p * u && z0 * p == kn && dg == i * u + rest
    ensures z0 * base + dg == (kn + i) * u + rest
  {
    MulAssoc(z0, p, u);
  }

  /** After complementing, masking the top digit reduces modulo 1.0. */
  lemma MaskedComplement(p: int, u: int, q: int, masked: int, rest: int)
    requires 0 < rest < u && 0 <= masked < u && p * u - rest == q * u + masked
    ensures masked == u - rest
  {
    MulSub(p, q, u);
    MulStrict(u, p - q, 2);
    MulStrict(u, 0, p - q);
  }

  method MaskTop(iq: array<int>, jz: nat, q0: int, ghost rest: int)
    requires 1 <= jz <= iq.Length && (q0 == 1 || q0 == 2) && AreDigits(iq[..jz])
    requires 0 < rest < Unit(jz, q0) && Digits(iq[..jz]) == Base(jz) - rest
    modifies iq
    ensures AreDigits(iq[..jz]) && Digits(iq[..jz]) == Unit(jz, q0) - rest
  {
    ghost var low, top := iq[..jz - 1], iq[jz - 1];
    ghost var m := if q0 == 1 then 0x80_0000 else 0x40_0000;
    assert iq[..jz] == low + [top];
    AppendDigit(low, top);
    UnitOfTop(jz, q0);
    DigitsBound(low);
    TopSplit(Digits(low), top, Base(jz - 1), m);
    AppendDigit(low, top % m);
    MaskedComplement(Pow2(q0), Unit(jz, q0), top / m, Digits(low) + top % m * Base(jz - 1), rest);
    AndMasks(top);
    hide And, Unit, Digits, Base, Pow2;
    if q0 == 1 {
      iq[jz - 1] := And(iq[jz - 1], 0x7f_ffff);
    } else {
      iq[jz - 1] := And(iq[jz - 1], 0x3f_ffff);
    }
    assert iq[..jz] == low + [top % m];
  }

  lemma AndMasks(t: nat)
    ensures And(t, 0x7f_ffff) == t % 0x80_0000 && And(t, 0x3f_ffff) == t % 0x40_0000
  {
    assert Pow2(22) == 0x40_0000 by { Pow2Values(); }
    assert Pow2(23) == 0x80_0000;
    AndLow(t, 23);
    AndLow(t, 22);
  }

  /** The case q0 > 0. */
  method ExtractHigh(iq: array<int>, jz: nat, q0: int, n0: int, ghost z0: nat, ghost k: int)
    returns (n: int, ih: int)
    requires 1 <= jz <= iq.Length && (q0 == 1 || q0 == 2) && AreDigits(iq[..jz])
    requires z0 * Pow2(q0) == 8 * k + n0
    modifies iq
    ensures AreDigits(iq[..jz])
    ensures ih == 0 || ih == 1
    ensures SplitsInto(z0 * Base(jz) + Digits(old(iq[..jz])), Unit(jz, q0), k, n, ih, Digits(iq[..jz]) as real)
  {
    ghost var dg, u := Digits(iq[..jz]), Unit(jz, q0);
    var i;
    i, ih := TopBits(iq, jz, q0);
    n := n0 + i;
    ghost var rest := Digits(iq[..jz]);
    UnitOfTop(jz, q0);
    WholeHigh(z0, Base(jz), Pow2(q0), u, 8 * k + n0, i, dg, rest);
    SplitUp(z0 * Base(jz) + dg, u, k, n, rest);
    hide SplitsInto, Unit, Digits, Base, Pow2;
    if ih > 0 {
      n := n + 1;
      var carry := Complement(iq, jz);
      MaskTop(iq, jz, q0, rest);
    }
  }

  /** The case q0 = 0. */
  method ExtractAt(iq: array<int>, jz: nat, n0: int, ghost z0: nat, ghost k: int)
    returns (n: int, ih: int)
    requires 1 <= jz <= iq.Length && AreDigits(iq[..jz]) && z0 == 8 * k + n0
    modifies iq
    ensures AreDigits(iq[..jz])
    ensures ih == 0 || ih == 1
    ensures SplitsInto(z0 * Base(jz) + Digits(old(iq[..jz])), Base(jz), k, n, ih, Digits(iq[..jz]) as real)
  {
    n := n0;
    ghost var low, top, dg := iq[..jz - 1], iq[jz - 1], Digits(iq[..jz]);
    assert iq[..jz] == low + [top];
    AppendDigit(low, top);
    DigitsBound(low);
    DigitsBound(iq[..jz]);
    HalfUnit(Digits(low), top, 0x80_0000, Base(jz - 1));
    HalfTest(top, 0x80_0000);
    SplitUp(z0 * Base(jz) + dg, Base(jz), k, n, dg);
    hide SplitsInto, Digits;
    ih := iq[jz - 1] / 0x80_0000;
    if ih > 0 {
      n := n + 1;
      var carry := Complement(iq, jz);
    }
  }

  /** q0 < 0: z and the digits share the fraction; z alone tells whether it is >= 1/2. */
  lemma FractionBelow(r: nat, d: nat, base: nat, dg: nat)
    requires r < d && d % 2 == 0 && dg < base
    ensures 0 <= r * base + dg < d * base
    ensures 2 * r >= d ==> 2 * (r * base + dg) >= d * base
    ensures 2 * r < d ==> 2 * (r * base + dg) < d * base
  {
    var p, m := r * base, d * base;
    MulMono(base, r + 1, d);
    assert (r + 1) * base == p + base;
    assert (2 * r) * base == 2 * p && (2 * r + 2) * base == 2 * p + 2 * base;
    if 2 * r >= d { MulMono(base, d, 2 * r); } else { MulMono(base, 2 * r + 2, d); }
  }

  lemma WholeBelow(kn: int, d: int, r: int, base: int, dg: int)
    ensures (kn * d + r) * base + dg == kn * (d * base) + (r * base + dg)
  {
    MulAssoc(kn, d, base);
  }

  /** z = a/d counts a*base units. */
  lemma FractionUnits(z: real, a: int, d: int, base: int, dg: int)
    requires d > 0 && z == a as real / d as real
    ensures Fraction(z, dg, d * base) == (a * base + dg) as real
  {
    assert (d * base) as real == d as real * base as real;
    assert z * d as real == a as real;
    assert z * (d as real * base as real) == a as real * base as real;
    assert (a * base) as real == a as real * base as real;
  }

  lemma UnitBelow(jz: nat, q0: int)
    requires q0 <= 0
    ensures Unit(jz, q0) == Pow2(-q0) * Base(jz)
    ensures q0 < 0 ==> Pow2(-q0) % 2 == 0
  {
    BasePower(jz);
    Pow2Add(-q0, 24 * jz);
  }

  /** The case q0 < 0. */
  method ExtractBelow(iq: array<int>, jz: nat, q0: int, n0: int, zr: real, ghost z0: nat, ghost k: int, ghost r: nat)
    returns (n: int, ih: int, z: real)
    requires 1 <= jz <= iq.Length && q0 < 0 && AreDigits(iq[..jz])
    requires r < Pow2(-q0) && z0 == (8 * k + n0) * Pow2(-q0) + r && zr == r as real / Pow2(-q0) as real
    modifies iq
    ensures AreDigits(iq[..jz])
    ensures ih == 0 || ih == 2
    ensures SplitsInto(z0 * Base(jz) + Digits(old(iq[..jz])), Unit(jz, q0), k, n, ih,
                       Fraction(z, Digits(iq[..jz]), Unit(jz, q0)))
  {
    n, ih, z := n0, 0, zr;
    ghost var d, dg, base := Pow2(-q0), Digits(iq[..jz]), Base(jz);
    UnitBelow(jz, q0);
    DigitsBound(iq[..jz]);
    FractionBelow(r, d, base, dg);
    WholeBelow(8 * k + n0, d, r, base, dg);
    SplitUp(z0 * base + dg, d * base, k, n0, r * base + dg);
    FractionUnits(z, r, d, base, dg);
    HalfReal(z, r, d);
    hide SplitsInto, Unit, Digits, Base, Pow2, Fraction;
    if z >= 0.5 { ih := 2; }
    if ih > 0 {
      n := n + 1;
      var carry := Complement(iq, jz);
      z := 1.0 - z;
      if carry != 0 { z := z - Scalbn(1.0, q0); }
      ComplementReal(zr, r, d, q0, z, carry);
      FractionUnits(z, d - r - carry, d, base, Digits(iq[..jz]));
      ComplementUnits(d, r, carry, base, dg, Digits(iq[..jz]));
    }
  }

  lemma HalfReal(z: real, r: int, d: int)
    requires d > 0 && z == r as real / d as real
    ensures z >= 0.5 <==> 2 * r >= d
  {
    assert z * d as real == r as real;
    RealHalf(z, d as real);
  }

  lemma RealHalf(z: real, d: real)
    requires d > 0.0
    ensures z >= 0.5 <==> 2.0 * (z * d) >= d
  {
    if z >= 0.5 { assert (z - 0.5) * d >= 0.0; } else { assert (0.5 - z) * d > 0.0; }
  }

  lemma ComplementReal(zr: real, r: int, d: int, q0: int, z: real, carry: int)
    requires q0 < 0 && d == Pow2(-q0) && zr == r as real / d as real && (carry == 0 || carry == 1)
    requires z == 1.0 - zr - (if carry != 0 then Scalbn(1.0, q0) else 0.0)
    ensures z == (d - r - carry) as real / d as real
  {
    var x := d as real;
    assert x / x == 1.0;
    assert Scalbn(1.0, q0) == 1.0 / x;
    QuotientDifference(x, r as real, carry as real);
  }

  lemma QuotientDifference(x: real, r: real, c: real)
    requires x > 0.0 && x / x == 1.0 && (c == 0.0 || c == 1.0)
    ensures (x - r - c) / x == 1.0 - r / x - (if c == 0.0 then 0.0 else 1.0 / x)
  {
    assert (x - r - c) / x == x / x - r / x - c / x;
  }

  lemma ComplementUnits(d: int, r: int, carry: int, base: int, dg: int, now: int)
    requires carry == if dg == 0 then 0 else 1
    requires now == if carry == 0 then 0 else base - dg
    ensures (d - r - carry) * base + now == d * base - (r * base + dg)
  {
    MulSub(d - r, carry, base);
    MulSub(d, r, base);
  }

  /** Lines 200 to 236: n, ih and the remaining fraction, for every q0 <= 2. */
  method Extract(iq: array<int>, jz: nat, q0: int, z0: nat) returns (n: int, ih: int, z: real, ghost k: int)
    requires 1 <= jz <= iq.Length && q0 <= 2 && AreDigits(iq[..jz])
    modifies iq
    ensures AreDigits(iq[..jz])
    ensures ih == 0 || ih == if q0 < 0 then 2 else 1
    ensures SplitsInto(z0 * Base(jz) + Digits(old(iq[..jz])), Unit(jz, q0), k, n, ih,
                       Fraction(z, Digits(iq[..jz]), Unit(jz, q0)))
    ensures q0 >= 0 ==> z == 0.0
  {
    ghost var r;
    n, z, k, r := IntegerPart(z0, q0);
    if q0 > 0 {
      n, ih := ExtractHigh(iq, jz, q0, n, z0, k);
    } else if q0 == 0 {
      UnitBelow(jz, q0);
      n, ih := ExtractAt(iq, jz, n, z0, k);
    } else {
      n, ih, z := ExtractBelow(iq, jz, q0, n, z, z0, k, r);
    }
  }

  /** Distillation and extraction together: the number sum q[i]*2^(q0-24i) is n modulo 8,
      plus (ih = 0) or minus (ih > 0) the fraction left in z and iq[]. */
  method DistillAndExtract(q: seq<nat>, jz: nat, q0: int, iq: array<int>)
    returns (n: int, ih: int, z: real, ghost k: int)
    requires 1 <= jz < |q| && jz <= iq.Length && q0 <= 2
    requires forall i :: 0 <= i <= jz ==> q[i] < 0x10_0000_0000_0000
    modifies iq
    ensures AreDigits(iq[..jz])
    ensures ih == 0 || ih == if q0 < 0 then 2 else 1
    ensures SplitsInto(Weighted(q[..jz + 1]), Unit(jz, q0), k, n, ih, Fraction(z, Digits(iq[..jz]), Unit(jz, q0)))
  {
    var z0 := Distill(q, jz, iq);
    n, ih, z, k := Extract(iq, jz, q0, z0);
  }
}
