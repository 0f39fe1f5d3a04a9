/** 64-bit division built from an instruction that divides 64 bits by 32 and
    traps when the quotient needs more than 32 bits.  Unsigned words are
    naturals below their modulus; shifts and subtractions wrap explicitly. */
module Arithmetic {

  const B: nat := 0x1_0000_0000
  const B2: nat := 0x1_0000_0000_0000_0000

  type U32 = x: nat | x < B
  type U64 = x: nat | x < B2
  type I32 = x: int | -0x8000_0000 <= x < 0x8000_0000
  type I64 = x: int | -0x8000_0000_0000_0000 <= x < 0x8000_0000_0000_0000

  function Pow2(s: nat): (p: nat)
    ensures p > 0
  {
    if s == 0 then 1 else 2 * Pow2(s - 1)
  }

  lemma {:induction false} Pow2Add(a: nat, b: nat)
    ensures Pow2(a) * Pow2(b) == Pow2(a + b)
  {
    if a > 0 {
      Pow2Add(a - 1, b);
      assert Pow2(a) * Pow2(b) == 2 * (Pow2(a - 1) * Pow2(b));
    }
  }

  lemma Pow2Values()
    ensures Pow2(31) == 0x8000_0000 && Pow2(32) == B
    ensures Pow2(0) == 1 && Pow2(1) == 2 && Pow2(2) == 4 && Pow2(4) == 16 && Pow2(8) == 0x100 && Pow2(16) == 0x1_0000
  {
    assert Pow2(4) == 16 && Pow2(8) == 256 by { Pow2Add(4, 4); }
    Pow2Add(8, 8);
    Pow2Add(16, 16);
    assert Pow2(32) == 2 * Pow2(31);
  }

  /** The hardware divide traps unless the quotient fits in one word. */
  predicate NoTrap(n: nat, d: nat) { d != 0 && n / d < B }

  function Divl(n: U64, d: U32): U32
    requires NoTrap(n, d)
  {
    n / d
  }

  /** Midway through counting leading zeros: `n` have been shifted out. */
  ghost predicate Shifted(x0: nat, x: nat, n: nat) {
    x == x0 * Pow2(n)
  }

  lemma MulAssoc(a: int, b: int, c: int)
    ensures (a * b) * c == a * (b * c)
  {
  }

  lemma ShiftMore(x0: nat, x: nat, n: nat, k: nat, p: nat)
    requires Shifted(x0, x, n) && Pow2(k) == p && x * p < B
    ensures Shifted(x0, x * p % B, n + k) && x * p % B == x * p
  {
    hide Pow2;
    Pow2Add(n, k);
    MulAssoc(x0, Pow2(n), Pow2(k));
  }

  lemma ShiftedIs(x0: nat, x: nat, n: nat)
    requires Shifted(x0, x, n)
    ensures x0 * Pow2(n) == x
  {
  }

  /** The number of leading zero bits of a nonzero word. */
  method Nlz(x0: U32) returns (n: nat)
    requires x0 != 0
    ensures n <= 31 && Pow2(31) <= x0 * Pow2(n) < Pow2(32)
  {
    hide Shifted, Pow2;
    Pow2Values();
    assert Shifted(x0, x0, 0) by { ShiftStarts(x0); }
    var x := x0;
    n := 0;
    if x <= 0x0000_FFFF {
      ShiftMore(x0, x, n, 16, 0x1_0000);
      n, x := n + 16, x * 0x1_0000 % B;
    }
    if x <= 0x00FF_FFFF {
      ShiftMore(x0, x, n, 8, 0x100);
      n, x := n + 8, x * 0x100 % B;
    }
    if x <= 0x0FFF_FFFF {
      ShiftMore(x0, x, n, 4, 0x10);
      n, x := n + 4, x * 0x10 % B;
    }
    if x <= 0x3FFF_FFFF {
      ShiftMore(x0, x, n, 2, 4);
      n, x := n + 2, x * 4 % B;
    }
    ghost var top := x;
    if x <= 0x7FFF_FFFF {
      ShiftMore(x0, x, n, 1, 2);
      top := x * 2 % B;
      n := n + 1;
    }
    ShiftedIs(x0, top, n);
  }

  lemma ShiftStarts(x: nat)
    ensures Shifted(x, x, 0)
  {
  }

  // ----- unsigned division -----

  lemma MulMono(a: int, b: int, c: int)
    requires a <= b && c >= 0
    ensures a * c <= b * c && c * a <= c * b
  {
  }

  /** A quotient is pinned down by its two bounds. */
  lemma QuotientIs(n: nat, d: nat, q: nat)
    requires d > 0 && q * d <= n < (q + 1) * d
    ensures n / d == q
  {
    var k := n / d;
    assert k * d <= n < (k + 1) * d by { assert n == d * k + n % d; }
    if k < q { MulMono(k + 1, q, d); }
    if q < k { MulMono(q + 1, k, d); }
  }

  /** Long division with a one-word divisor: the first step cannot trap. */
  lemma OneWordNoTrap(r: nat, n0: nat, d: nat)
    requires 0 < d < B && r < d && n0 < B
    ensures B * r + n0 < B2 && (B * r + n0) / d < B
  {
    var m := B * r + n0;
    MulMono(r, d - 1, B);
    assert m < B * d;
    var k := m / d;
    assert k * d <= m by { assert m == d * k + m % d; }
    if k >= B { MulMono(B, k, d); }
  }

  lemma DivNonneg(a: nat, d: nat)
    requires d > 0
    ensures a / d >= 0
  {
  }

  lemma DivMod(a: nat, d: nat)
    requires d > 0
    ensures a == (a / d) * d + a % d && 0 <= a % d < d
  {
  }

  lemma OneWordQuotient(n: nat, n1: nat, n0: nat, d: nat)
    requires d > 0 && n == B * n1 + n0
    ensures n / d == (B * (n1 % d) + n0) / d + B * (n1 / d)
  {
    DivMod(n1, d);
    DivMod(B * (n1 % d) + n0, d);
    OneWordSum(n, n1, n0, d, n1 / d, n1 % d, (B * (n1 % d) + n0) / d, B * (n1 % d) + n0);
  }

  lemma OneWordSum(n: nat, n1: int, n0: int, d: nat, q1: nat, r1: int, q0: nat, m: int)
    requires d > 0 && n == B * n1 + n0 && n1 == q1 * d + r1 && m == B * r1 + n0
    requires q0 * d <= m < q0 * d + d
    ensures n / d == q0 + B * q1
  {
    var q := q0 + B * q1;
    assert q * d == q0 * d + B * (q1 * d);
    QuotientIs(n, d, q);
  }

  /** With a two-word divisor `d`, normalised by a shift of `s`, the estimate
      from the leading word `v` is the quotient or one more. */
  lemma EstimateIsClose(n: nat, d: nat, s: nat, v: nat, q: nat)
    requires n < B2 && B <= d <= n && s <= 31
    requires v == d * Pow2(s) / B && Pow2(31) <= v
    requires q == n / 2 / v / Pow2(31 - s)
    ensures 1 <= q && (q - 1) * d <= n < (q + 1) * d
  {
    hide Pow2;
    Pow2Values();
    var p, h := Pow2(s), Pow2(31 - s);
    Pow2Add(s, 31 - s);
    var w := 2 * h;
    var m := v * w;
    EstimateBelow(d, p, w, v, m);
    EstimateQuotient(n, v, h, q);
    EstimateAbove(n, d, p, w, v, m, q);
    MulMono(m, d, q + 1);
  }

  /** The divisor the estimate really uses is `m`, at most `d` and close to it. */
  lemma EstimateBelow(d: nat, p: nat, w: nat, v: nat, m: nat)
    requires p > 0 && w > 0 && p * w == B && v == d * p / B && m == v * w
    ensures m <= d < m + w
  {
    assert v * B <= d * p < (v + 1) * B by { assert d * p == B * v + d * p % B; }
    MulAssoc(v, w, p);
    assert m * p == v * B;
    assert (m + w) * p == (v + 1) * B;
    if m > d { MulMono(d + 1, m, p); }
    if d >= m + w { MulMono(m + w, d, p); }
  }

  lemma EstimateQuotient(n: nat, v: nat, h: nat, q: nat)
    requires v > 0 && h > 0 && q == n / 2 / v / h
    ensures q * (v * (2 * h)) <= n < (q + 1) * (v * (2 * h))
  {
    var a := n / 2;
    var b := a / v;
    assert b * v <= a < (b + 1) * v by { assert a == v * b + a % v; }
    assert q * h <= b < (q + 1) * h by { assert b == h * q + b % h; }
    MulMono(q * h, b, v);
    MulMono(b + 1, (q + 1) * h, v);
    assert q * h * v * 2 <= n < (q + 1) * h * v * 2;
    assert q * h * v * 2 == q * (v * (2 * h)) by { MulShuffle(q, h, v); }
    assert (q + 1) * h * v * 2 == (q + 1) * (v * (2 * h)) by { MulShuffle(q + 1, h, v); }
  }

  lemma MulShuffle(q: nat, h: nat, v: nat)
    ensures q * h * v * 2 == q * (v * (2 * h))
  {
    MulAssoc(q, h, v);
    assert v * (2 * h) == 2 * (h * v);
    assert q * (2 * (h * v)) == 2 * (q * (h * v));
  }

  /** Overestimating costs at most one: the excess `q * (d - m)` is below `d`. */
  lemma EstimateAbove(n: nat, d: nat, p: nat, w: nat, v: nat, m: nat, q: nat)
    requires n < B2 && B <= d && p * w == B && (w == 2 || w >= 4) && p > 0 && v >= 0x8000_0000
    requires m == v * w && m <= d < m + w
    requires q * m <= n
    ensures (q - 1) * d <= n
  {
    var e := d - m;
    assert q < 2 * p by {
      if q >= 2 * p {
        MulMono(2 * p, q, m);
        ScaledBound(p, w, v, m);
      }
    }
    if w > 2 { DivisorLarge(d, m, v, w, p); }
    ExcessSmall(q, e, p, w, d);
    assert (q - 1) * d == q * m + q * e - d;
  }

  lemma ExcessSmall(q: nat, e: nat, p: nat, w: nat, d: nat)
    requires q < 2 * p && e < w && p * w == B
    requires if w == 2 then d >= B else d >= 2 * B
    ensures q * e <= d
  {
    MulMono(q, 2 * p - 1, e);
    MulMono(e, w - 1, 2 * p - 1);
    assert (2 * p - 1) * (w - 1) == 2 * (p * w) - 2 * p - w + 1;
  }

  lemma ScaledBound(p: nat, w: nat, v: nat, m: nat)
    requires p * w == B && v >= 0x8000_0000 && m == v * w
    ensures 2 * p * m >= B2
  {
    MulMono(0x8000_0000, v, p * w);
    assert v * (p * w) == p * (v * w) by { MulAssoc(v, p, w); MulAssoc(p, v, w); }
    MulAssoc(2, p, m);
  }

  lemma DivisorLarge(d: nat, m: nat, v: nat, w: nat, p: nat)
    requires m == v * w && m <= d && v >= 0x8000_0000 && w >= 4
    ensures d >= 2 * B
  {
    MulMono(0x8000_0000, v, w);
  }

  /** Normalising a two-word divisor loses no bits, and its leading word is at
      least half of the word range. */
  lemma Normalised(d: nat, s: nat)
    requires B <= d < B2 && s <= 31
    requires Pow2(31) <= d / B * Pow2(s) < Pow2(32)
    ensures d * Pow2(s) < B2
    ensures Pow2(31) <= d * Pow2(s) / B < B
  {
    hide Pow2;
    Pow2Values();
    var p, d1, d0 := Pow2(s), d / B, d % B;
    Pow2Add(s, 32 - s);
    TopFits(d1, p, Pow2(32 - s));
    SplitProduct(d, d1, d0, p);
    WordBounds(d * p, d1 * p);
  }

  lemma SplitProduct(d: nat, d1: nat, d0: nat, p: nat)
    requires d == B * d1 + d0 && d0 < B && d1 * p + p <= B
    ensures B * (d1 * p) <= d * p < B2 || p == 0
  {
    assert d * p == B * (d1 * p) + d0 * p;
    MulMono(d0, B - 1, p);
  }

  lemma WordBounds(x: nat, lo: nat)
    requires B * lo <= x < B2
    ensures lo <= x / B < B
  {
  }

  lemma TopFits(d1: nat, p: nat, w: nat)
    requires p * w == B && d1 * p < B
    ensures d1 * p + p <= B
  {
    if d1 >= w { MulMono(w, d1, p); }
    MulMono(d1 + 1, w, p);
  }

  lemma EstimateNoTrap(n: nat, v: nat)
    requires n < B2 && v >= 0x8000_0000
    ensures NoTrap(n / 2, v)
  {
    var k := n / 2 / v;
    DivMod(n / 2, v);
    if k >= B { MulMono(B, k, v); }
  }

  /** The leading word of the normalised divisor. */
  function Leading(d: nat, s: nat): nat { d * Pow2(s) % B2 / B }

  /** The estimate, from the quotient of the hardware divide. */
  function Scaled(t: nat, s: nat): nat
    requires s <= 31
  {
    DivNonneg(t, Pow2(31 - s));
    t / Pow2(31 - s)
  }

  /** One step back if the estimate was one too high. */
  function Corrected(n: nat, d: nat, e: nat): nat
    requires 1 <= e
  {
    if (n - (e - 1) * d % B2) % B2 < d then e - 1 else e
  }

  lemma Correction(n: nat, d: nat, q: nat)
    requires n < B2 && d > 0 && 1 <= q && (q - 1) * d <= n < (q + 1) * d
    ensures n / d == Corrected(n, d, q)
  {
    assert (q - 1) * d % B2 == (q - 1) * d && (n - (q - 1) * d) % B2 == n - (q - 1) * d;
    assert q * d == (q - 1) * d + d;
    if n - (q - 1) * d < d { QuotientIs(n, d, q - 1); } else { QuotientIs(n, d, q); }
  }

  lemma LeadingWord(d: nat, s: nat)
    requires B <= d < B2 && s <= 31
    requires Pow2(31) <= d / B * Pow2(s) < Pow2(32)
    ensures Leading(d, s) == d * Pow2(s) / B && Pow2(31) <= Leading(d, s) < B
  {
    hide Pow2;
    Normalised(d, s);
  }

  /** The two-word case as a whole: no trap, and the corrected estimate. */
  lemma TwoWords(n: U64, d: U64, s: nat, v: nat)
    requires B <= d <= n && s <= 31 && v == Leading(d, s)
    requires Pow2(31) <= d / B * Pow2(s) < Pow2(32)
    ensures v < B && NoTrap(n / 2, v)
    ensures var e := Scaled(Divl(n / 2, v), s);
            1 <= e && n / d == Corrected(n, d, e)
  {
    hide Pow2, Leading, Corrected;
    Pow2Values();
    LeadingWord(d, s);
    EstimateNoTrap(n, v);
    var e := Scaled(Divl(n / 2, v), s);
    EstimateIsClose(n, d, s, v, e);
    Correction(n, d, e);
  }

  lemma OneWord(n: U64, d: U32)
    requires d != 0
    ensures var m := B * (n / B % d) + n % B;
            && m < B2 && NoTrap(m, d)
            && n / d == Divl(m, d) + B * (n / B / d)
  {
    DivMod(n / B, d);
    OneWordNoTrap(n / B % d, n % B, d);
    OneWordQuotient(n, n / B, n % B, d);
  }

  /** Long division by a one-word divisor, one word at a time. */
  function DivideByWord(n: U64, d: U32): (q: U64)
    requires d != 0
    ensures q == n / d
  {
    OneWord(n, d);
    DivideShrinks(n, d);
    DivNonneg(n / B, d);
    Divl(B * (n / B % d) + n % B, d) + B * (n / B / d)
  }

  /** Unsigned 64-bit division: both hardware divides are within their range
      and the result is the floor of the quotient. */
  method Udiv64(n: U64, d: U64) returns (q: U64)
    requires d != 0
    ensures q == n / d
  {
    hide Pow2, Leading, Scaled, Corrected, NoTrap, Divl, DivideByWord;
    DivideShrinks(n, d);
    if d / B == 0 {
      q := DivideByWord(n, d);
    } else if n < d {
      QuotientIs(n, d, 0);
      q := 0;
    } else {
      var s := Nlz(d / B);
      var v := Leading(d, s);
      TwoWords(n, d, s, v);
      var e := Scaled(Divl(n / 2, v), s);
      q := Corrected(n, d, e);
    }
  }

  lemma DivideShrinks(n: nat, d: nat)
    requires d > 0
    ensures n / d <= n
  {
    DivMod(n, d);
    MulMono(1, d, n / d);
  }

  /** The unsigned remainder, cut to 32 bits by its return type. */
  method Umod64(n: U64, d: U64) returns (r: U32)
    requires d != 0
    ensures r == n % d % B
  {
    var q := Udiv64(n, d);
    var m := n - d * q;
    Remains(n, d);
    SmallMod(m, B2);
    r := m % B2 % B;
  }

  lemma Remains(n: nat, d: nat)
    requires d > 0
    ensures n - d * (n / d) == n % d < d
  {
    DivMod(n, d);
  }

  lemma SmallMod(x: nat, m: nat)
    requires x < m
    ensures x % m == x
  {
  }

  /** The 32-bit remainder is the true remainder for every dividend exactly
      when the divisor is at most 2^32. */
  lemma Umod64Exact(d: U64)
    requires d != 0
    ensures (forall n: U64 :: n % d % B == n % d) <==> d <= B
  {
    if d > B {
      var n: U64 := B;
      assert n % d == B by { DivMod(n, d); QuotientIs(n, d, 0); }
      assert n % d % B != n % d;
    } else {
      forall n: U64 ensures n % d % B == n % d { DivMod(n, d); }
    }
  }

  // ----- signed division -----

  /** Division that truncates toward zero, on mathematical integers. */
  function TruncDiv(n: int, d: int): int
    requires d != 0
  {
    var q := Abs(n) / Abs(d);
    if (n < 0) == (d < 0) then q else -q
  }

  function TruncRem(n: int, d: int): int
    requires d != 0
  {
    n - d * TruncDiv(n, d)
  }

  function Abs(x: int): nat { if x < 0 then -x else x }

  /** Two's-complement reading of the low `bits`. */
  function Wrap64(x: int): I64 {
    var y := x % B2;
    if y < 0x8000_0000_0000_0000 then y else y - B2
  }

  function Wrap32(x: int): I32 {
    var y := x % B;
    if y < 0x8000_0000 then y else y - B
  }

  /** The truncated quotient is the one whose remainder is smaller than the
      divisor and has the dividend's sign. */
  lemma TruncDivIs(n: int, d: int)
    requires d != 0
    ensures n == d * TruncDiv(n, d) + TruncRem(n, d)
    ensures Abs(TruncRem(n, d)) < Abs(d)
    ensures TruncRem(n, d) != 0 ==> (TruncRem(n, d) < 0) == (n < 0)
    ensures Abs(TruncDiv(n, d)) == Abs(n) / Abs(d)
    ensures Abs(TruncRem(n, d)) == Abs(n) % Abs(d)
  {
    var a, b := Abs(n), Abs(d);
    DivMod(a, b);
    DivNonneg(a, b);
    TruncParts(n, d, a / b, a % b);
  }

  lemma TruncParts(n: int, d: int, q: nat, r: nat)
    requires Abs(n) == q * Abs(d) + r && r < Abs(d)
    ensures var t: int := if (n < 0) == (d < 0) then q else 0 - q;
            Abs(n - d * t) == r && (r != 0 ==> (n - d * t < 0) == (n < 0)) && Abs(t) == q
  {
    SignedProduct(n, d, q);
  }

  lemma SignedProduct(n: int, d: int, q: int)
    ensures d * (if (n < 0) == (d < 0) then q else -q) == if n < 0 then -(q * Abs(d)) else q * Abs(d)
  {
  }

  lemma UnsignedAbs(n: I64)
    ensures (if n >= 0 then n else (-(n % B2)) % B2) == Abs(n)
  {
  }

  lemma WrapNeg(q: nat)
    requires q < B2
    ensures Wrap64(0 - Wrap64(q) as int) == Wrap64(0 - q as int)
  {
    assert (B2 - q) % B2 == (0 - q) % B2;
  }

  /** Signed 64-bit division, with the conversions the C code makes.  It
      truncates toward zero except where the true quotient, 2^63, has no
      64-bit representation. */
  method Sdiv64(n: I64, d: I64) returns (r: I64)
    requires d != 0
    ensures r == Wrap64(TruncDiv(n, d))
  {
    hide Wrap64;
    UnsignedAbs(n);
    UnsignedAbs(d);
    var nAbs: U64 := if n >= 0 then n else (-(n % B2)) % B2;
    var dAbs: U64 := if d >= 0 then d else (-(d % B2)) % B2;
    var qAbs := Udiv64(nAbs, dAbs);
    WrapNeg(qAbs);
    r := if (n < 0) == (d < 0) then Wrap64(qAbs) else Wrap64(0 - Wrap64(qAbs) as int);
  }

  /** The wrapped quotient is the true one for all arguments but one pair. */
  lemma Sdiv64Exact(n: I64, d: I64)
    requires d != 0
    ensures Wrap64(TruncDiv(n, d)) == TruncDiv(n, d) <==> !(n == -0x8000_0000_0000_0000 && d == -1)
  {
    TruncDivIs(n, d);
    if Abs(d) == 1 {
      assert Abs(n) / 1 == Abs(n);
    } else {
      DivMod(Abs(n), Abs(d));
      MulMono(2, Abs(d), Abs(n) / Abs(d));
    }
  }

  /** The signed remainder, cut to 32 bits by its return type. */
  method Smod64(n: I64, d: I64) returns (r: I32)
    requires d != 0
    ensures r == Wrap32(TruncRem(n, d))
  {
    var q := Sdiv64(n, d);
    RemainderMod(n, d, q);
    r := Wrap32(Wrap64(n - d * q));
  }

  /** Wrapping the quotient or the product does not change the low word. */
  lemma RemainderMod(n: I64, d: I64, q: I64)
    requires d != 0 && q == Wrap64(TruncDiv(n, d))
    ensures Wrap32(Wrap64(n - d * q)) == Wrap32(TruncRem(n, d))
  {
    Sdiv64Exact(n, d);
    TruncDivIs(n, d);
    if n == -0x8000_0000_0000_0000 && d == -1 {
      assert d * q == 0 - q as int && TruncRem(n, d) == 0;
    }
    WrapWrap(n - d * q);
  }

  lemma WrapWrap(x: int)
    ensures Wrap32(Wrap64(x)) == Wrap32(x)
  {
  }

  /** The 32-bit remainder is the true remainder for every dividend exactly
      when the divisor's magnitude is at most 2^31. */
  lemma Smod64Exact(d: I64)
    requires d != 0
    ensures (forall n: I64 :: Wrap32(TruncRem(n, d)) == TruncRem(n, d)) <==> Abs(d) <= 0x8000_0000
  {
    if Abs(d) > 0x8000_0000 {
      var n: I64 := 0x8000_0000;
      QuotientIs(n, Abs(d), 0);
      assert TruncRem(n, d) == 0x8000_0000;
      assert Wrap32(TruncRem(n, d)) != TruncRem(n, d);
    } else {
      forall n: I64 ensures Wrap32(TruncRem(n, d)) == TruncRem(n, d) { TruncDivIs(n, d); }
    }
  }
}
