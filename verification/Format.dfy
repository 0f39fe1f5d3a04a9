/** `printf`'s integer conversions, and `atoi`.  A character is its code. */
module Formatting {
  import opened Helpers
  import Arithmetic

  type Char = nat
  type Text = seq<Char>

  const BLANK: Char := 32
  const PLUS: Char := 43
  const COMMA: Char := 44
  const MINUS: Char := 45
  const ZERO: Char := 48

  predicate IsDigit(c: Char) { 48 <= c <= 57 }

  function DigitValue(c: Char): nat { if c < ZERO then 0 else c - ZERO }

  predicate IsSpace(c: Char) { c == 32 || 9 <= c <= 13 }

  /** The base of a conversion: its digits are '0' to '9', then letters from `letter`
      on; `x` is the prefix letter or 0. */
  datatype Base = Base(base: nat, letter: Char, x: Char, group: nat)

  const BASE_D := Base(10, 97, 0, 3)
  const BASE_O := Base(8, 97, 0, 3)
  const BASE_X := Base(16, 97, 120, 4)
  const BASE_UPPER_X := Base(16, 65, 88, 4)

  ghost predicate IsBase(b: Base) { b == BASE_D || b == BASE_O || b == BASE_X || b == BASE_UPPER_X }

  function Digit(b: Base, d: nat): Char { if d < 10 then ZERO + d else b.letter + (d - 10) }

  datatype Conversion = Conversion(minus: bool, plus: bool, space: bool, pound: bool, zero: bool, group: bool,
                                   width: nat, precision: int)

  // ----- the digits, as the buffer has them: lowest first -----

  ghost predicate Split(b: Base, group: bool, k: nat)
    requires b.group > 0
  {
    group && k > 0 && k % b.group == 0
  }

  /** The digits of `v`, lowest first, when `k` have gone before. */
  ghost function Digits(v: nat, k: nat, b: Base, group: bool): Text
    requires b.base >= 2 && b.group > 0
    decreases v
  {
    if v == 0 then []
    else (if Split(b, group, k) then [COMMA] else []) + [Digit(b, v % b.base)] + Digits(v / b.base, k + 1, b, group)
  }

  function Repeat(c: Char, n: nat): (t: Text)
    ensures |t| == n
  {
    seq(n, _ => c)
  }

  // ----- parsing -----

  /** The value of the leading digits, on top of `acc`. */
  ghost function Leading(t: Text, acc: nat): nat {
    if t == [] || !IsDigit(t[0]) then acc else Leading(t[1..], 10 * acc + DigitValue(t[0]))
  }

  ghost function SkipSpace(t: Text): Text {
    if t != [] && IsSpace(t[0]) then SkipSpace(t[1..]) else t
  }

  /** The number that `atoi` reads. */
  ghost function Parsed(t: Text): int {
    var s := SkipSpace(t);
    if s != [] && s[0] == PLUS then Leading(s[1..], 0)
    else if s != [] && s[0] == MINUS then -(Leading(s[1..], 0) as int)
    else Leading(s, 0)
  }

  /** All digits taken. */
  ghost function Fold(t: Text, acc: nat): nat
    requires forall k | 0 <= k < |t| :: IsDigit(t[k])
  {
    if t == [] then acc else Fold(t[1..], 10 * acc + DigitValue(t[0]))
  }

  lemma {:induction false} LeadingJoin(s: Text, t: Text, acc: nat)
    requires forall k | 0 <= k < |s| :: IsDigit(s[k])
    ensures Leading(s + t, acc) == Leading(t, Fold(s, acc))
  {
    if s == [] {
      assert s + t == t;
    } else {
      assert (s + t)[1..] == s[1..] + t;
      LeadingJoin(s[1..], t, 10 * acc + DigitValue(s[0]));
    }
  }

  lemma {:induction false} FoldSnoc(s: Text, c: Char, acc: nat)
    requires (forall k | 0 <= k < |s| :: IsDigit(s[k])) && IsDigit(c)
    ensures (forall k | 0 <= k < |s + [c]| :: IsDigit((s + [c])[k]))
    ensures Fold(s + [c], acc) == 10 * Fold(s, acc) + DigitValue(c)
  {
    if s != [] {
      assert (s + [c])[1..] == s[1..] + [c];
      FoldSnoc(s[1..], c, 10 * acc + DigitValue(s[0]));
    }
  }

  lemma {:induction false} FoldZeros(n: nat)
    ensures Fold(Repeat(ZERO, n), 0) == 0
  {
    if n > 0 {
      assert Repeat(ZERO, n)[1..] == Repeat(ZERO, n - 1);
      FoldZeros(n - 1);
    }
  }

  /** The decimal digits of `v`, highest first, are digits and have its value. */
  lemma {:induction false} DecimalIs(v: nat, k: nat)
    ensures var t := Reversed(Digits(v, k, BASE_D, false));
            (forall i | 0 <= i < |t| :: IsDigit(t[i])) && Fold(t, 0) == v
    decreases v
  {
    if v > 0 {
      DecimalIs(v / 10, k + 1);
      var rest := Digits(v / 10, k + 1, BASE_D, false);
      var c := Digit(BASE_D, v % 10);
      assert Digits(v, k, BASE_D, false) == [c] + rest;
      assert ([c] + rest)[1..] == rest;
      FoldSnoc(Reversed(rest), c, 0);
    }
  }

  // ----- grouped digits -----

  /** What stands before the first comma. */
  ghost function FirstGroup(v: nat): nat
    decreases v
  {
    if v < 1000 then v else FirstGroup(v / 1000)
  }

  lemma FirstGroupIs(v: nat)
    ensures FirstGroup(v) == v <==> v < 1000
  {
    if v >= 1000 { FirstGroupBelow(v / 1000); }
  }

  lemma {:induction false} FirstGroupBelow(v: nat)
    ensures FirstGroup(v) <= v
    decreases v
  {
    if v >= 1000 { FirstGroupBelow(v / 1000); }
  }

  ghost function CommaAt(k: nat): Text { if k > 0 then [COMMA] else [] }

  /** The three digits from a group boundary on. */
  ghost function Low(v: nat, k: nat): Text {
    CommaAt(k) + [Digit(BASE_D, v % 10), Digit(BASE_D, v / 10 % 10), Digit(BASE_D, v / 10 / 10 % 10)]
  }

  lemma OneDigit(v: nat, k: nat, group: bool)
    requires v > 0
    ensures Digits(v, k, BASE_D, group) ==
            (if group && k % 3 == 0 then CommaAt(k) else []) + [Digit(BASE_D, v % 10)] + Digits(v / 10, k + 1, BASE_D, group)
  {
  }

  lemma BigGroup(v: nat, k: nat)
    requires v >= 1000 && k % 3 == 0
    ensures Digits(v, k, BASE_D, true) == Low(v, k) + Digits(v / 1000, k + 3, BASE_D, true)
  {
    hide Digits, Digit;
    OneDigit(v, k, true);
    OneDigit(v / 10, k + 1, true);
    OneDigit(v / 10 / 10, k + 2, true);
  }

  lemma {:induction false} SmallGroup(v: nat, k: nat)
    requires 0 < v < 1000 && k % 3 == 0
    ensures Digits(v, k, BASE_D, true) == CommaAt(k) + Digits(v, 1, BASE_D, false)
  {
    hide Digit, Split, Digits;
    OneDigit(v, k, true);
    OneDigit(v, 1, false);
    TenthIsSmall(v, k);
    Ungrouped(v / 10, k + 1, 2);
  }

  lemma TenthIsSmall(v: nat, k: nat)
    requires 0 < v < 1000 && k % 3 == 0
    ensures v / 10 < 100 && (k + 1) % 3 == 1
  {
  }

  lemma {:induction false} Ungrouped(v: nat, k: nat, j: nat)
    requires (v < 100 && k % 3 == 1) || (v < 10 && k % 3 == 2) || v == 0
    ensures Digits(v, k, BASE_D, true) == Digits(v, j, BASE_D, false)
    decreases v
  {
    if v > 0 {
      OneDigit(v, k, true);
      OneDigit(v, j, false);
      Ungrouped(v / 10, k + 1, j + 1);
    }
  }

  /** Parsing grouped digits stops at the first comma. */
  lemma {:induction false} GroupedReads(v: nat, k: nat, n: nat, rest: Text)
    requires v > 0 && k % 3 == 0 && (k == 0 ==> rest == [] || !IsDigit(rest[0]))
    ensures Leading(Repeat(ZERO, n) + Reversed(Digits(v, k, BASE_D, true)) + rest, 0) == FirstGroup(v)
    decreases v
  {
    hide Digits, Leading;
    var z := Repeat(ZERO, n);
    if v < 1000 {
      SmallGroup(v, k);
      var t := Reversed(Digits(v, 1, BASE_D, false));
      ReversedJoin(CommaAt(k), Digits(v, 1, BASE_D, false));
      assert Reversed(CommaAt(k)) == CommaAt(k);
      DecimalReads(v, 1, n, CommaAt(k) + rest);
      assert z + (t + CommaAt(k)) + rest == z + t + (CommaAt(k) + rest);
    } else {
      BigGroup(v, k);
      var t := Reversed(Low(v, k));
      ReversedJoin(Low(v, k), Digits(v / 1000, k + 3, BASE_D, true));
      var h := Reversed(Digits(v / 1000, k + 3, BASE_D, true));
      GroupedReads(v / 1000, k + 3, n, t + rest);
      assert z + (h + t) + rest == z + h + (t + rest);
    }
  }

  /** Zeros and plain digits are read as the number. */
  lemma DecimalReads(v: nat, k: nat, n: nat, rest: Text)
    requires rest == [] || !IsDigit(rest[0])
    ensures Leading(Repeat(ZERO, n) + Reversed(Digits(v, k, BASE_D, false)) + rest, 0) == v
  {
    hide Digits;
    var z, t := Repeat(ZERO, n), Reversed(Digits(v, k, BASE_D, false));
    DecimalIs(v, k);
    FoldZeros(n);
    assert z + t + rest == z + (t + rest);
    LeadingJoin(z, t + rest, 0);
    LeadingJoin(t, rest, 0);
  }

  // ----- the conversion -----

  const BUFFER: nat := 64

  /** The sign character, or 0. */
  function Sign(isSigned: bool, negative: bool, c: Conversion): Char {
    if !isSigned then 0
    else if c.plus then (if negative then MINUS else PLUS)
    else if c.space then (if negative then MINUS else BLANK)
    else if negative then MINUS
    else 0
  }

  function Precision(c: Conversion): nat { if c.precision < 0 then 1 else c.precision }

  /** How many zeros the precision adds to `n` characters: up to it, but for the last
      place of the buffer. */
  function ZerosFor(n: nat, c: Conversion): nat {
    var p := if Precision(c) < BUFFER - 1 then Precision(c) else BUFFER - 1;
    if n < p then p - n else 0
  }

  /** Digits and zeros, lowest first. */
  ghost function Body(v: nat, b: Base, c: Conversion): Text
    requires b.base >= 2 && b.group > 0
  {
    var d := Digits(v, 0, b, c.group);
    var t := d + Repeat(ZERO, ZerosFor(|d|, c));
    if c.pound && b.base == 8 && (t == [] || t[|t| - 1] != ZERO) then t + [ZERO] else t
  }

  function Pad(c: Conversion, n: nat, x: Char, sign: Char): nat {
    var p := c.width - n - (if x != 0 then 2 else 0) - (if sign != 0 then 1 else 0);
    if p < 0 then 0 else p
  }

  function Opt(c: Char): Text { if c == 0 then [] else [c] }

  function Prefix(x: Char): Text { if x == 0 then [] else [ZERO, x] }

  /** Before the digits: padding, sign, prefix, zeros. */
  function Head(c: Conversion, pad: nat, sign: Char, x: Char): Text {
    (if !c.minus && !c.zero then Repeat(BLANK, pad) else []) + Opt(sign) + Prefix(x)
    + (if c.zero then Repeat(ZERO, pad) else [])
  }

  function Tail(c: Conversion, pad: nat): Text { if c.minus then Repeat(BLANK, pad) else [] }

  /** The whole field. */
  ghost function Field(v: nat, isSigned: bool, negative: bool, b: Base, c: Conversion): Text
    requires b.base >= 2 && b.group > 0
  {
    var sign := Sign(isSigned, negative, c);
    var x := if c.pound && v != 0 then b.x else 0;
    var body := Body(v, b, c);
    var pad := Pad(c, |body|, x, sign);
    Head(c, pad, sign, x) + Reversed(body) + Tail(c, pad)
  }

  lemma DigitStep(value: nat, base: nat, d: nat, v: nat)
    requires base >= 8 && value * Arithmetic.Pow2(3 * d) <= v
    ensures value / base * Arithmetic.Pow2(3 * (d + 1)) <= v
  {
    hide Arithmetic.Pow2;
    var p, q := Arithmetic.Pow2(3 * d), value / base;
    Arithmetic.DivMod(value, base);
    Arithmetic.MulMono(8, base, q);
    PowStep(d);
    assert q * (8 * p) == (q * 8) * p;
    Arithmetic.MulMono(q * 8, value, p);
  }

  lemma PowStep(d: nat)
    ensures Arithmetic.Pow2(3 * (d + 1)) == 8 * Arithmetic.Pow2(3 * d)
  {
    Arithmetic.Pow2Add(3, 3 * d);
    assert Arithmetic.Pow2(3) == 8;
  }

  /** A 64-bit number has at most 22 digits in base 8 or more. */
  lemma FewDigits(value: nat, d: nat, v: nat)
    requires value > 0 && value * Arithmetic.Pow2(3 * d) <= v < Arithmetic.Pow2(64)
    ensures d <= 21
  {
    hide Arithmetic.Pow2;
    Arithmetic.MulMono(1, value, Arithmetic.Pow2(3 * d));
    if d > 21 {
      Arithmetic.Pow2Add(64, 3 * d - 64);
      PowPositive(3 * d - 64);
      Arithmetic.MulMono(1, Arithmetic.Pow2(3 * d - 64), Arithmetic.Pow2(64));
    }
  }

  lemma PowPositive(k: nat)
    ensures Arithmetic.Pow2(k) >= 1
  {
  }

  /** The digits in the buffer, lowest first; the buffer never runs over. */
  method FillDigits(buf: array<Char>, value0: nat, b: Base, group: bool) returns (cp: nat)
    requires buf.Length == BUFFER && IsBase(b) && value0 < Arithmetic.Pow2(64)
    modifies buf
    ensures cp <= 44 && buf[..cp] == Digits(value0, 0, b, group)
  {
    hide Digits, Digit, Arithmetic.Pow2;
    cp := 0;
    var value: nat, digitCnt: nat := value0, 0;
    FirstDigit(value0);
    assert buf[..0] == [];
    while value > 0
      invariant cp <= 2 * digitCnt && digitCnt <= 22
      invariant value * Arithmetic.Pow2(3 * digitCnt) <= value0
      invariant buf[..cp] + Digits(value, digitCnt, b, group) == Digits(value0, 0, b, group)
    {
      FewDigits(value, digitCnt, value0);
      DigitStep(value, b.base, digitCnt, value0);
      NextDigit(value, digitCnt, b, group);
      cp := PutDigit(buf, cp, value % b.base, digitCnt, b, group);
      value := value / b.base;
      digitCnt := digitCnt + 1;
    }
    NoDigits(digitCnt, b, group);
  }

  method PutDigit(buf: array<Char>, cp0: nat, d: nat, digitCnt: nat, b: Base, group: bool) returns (cp: nat)
    requires cp0 + 2 <= buf.Length && b.group > 0
    modifies buf
    ensures cp0 < cp <= cp0 + 2
    ensures buf[..cp] == old(buf[..cp0]) + ((if Split(b, group, digitCnt) then [COMMA] else []) + [Digit(b, d)])
  {
    cp := cp0;
    if group && digitCnt > 0 && digitCnt % b.group == 0 {
      buf[cp] := COMMA;
      cp := cp + 1;
    }
    buf[cp] := Digit(b, d);
    cp := cp + 1;
  }

  lemma FirstDigit(v: nat)
    ensures v * Arithmetic.Pow2(3 * 0) <= v
  {
  }

  lemma NextDigit(v: nat, k: nat, b: Base, group: bool)
    requires v > 0 && IsBase(b)
    ensures Digits(v, k, b, group) ==
            (if Split(b, group, k) then [COMMA] else []) + [Digit(b, v % b.base)] + Digits(v / b.base, k + 1, b, group)
  {
  }

  lemma NoDigits(k: nat, b: Base, group: bool)
    requires IsBase(b)
    ensures Digits(0, k, b, group) == []
  {
  }

  method FormatInteger(value: nat, isSigned: bool, negative: bool, b: Base, c: Conversion) returns (out: Text)
    requires IsBase(b) && value < Arithmetic.Pow2(64)
    ensures out == Field(value, isSigned, negative, b, c)
  {
    hide Digits, Arithmetic.Pow2, Reversed, Repeat, IsBase, Head, Tail, ZerosFor, Pad;
    BaseParts(b);
    var sign := Sign(isSigned, negative, c);
    var x := if c.pound && value != 0 then b.x else 0;
    var buf := new Char[BUFFER];
    var cp := FillDigits(buf, value, b, c.group);
    cp := AddZeros(buf, cp, b, c);
    var pad := Pad(c, cp, x, sign);
    var digits := OutputReversed(buf, cp);
    out := Head(c, pad, sign, x) + digits + Tail(c, pad);
  }

  lemma BaseParts(b: Base)
    requires IsBase(b)
    ensures b.base >= 8 && b.group >= 3
  {
  }

  /** Zeros up to the precision, and one for an octal prefix. */
  method AddZeros(buf: array<Char>, cp0: nat, b: Base, c: Conversion) returns (cp: nat)
    requires buf.Length == BUFFER && cp0 <= 44
    modifies buf
    ensures cp <= BUFFER
    ensures var t := old(buf[..cp0]) + Repeat(ZERO, ZerosFor(cp0, c));
            buf[..cp] == if c.pound && b.base == 8 && (t == [] || t[|t| - 1] != ZERO) then t + [ZERO] else t
  {
    var precision := Precision(c);
    cp := cp0;
    ghost var d := buf[..cp0];
    while cp < precision && cp < BUFFER - 1
      invariant cp0 <= cp && (cp == cp0 || cp <= precision) && cp <= BUFFER - 1
      invariant buf[..cp] == d + Repeat(ZERO, cp - cp0)
    {
      buf[cp] := ZERO;
      cp := cp + 1;
    }
    assert cp - cp0 == ZerosFor(cp0, c);
    if c.pound && b.base == 8 && (cp == 0 || buf[cp - 1] != ZERO) {
      buf[cp] := ZERO;
      cp := cp + 1;
    }
  }

  method OutputReversed(buf: array<Char>, cp0: nat) returns (out: Text)
    requires cp0 <= buf.Length
    ensures out == Reversed(buf[..cp0])
  {
    out := [];
    var cp := cp0;
    while cp > 0
      invariant 0 <= cp <= cp0 && Reversed(buf[..cp0]) == out + Reversed(buf[..cp])
    {
      cp := cp - 1;
      LastFirst(buf[..cp + 1]);
      assert buf[..cp + 1][..cp] == buf[..cp];
      out := out + [buf[cp]];
    }
  }

  lemma LastFirst(t: Text)
    requires t != []
    ensures Reversed(t) == [t[|t| - 1]] + Reversed(t[..|t| - 1])
  {
    var s, c := t[..|t| - 1], t[|t| - 1];
    assert t == s + [c];
    ReversedJoin(s, [c]);
    assert Reversed([c]) == [c];
  }

  const MIN32: int := -0x8000_0000
  const MAX32: int := 0x7fff_ffff

  /** `atoi`; `inRange` says whether every number computed on the way is an int,
      which is so exactly if the result is. */
  method Atoi(s: Text) returns (value: int, ghost inRange: bool)
    ensures value == Parsed(s)
    ensures inRange <==> MIN32 <= Parsed(s) <= MAX32
  {
    var i := 0;
    assert s[0..] == s;
    while i < |s| && IsSpace(s[i])
      invariant i <= |s| && SkipSpace(s) == SkipSpace(s[i..])
    {
      assert s[i..][1..] == s[i + 1..];
      i := i + 1;
    }
    var negative := false;
    ghost var t := s[i..];
    if i < |s| && s[i] == PLUS {
      i := i + 1;
      assert t[1..] == s[i..];
    } else if i < |s| && s[i] == MINUS {
      negative := true;
      i := i + 1;
      assert t[1..] == s[i..];
    }
    value, inRange := ParseDigits(s, i);
    if !negative {
      value := -value;
      inRange := inRange && value <= MAX32;
    }
  }

  method ParseDigits(s: Text, i0: nat) returns (value: int, ghost inRange: bool)
    requires i0 <= |s|
    ensures value == -(Leading(s[i0..], 0) as int) && (inRange <==> MIN32 <= value)
  {
    var i := i0;
    value, inRange := 0, true;
    while i < |s| && IsDigit(s[i])
      invariant i0 <= i <= |s| && value <= 0 && Leading(s[i..], -value) == Leading(s[i0..], 0)
      invariant inRange <==> MIN32 <= value
    {
      assert s[i..][1..] == s[i + 1..];
      inRange := inRange && MIN32 <= value * 10 && MIN32 <= value * 10 - DigitValue(s[i]);
      value := value * 10 - DigitValue(s[i]);
      i := i + 1;
    }
  }

  // ----- printing then parsing -----

  lemma {:induction false} SkipBlanks(n: nat, t: Text)
    ensures SkipSpace(Repeat(BLANK, n) + t) == SkipSpace(t)
  {
    if n == 0 {
      assert Repeat(BLANK, n) + t == t;
    } else {
      assert (Repeat(BLANK, n) + t)[1..] == Repeat(BLANK, n - 1) + t;
      SkipBlanks(n - 1, t);
    }
  }

  lemma ParsedPastBlanks(n: nat, t: Text)
    ensures Parsed(Repeat(BLANK, n) + t) == Parsed(t)
  {
    SkipBlanks(n, t);
  }

  /** Zeros in the buffer's upper end come first in the output. */
  lemma BodyReversed(v: nat, c: Conversion)
    ensures exists n: nat :: Reversed(Body(v, BASE_D, c)) == Repeat(ZERO, n) + Reversed(Digits(v, 0, BASE_D, c.group))
  {
    hide Digits;
    var d := Digits(v, 0, BASE_D, c.group);
    var n := ZerosFor(|d|, c);
    ReversedJoin(d, Repeat(ZERO, n));
    ReverseZeros(n);
  }

  lemma {:induction false} ReverseZeros(n: nat)
    ensures Reversed(Repeat(ZERO, n)) == Repeat(ZERO, n)
  {
    if n > 0 {
      assert Repeat(ZERO, n)[1..] == Repeat(ZERO, n - 1);
      ReverseZeros(n - 1);
      assert Repeat(ZERO, n - 1) + [ZERO] == Repeat(ZERO, n);
    }
  }

  /** What `atoi` makes of the number's magnitude: all of it, or the first group. */
  ghost function Read(v: nat, group: bool): nat { if group then FirstGroup(v) else v }

  lemma MagnitudeReads(v: nat, group: bool, n: nat, rest: Text)
    requires rest == [] || !IsDigit(rest[0])
    ensures Leading(Repeat(ZERO, n) + Reversed(Digits(v, 0, BASE_D, group)) + rest, 0) == Read(v, group)
  {
    if group && v > 0 {
      GroupedReads(v, 0, n, rest);
    } else {
      DecimalReads(v, 0, n, rest);
    }
  }

  /** The text of zeros and digits after an optional sign. */
  lemma SignedReads(sign: Char, v: nat, group: bool, n: nat, rest: Text)
    requires sign == 0 || sign == PLUS || sign == MINUS || sign == BLANK
    requires rest == [] || rest[0] == BLANK
    requires rest != [] ==> SkipSpace(rest) == []
    ensures Parsed(Opt(sign) + (Repeat(ZERO, n) + Reversed(Digits(v, 0, BASE_D, group)) + rest)) ==
            if sign == MINUS then -(Read(v, group) as int) else Read(v, group)
  {
    hide Digits, Leading, Read;
    var t := Repeat(ZERO, n) + Reversed(Digits(v, 0, BASE_D, group)) + rest;
    MagnitudeReads(v, group, n, rest);
    if sign == PLUS || sign == MINUS {
      assert ([sign] + t)[1..] == t;
    } else {
      UnsignedReads(v, group, n, rest);
      if sign == BLANK {
        ParsedPastBlanks(1, t);
        assert Repeat(BLANK, 1) == [BLANK];
      } else {
        assert [] + t == t;
      }
    }
  }

  lemma {:induction false} TopDigit(v: nat, k: nat, group: bool)
    requires v > 0
    ensures var d := Digits(v, k, BASE_D, group); d != [] && IsDigit(d[|d| - 1])
    decreases v
  {
    if v / 10 > 0 {
      TopDigit(v / 10, k + 1, group);
    }
  }

  lemma UnsignedReads(v: nat, group: bool, n: nat, rest: Text)
    requires rest == [] || rest[0] == BLANK
    requires rest != [] ==> SkipSpace(rest) == []
    ensures Parsed(Repeat(ZERO, n) + Reversed(Digits(v, 0, BASE_D, group)) + rest) == Read(v, group)
  {
    hide Digits, Leading, Read, Reversed;
    MagnitudeReads(v, group, n, rest);
    var d := Digits(v, 0, BASE_D, group);
    var t := Repeat(ZERO, n) + Reversed(d) + rest;
    if n > 0 {
      assert t[0] == ZERO;
    } else if v > 0 {
      TopDigit(v, 0, group);
      LastFirst(d);
      assert t[0] == d[|d| - 1];
    } else {
      NoDigits(0, BASE_D, group);
      NothingReversed();
      assert t == rest;
      NothingRead(rest, group);
    }
  }

  lemma NothingReversed()
    ensures Reversed<Char>([]) == []
  {
  }

  lemma NothingRead(rest: Text, group: bool)
    requires rest == [] || SkipSpace(rest) == []
    ensures Parsed(rest) == 0 == Read(0, group)
  {
  }

  lemma {:induction false} AllBlank(n: nat)
    ensures SkipSpace(Repeat(BLANK, n)) == []
  {
    assert Repeat(BLANK, n) + [] == Repeat(BLANK, n);
    SkipBlanks(n, []);
  }

  lemma {:induction false} MoreZeros(m: nat, n: nat)
    ensures Repeat(ZERO, m) + Repeat(ZERO, n) == Repeat(ZERO, m + n)
  {
  }

  /** `atoi` of a decimal field. */
  lemma FieldReads(v: nat, negative: bool, c: Conversion)
    ensures Parsed(Field(v, true, negative, BASE_D, c)) == if negative then -(Read(v, c.group) as int) else Read(v, c.group)
  {
    hide Digits, Read, Reversed, Body, Repeat, Parsed, SkipSpace;
    BodyReversed(v, c);
    var n: nat :| Reversed(Body(v, BASE_D, c)) == Repeat(ZERO, n) + Reversed(Digits(v, 0, BASE_D, c.group));
    var sign := Sign(true, negative, c);
    var pad := Pad(c, |Body(v, BASE_D, c)|, 0, sign);
    var m := if !c.minus && !c.zero then pad else 0;
    var z := if c.zero then pad else 0;
    MoreZeros(z, n);
    AllBlank(pad);
    var d, rest := Reversed(Digits(v, 0, BASE_D, c.group)), Tail(c, pad);
    BlankTail(c, pad);
    SignedReads(sign, v, c.group, z + n, rest);
    ParsedPastBlanks(m, Opt(sign) + (Repeat(ZERO, z + n) + d + rest));
    FieldShape(c, pad, sign, m, z, n, d, rest);
  }

  lemma BlankTail(c: Conversion, pad: nat)
    ensures Tail(c, pad) == [] || (Tail(c, pad)[0] == BLANK && SkipSpace(Tail(c, pad)) == [])
  {
    AllBlank(pad);
  }

  lemma FieldShape(c: Conversion, pad: nat, sign: Char, m: nat, z: nat, n: nat, d: Text, rest: Text)
    requires m == (if !c.minus && !c.zero then pad else 0) && z == if c.zero then pad else 0
    ensures Head(c, pad, sign, 0) + (Repeat(ZERO, n) + d) + rest ==
            Repeat(BLANK, m) + (Opt(sign) + (Repeat(ZERO, z + n) + d + rest))
  {
    hide Opt;
    MoreZeros(z, n);
    var zs, ns := Repeat(ZERO, z), Repeat(ZERO, n);
    assert Head(c, pad, sign, 0) == Repeat(BLANK, m) + Opt(sign) + zs;
  }

  /** Printing a 32-bit number with any %d conversion and parsing it gives it back,
      exactly when the digits are not grouped or there is only one group. */
  lemma PrintThenParse(v: int, c: Conversion)
    requires MIN32 <= v <= MAX32
    ensures Parsed(Field(if v < 0 then -v else v, true, v < 0, BASE_D, c)) == v <==> !c.group || -1000 < v < 1000
  {
    hide Field, Parsed, FirstGroup;
    var m: nat := if v < 0 then -v else v;
    FieldReads(m, v < 0, c);
    FirstGroupIs(m);
  }

  // ----- every base -----

  ghost function DigitNumber(b: Base, c: Char): nat {
    if c < b.letter then DigitValue(c) else c - b.letter + 10
  }

  /** The number that digits, lowest first, stand for in a base. */
  ghost function ValueIn(t: Text, b: Base): nat {
    if t == [] then 0 else DigitNumber(b, t[0]) + b.base * ValueIn(t[1..], b)
  }

  /** The digits of a number stand for it, in each base. */
  lemma {:induction false} DigitsAreValue(v: nat, k: nat, b: Base)
    requires IsBase(b)
    ensures ValueIn(Digits(v, k, b, false), b) == v
    decreases v
  {
    if v > 0 {
      DigitsAreValue(v / b.base, k + 1, b);
      var t := Digits(v, k, b, false);
      assert t[1..] == Digits(v / b.base, k + 1, b, false);
      assert DigitNumber(b, t[0]) == v % b.base;
      Arithmetic.DivMod(v, b.base);
    }
  }

  /** A field is as wide as asked for, and wider only if its contents are, exactly
      unless it is padded on both sides: left-aligned and with zeros at once, as a
      negative width from an argument leaves it. */
  lemma FieldWidth(v: nat, isSigned: bool, negative: bool, b: Base, c: Conversion)
    requires IsBase(b)
    ensures var n := |Body(v, b, c)| + |Opt(Sign(isSigned, negative, c))|
                     + |Prefix(if c.pound && v != 0 then b.x else 0)|;
            var field := |Field(v, isSigned, negative, b, c)|;
            && (field == (if n < c.width then c.width else n) <==> !(c.minus && c.zero) || c.width <= n)
            && (c.minus && c.zero && n < c.width ==> field == n + 2 * (c.width - n))
  {
    hide Body, Sign, Digits;
  }
}
