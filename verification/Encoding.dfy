/** The byte layouts that reach the disk: bits in bytes, words and 32-bit
    numbers in little-endian order. */
module Encoding {
  import opened Storage
  import opened Bitmaps
  import Arithmetic

  /** The number with the given bits, lowest first. */
  function Value(b: seq<bool>): (v: nat)
    ensures v < Arithmetic.Pow2(|b|)
  {
    if b == [] then 0 else (if b[0] then 1 else 0) + 2 * Value(b[1..])
  }

  function BitsIn(v: nat, n: nat): (b: seq<bool>)
    ensures |b| == n
  {
    if n == 0 then [] else [v % 2 == 1] + BitsIn(v / 2, n - 1)
  }

  lemma {:induction false} ValueRoundTrip(b: seq<bool>)
    ensures BitsIn(Value(b), |b|) == b
  {
    if b != [] {
      ValueRoundTrip(b[1..]);
      assert Value(b) % 2 == (if b[0] then 1 else 0) && Value(b) / 2 == Value(b[1..]);
    }
  }

  function ByteOf(b: seq<bool>): Byte
    requires |b| == 8
  {
    assert Arithmetic.Pow2(8) == 256 by { assert Arithmetic.Pow2(4) == 16; }
    Value(b)
  }

  function BitsOfByte(x: Byte): (b: seq<bool>)
    ensures |b| == 8
  {
    BitsIn(x, 8)
  }

  lemma ByteRoundTrip(b: seq<bool>)
    requires |b| == 8
    ensures BitsOfByte(ByteOf(b)) == b
  {
    hide BitsIn, Value;
    ValueRoundTrip(b);
  }

  function WordBytes(w: Word): (b: seq<Byte>)
    ensures |b| == 4
  {
    [ByteOf(w[0..8]), ByteOf(w[8..16]), ByteOf(w[16..24]), ByteOf(w[24..32])]
  }

  function BytesWord(b: seq<Byte>): Word
    requires |b| == 4
  {
    BitsOfByte(b[0]) + BitsOfByte(b[1]) + BitsOfByte(b[2]) + BitsOfByte(b[3])
  }

  lemma WordRoundTrip(w: Word)
    ensures BytesWord(WordBytes(w)) == w
  {
    hide BitsOfByte, ByteOf;
    ByteRoundTrip(w[0..8]);
    ByteRoundTrip(w[8..16]);
    ByteRoundTrip(w[16..24]);
    ByteRoundTrip(w[24..32]);
    assert w == w[0..8] + w[8..16] + w[16..24] + w[24..32];
  }

  /** The memory image of an array of words. */
  function WordsBytes(ws: seq<Word>): (b: seq<Byte>)
    ensures |b| == 4 * |ws|
  {
    if ws == [] then [] else WordBytes(ws[0]) + WordsBytes(ws[1..])
  }

  function BytesWords(b: seq<Byte>): (ws: seq<Word>)
    requires |b| % 4 == 0
    ensures 4 * |ws| == |b|
  {
    if b == [] then [] else [BytesWord(b[..4])] + BytesWords(b[4..])
  }

  /** Reading back a memory image restores the words. */
  lemma {:induction false} WordsRoundTrip(ws: seq<Word>)
    ensures BytesWords(WordsBytes(ws)) == ws
  {
    if ws != [] {
      WordsRoundTrip(ws[1..]);
      WordRoundTrip(ws[0]);
      var b := WordsBytes(ws);
      assert b[..4] == WordBytes(ws[0]) && b[4..] == WordsBytes(ws[1..]);
    }
  }

  lemma OverlaidSplit(w: seq<Byte>, t: seq<Byte>, c: seq<Byte>, k: nat)
    requires |w| == 4 && |c| == 4 + |t| && 1 <= k && 4 * k <= |c|
    ensures var n := (w + t)[..4 * k] + c[4 * k..];
            n[..4] == w && n[4..] == t[..4 * (k - 1)] + c[4..][4 * (k - 1)..]
  {
  }

  lemma FirstWord(ws: seq<Word>)
    requires ws != []
    ensures WordsBytes(ws) == WordBytes(ws[0]) + WordsBytes(ws[1..])
  {
  }

  lemma FirstBytes(b: seq<Byte>)
    requires b != [] && |b| % 4 == 0
    ensures BytesWords(b) == [BytesWord(b[..4])] + BytesWords(b[4..])
  {
  }

  /** Reading back an image of which only the first words are new. */
  lemma {:induction false} OverlaidWords(ws: seq<Word>, c: seq<Byte>, k: nat)
    requires |c| == 4 * |ws| && k <= |ws|
    ensures BytesWords(WordsBytes(ws)[..4 * k] + c[4 * k..]) == ws[..k] + BytesWords(c)[k..]
  {
    hide WordBytes, BytesWord, WordsBytes, BytesWords;
    if k == 0 {
      assert WordsBytes(ws)[..0] + c[0..] == c;
    } else {
      FirstWord(ws);
      FirstBytes(c);
      OverlaidSplit(WordBytes(ws[0]), WordsBytes(ws[1..]), c, k);
      var n := WordsBytes(ws)[..4 * k] + c[4 * k..];
      FirstBytes(n);
      WordRoundTrip(ws[0]);
      OverlaidWords(ws[1..], c[4..], k - 1);
      assert ws[..k] == [ws[0]] + ws[1..][..k - 1];
      assert BytesWords(c)[k..] == BytesWords(c[4..])[k - 1..];
    }
  }

  function Le32(x: nat): (b: seq<Byte>)
    requires x < MAX32
    ensures |b| == 4
  {
    [x % 256, x / 256 % 256, x / 256 / 256 % 256, x / 256 / 256 / 256]
  }

  function FromLe32(b: seq<Byte>): (x: nat)
    requires |b| == 4
    ensures x < MAX32
  {
    var b0: nat, b1: nat, b2: nat, b3: nat := b[0], b[1], b[2], b[3];
    b0 + 256 * b1 + 65536 * b2 + 16777216 * b3
  }

  lemma Le32RoundTrip(x: nat)
    requires x < MAX32
    ensures FromLe32(Le32(x)) == x
  {
    var x1 := x / 256;
    var x2 := x1 / 256;
    assert x == x % 256 + 256 * x1 && x1 == x1 % 256 + 256 * x2 && x2 == x2 % 256 + 256 * (x2 / 256);
  }
}
