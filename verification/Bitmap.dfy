/** Bitmaps stored in 32-bit words.  A word is its 32 bits, lowest first, so a
    single-bit mask operation is an update of one of them; the bits of the last
    word beyond the size are present and arbitrary, as in memory. */
module Bitmaps {

  const WORD: nat := 32

  type Word = w: seq<bool> | |w| == WORD witness seq(WORD, _ => false)

  function ElemCnt(bitCnt: nat): nat { (bitCnt + WORD - 1) / WORD }

  function ByteCnt(bitCnt: nat): nat { 4 * ElemCnt(bitCnt) }

  lemma ElemInRange(bitCnt: nat, i: nat)
    requires i < bitCnt
    ensures i / WORD < ElemCnt(bitCnt)
  {
  }

  /** The bits that words stand for. */
  ghost function BitsOf(words: seq<Word>, bitCnt: nat): (b: seq<bool>)
    requires |words| == ElemCnt(bitCnt)
    ensures |b| == bitCnt
  {
    seq(bitCnt, i requires 0 <= i < bitCnt => ElemInRange(bitCnt, i); words[i / WORD][i % WORD])
  }

  /** All bits from `start`, `cnt` of them, have the given value. */
  ghost predicate AllAre(b: seq<bool>, start: nat, cnt: nat, value: bool)
    requires start + cnt <= |b|
  {
    forall k | start <= k < start + cnt :: b[k] == value
  }

  /** `b` with `cnt` bits from `start` replaced. */
  ghost function WithRange(b: seq<bool>, start: nat, cnt: nat, value: bool): (r: seq<bool>)
    requires start + cnt <= |b|
    ensures |r| == |b|
  {
    seq(|b|, k requires 0 <= k < |b| => if start <= k < start + cnt then value else b[k])
  }

  datatype Found = NotFound | At(index: nat)

  class Bitmap {
    const bitCnt: nat
    const words: array<Word>

    ghost predicate Valid() {
      words.Length == ElemCnt(bitCnt)
    }

    ghost function Bits(): (b: seq<bool>)
      requires Valid()
      reads words
      ensures |b| == bitCnt
    {
      BitsOf(words[..], bitCnt)
    }

    /** A bitmap of `n` bits, all false; the padding is whatever memory held. */
    constructor (n: nat)
      ensures Valid() && bitCnt == n && fresh(words)
      ensures AllAre(Bits(), 0, n, false)
    {
      bitCnt := n;
      words := new Word[ElemCnt(n)];
      new;
      SetMultiple(0, n, false);
    }

    method Set(i: nat, value: bool)
      requires Valid() && i < bitCnt
      modifies words
      ensures Bits() == old(Bits())[i := value]
    {
      ElemInRange(bitCnt, i);
      SetInWords(words[..], bitCnt, i, value);
      words[i / WORD] := words[i / WORD][i % WORD := value];
    }

    method Test(i: nat) returns (r: bool)
      requires Valid() && i < bitCnt
      ensures r == Bits()[i]
    {
      ElemInRange(bitCnt, i);
      r := words[i / WORD][i % WORD];
    }

    method SetMultiple(start: nat, cnt: nat, value: bool)
      requires Valid() && start + cnt <= bitCnt
      modifies words
      ensures Bits() == WithRange(old(Bits()), start, cnt, value)
    {
      ghost var b := Bits();
      var i := 0;
      while i < cnt
        invariant i <= cnt
        invariant Bits() == WithRange(b, start, i, value)
      {
        Set(start + i, value);
        i := i + 1;
      }
    }

    method Contains(start: nat, cnt: nat, value: bool) returns (r: bool)
      requires Valid() && start + cnt <= bitCnt
      ensures r <==> !AllAre(Bits(), start, cnt, !value)
    {
      var i := 0;
      while i < cnt
        invariant i <= cnt && AllAre(Bits(), start, i, !value)
      {
        var t := Test(start + i);
        if t == value {
          return true;
        }
        i := i + 1;
      }
      r := false;
    }

    /** The lowest run of `cnt` bits at or after `start` that all have the value. */
    method Scan(start: nat, cnt: nat, value: bool) returns (r: Found)
      requires Valid() && start <= bitCnt
      ensures r == FirstFit(Bits(), start, cnt, value)
    {
      hide FirstFit;
      FirstFitIs(Bits(), start, cnt, value);
      if cnt <= bitCnt {
        var last := bitCnt - cnt;
        var i := start;
        while i <= last
          invariant start <= i
          invariant forall k | start <= k < i && k + cnt <= bitCnt :: !AllAre(Bits(), k, cnt, value)
          decreases last - i
        {
          var c := Contains(i, cnt, !value);
          if !c {
            return At(i);
          }
          i := i + 1;
        }
      }
      r := NotFound;
    }

    method ScanAndFlip(start: nat, cnt: nat, value: bool) returns (r: Found)
      requires Valid() && start <= bitCnt
      modifies words
      ensures r == FirstFit(old(Bits()), start, cnt, value)
      ensures r.NotFound? ==> Bits() == old(Bits())
      ensures r.At? ==> start <= r.index && r.index + cnt <= bitCnt
                        && Bits() == WithRange(old(Bits()), r.index, cnt, !value)
    {
      r := Scan(start, cnt, value);
      FirstFitIs(Bits(), start, cnt, value);
      if r.At? {
        SetMultiple(r.index, cnt, !value);
      }
    }
  }

  /** The lowest-numbered run, if there is one. */
  ghost function FirstFit(b: seq<bool>, start: nat, cnt: nat, value: bool): Found
    decreases |b| - start
  {
    if start + cnt > |b| then NotFound
    else if AllAre(b, start, cnt, value) then At(start)
    else if start >= |b| then NotFound
    else FirstFit(b, start + 1, cnt, value)
  }

  lemma {:induction false} FirstFitIs(b: seq<bool>, start: nat, cnt: nat, value: bool)
    ensures match FirstFit(b, start, cnt, value)
            case NotFound => forall k | start <= k && k + cnt <= |b| :: !AllAre(b, k, cnt, value)
            case At(i) => && start <= i && i + cnt <= |b| && AllAre(b, i, cnt, value)
                          && forall k | start <= k < i :: !AllAre(b, k, cnt, value)
    decreases |b| - start
  {
    if start + cnt <= |b| && !AllAre(b, start, cnt, value) && start < |b| {
      FirstFitIs(b, start + 1, cnt, value);
    }
  }

  /** Changing one bit of one word changes one bit. */
  lemma SetInWords(words: seq<Word>, bitCnt: nat, i: nat, value: bool)
    requires |words| == ElemCnt(bitCnt) && i < bitCnt
    ensures i / WORD < |words|
    ensures BitsOf(words[i / WORD := words[i / WORD][i % WORD := value]], bitCnt) == BitsOf(words, bitCnt)[i := value]
  {
    ElemInRange(bitCnt, i);
    var n := words[i / WORD := words[i / WORD][i % WORD := value]];
    var a, b := BitsOf(n, bitCnt), BitsOf(words, bitCnt)[i := value];
    forall k | 0 <= k < bitCnt ensures a[k] == b[k] {
      ElemInRange(bitCnt, k);
    }
  }
}
