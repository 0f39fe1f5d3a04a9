/** Hash tables with chained buckets.  A table is the multiset of its elements;
    the buckets are how it is kept. */
module Hashes {
  import opened Helpers
  import opened Arithmetic

  // ----- bits -----

  /** `x & y`. */
  function And(x: nat, y: nat): nat {
    if x == 0 || y == 0 then 0 else 2 * And(x / 2, y / 2) + (if x % 2 == 1 && y % 2 == 1 then 1 else 0)
  }

  lemma {:induction false} AndMask(x: nat, k: nat)
    ensures Pow2(k) > 0 && And(x, Pow2(k) - 1) == x % Pow2(k)
    decreases k
  {
    if k > 0 {
      AndMask(x / 2, k - 1);
      HalfMod(x, Pow2(k - 1));
    }
  }

  lemma HalfMod(x: nat, p: nat)
    requires p > 0
    ensures x % (2 * p) == 2 * (x / 2 % p) + x % 2
  {
    var q, r := x / 2 / p, x / 2 % p;
    DivMod(x / 2, p);
    assert x == 2 * (x / 2) + x % 2;
    assert x == q * (2 * p) + (2 * r + x % 2);
    assert 0 <= 2 * r + x % 2 < 2 * p;
    assert (q + 1) * (2 * p) == q * (2 * p) + 2 * p;
    QuotientIs(x, 2 * p, q);
    DivMod(x, 2 * p);
  }

  function TurnOffLeast1Bit(x: nat): nat
    requires x > 0
  {
    And(x, x - 1)
  }

  lemma {:induction false} AndSelf(x: nat)
    ensures And(x, x) == x
  {
    if x > 0 { AndSelf(x / 2); }
  }

  /** Clearing the lowest one bit, bit by bit. */
  lemma TurnOffIs(x: nat)
    requires x > 0
    ensures TurnOffLeast1Bit(x) == if x % 2 == 1 then x - 1 else 2 * TurnOffLeast1Bit(x / 2)
  {
    if x % 2 == 1 {
      AndSelf(x / 2);
    }
  }

  ghost predicate IsPow2(x: nat) { exists k: nat :: x == Pow2(k) }

  predicate IsPowerOf2(x: nat) { x != 0 && TurnOffLeast1Bit(x) == 0 }

  /** The largest power of two that is at most `x`. */
  ghost function TopBit(x: nat): (t: nat)
    requires x > 0
    ensures 0 < t <= x < 2 * t
  {
    if x == 1 then 1 else 2 * TopBit(x / 2)
  }

  lemma {:induction false} TopBitIsPow2(x: nat)
    requires x > 0
    ensures IsPow2(TopBit(x))
  {
    if x == 1 {
      assert 1 == Pow2(0);
    } else {
      TopBitIsPow2(x / 2);
      var k: nat :| TopBit(x / 2) == Pow2(k);
      assert TopBit(x) == Pow2(k + 1);
    }
  }

  /** Clearing a bit of a number that is not a power of two leaves its top bit; a
      power of two has no other bit. */
  lemma {:induction false} TurnOffKeepsTop(x: nat)
    requires x > 0
    ensures TurnOffLeast1Bit(x) < x
    ensures TurnOffLeast1Bit(x) == 0 <==> x == TopBit(x)
    ensures TurnOffLeast1Bit(x) != 0 ==> TopBit(TurnOffLeast1Bit(x)) == TopBit(x)
  {
    TurnOffIs(x);
    if x % 2 == 0 {
      TurnOffKeepsTop(x / 2);
    }
  }

  // ----- buckets -----

  ghost function Flat<T>(b: seq<seq<T>>): seq<T> {
    if b == [] then [] else b[0] + Flat(b[1..])
  }

  lemma {:induction false} FlatConcat<T>(a: seq<seq<T>>, b: seq<seq<T>>)
    ensures Flat(a + b) == Flat(a) + Flat(b)
  {
    if a == [] {
      assert a + b == b;
    } else {
      assert (a + b)[1..] == a[1..] + b;
      FlatConcat(a[1..], b);
    }
  }

  lemma FlatSplit<T>(b: seq<seq<T>>, i: nat)
    requires i < |b|
    ensures Flat(b) == Flat(b[..i]) + b[i] + Flat(b[i + 1..])
  {
    hide Flat;
    FlatConcat(b[..i], b[i..]);
    assert b == b[..i] + b[i..];
    FlatFirst(b, i);
    Assoc(Flat(b[..i]), b[i], Flat(b[i + 1..]));
  }

  lemma FlatFirst<T>(b: seq<seq<T>>, i: nat)
    requires i < |b|
    ensures Flat(b[i..]) == b[i] + Flat(b[i + 1..])
  {
    assert b[i..][0] == b[i] && b[i..][1..] == b[i + 1..];
  }

  lemma Assoc<T>(a: seq<T>, b: seq<T>, c: seq<T>)
    ensures a + (b + c) == a + b + c
  {
  }

  /** One bucket changed. */
  lemma FlatUpdate<T>(b: seq<seq<T>>, i: nat, n: seq<T>)
    requires i < |b|
    ensures Flat(b[i := n]) == Flat(b[..i]) + n + Flat(b[i + 1..])
  {
    FlatSplit(b[i := n], i);
    assert b[i := n][..i] == b[..i] && b[i := n][i + 1..] == b[i + 1..];
  }

  lemma Pushed<T>(b: seq<seq<T>>, i: nat, e: T)
    requires i < |b|
    ensures multiset(Flat(b[i := [e] + b[i]])) == multiset(Flat(b)) + multiset{e}
  {
    FlatSplit(b, i);
    FlatUpdate(b, i, [e] + b[i]);
  }

  lemma Pulled<T>(b: seq<seq<T>>, i: nat, j: nat)
    requires i < |b| && j < |b[i]|
    ensures multiset(Flat(b[i := b[i][..j] + b[i][j + 1..]])) == multiset(Flat(b)) - multiset{b[i][j]}
    ensures b[i][j] in multiset(Flat(b))
  {
    hide Flat;
    FlatSplit(b, i);
    FlatUpdate(b, i, b[i][..j] + b[i][j + 1..]);
    MiddlePulled(Flat(b[..i]), b[i], Flat(b[i + 1..]), j);
  }

  lemma MiddlePulled<T>(a: seq<T>, b: seq<T>, c: seq<T>, j: nat)
    requires j < |b|
    ensures multiset(a + (b[..j] + b[j + 1..]) + c) == multiset(a + b + c) - multiset{b[j]}
    ensures b[j] in multiset(a + b + c)
  {
    assert b == b[..j] + [b[j]] + b[j + 1..];
    assert multiset(a + b + c) == multiset(a) + multiset(b) + multiset(c);
    assert multiset(b) == multiset(b[..j]) + multiset{b[j]} + multiset(b[j + 1..]);
  }

  lemma {:induction false} FlatHas<T>(b: seq<seq<T>>, e: T)
    ensures e in Flat(b) <==> exists i | 0 <= i < |b| :: e in b[i]
  {
    if b != [] {
      FlatHas(b[1..], e);
      assert b == [b[0]] + b[1..];
      if e in Flat(b) && e !in b[0] {
        var i :| 0 <= i < |b[1..]| && e in b[1..][i];
        assert e in b[i + 1];
      }
      if i :| 0 <= i < |b| && e in b[i] {
        if i > 0 { assert e in b[1..][i - 1]; }
      }
    }
  }

  lemma {:induction false} FlatEmpty<T>(b: seq<seq<T>>)
    requires forall i | 0 <= i < |b| :: b[i] == []
    ensures Flat(b) == []
  {
    if b != [] {
      FlatEmpty(b[1..]);
    }
  }

  // ----- the order and the hash -----

  /** Neither being less is an equivalence, and the hash respects it. */
  ghost predicate Lawful<T(!new)>(hash: T -> nat, less: (T, T) -> bool) {
    && (forall x :: Equiv(less, x, x))
    && (forall x, y, z | Equiv(less, x, y) && Equiv(less, y, z) :: Equiv(less, x, z))
    && (forall x, y | Equiv(less, x, y) :: hash(x) == hash(y))
  }

  function Index<T>(hash: T -> nat, e: T, cnt: nat): nat
    requires cnt > 0
  {
    And(hash(e), cnt - 1)
  }

  lemma IndexInRange<T>(hash: T -> nat, e: T, cnt: nat)
    requires IsPow2(cnt)
    ensures cnt > 0 && Index(hash, e, cnt) == hash(e) % cnt < cnt
  {
    var k: nat :| cnt == Pow2(k);
    AndMask(hash(e), k);
  }

  ghost predicate Placed<T>(hash: T -> nat, b: seq<seq<T>>) {
    |b| > 0 && forall i, e | 0 <= i < |b| && e in b[i] :: Index(hash, e, |b|) == i
  }

  /** No two elements are equal, not even the same one twice. */
  ghost predicate Unique<T(!new)>(less: (T, T) -> bool, m: multiset<T>) {
    forall x, y | x in m && y in m && Equiv(less, x, y) :: x == y && m[x] == 1
  }

  ghost predicate Absent<T(!new)>(less: (T, T) -> bool, m: multiset<T>, e: T) {
    forall x | x in m :: !Equiv(less, x, e)
  }

  lemma UniqueAdd<T(!new)>(hash: T -> nat, less: (T, T) -> bool, m: multiset<T>, e: T)
    requires Lawful(hash, less) && Unique(less, m) && Absent(less, m, e)
    ensures Unique(less, m + multiset{e})
  {
  }

  lemma UniqueSub<T(!new)>(hash: T -> nat, less: (T, T) -> bool, m: multiset<T>, x: T, e: T)
    requires Lawful(hash, less) && Unique(less, m) && x in m && Equiv(less, x, e)
    ensures Unique(less, m - multiset{x}) && Absent(less, m - multiset{x}, e)
  {
    hide Equiv, Lawful;
    forall y | y in m && Equiv(less, y, e) ensures y == x && m[x] == 1 {
      EquivJoin(hash, less, x, y, e);
    }
  }

  lemma EquivJoin<T(!new)>(hash: T -> nat, less: (T, T) -> bool, x: T, y: T, e: T)
    requires Lawful(hash, less) && Equiv(less, x, e) && Equiv(less, y, e)
    ensures Equiv(less, x, y) && Equiv(less, y, x)
  {
    assert Equiv(less, e, y);
  }

  lemma EmptyPlaced<T>(hash: T -> nat, b: seq<seq<T>>)
    requires |b| > 0 && forall i | 0 <= i < |b| :: b[i] == []
    ensures Placed(hash, b) && Flat(b) == []
  {
    hide And;
    FlatEmpty(b);
  }

  /** An element with an equal in the table has it in its own bucket. */
  lemma InItsBucket<T(!new)>(hash: T -> nat, less: (T, T) -> bool, b: seq<seq<T>>, e: T, x: T)
    requires Lawful(hash, less) && IsPow2(|b|) && Placed(hash, b) && x in multiset(Flat(b)) && Equiv(less, x, e)
    ensures Index(hash, e, |b|) < |b| && x in b[Index(hash, e, |b|)]
  {
    hide And, Equiv, Flat, Lawful;
    IndexInRange(hash, e, |b|);
    FlatHas(b, x);
    SameHash(hash, less, x, e);
    var i :| 0 <= i < |b| && x in b[i];
    assert Index(hash, x, |b|) == i;
  }

  lemma SameHash<T(!new)>(hash: T -> nat, less: (T, T) -> bool, x: T, y: T)
    requires Lawful(hash, less) && Equiv(less, x, y)
    ensures hash(x) == hash(y)
  {
  }

  class HashTable<T(==, !new)> {
    const hash: T -> nat
    const less: (T, T) -> bool
    var elemCnt: nat
    var bucketCnt: nat
    var buckets: seq<seq<T>>

    ghost function Elements(): multiset<T>
      reads this
    {
      multiset(Flat(buckets))
    }

    ghost predicate Valid()
      reads this
    {
      && Lawful(hash, less) && bucketCnt == |buckets| >= 4 && IsPow2(bucketCnt)
      && Placed(hash, buckets) && Unique(less, Elements()) && elemCnt == |Elements()|
    }

    constructor (hash: T -> nat, less: (T, T) -> bool)
      requires Lawful(hash, less)
      ensures Valid() && Elements() == multiset{} && this.hash == hash && this.less == less
    {
      this.hash, this.less := hash, less;
      elemCnt, bucketCnt := 0, 4;
      buckets := seq(4, _ => []);
      new;
      EmptyPlaced(hash, buckets);
      assert 4 == Pow2(2);
    }

    /** The element of the bucket that equals `e`, and where it is. */
    method FindElem(bucket: seq<T>, e: T) returns (r: Option<T>, at: nat)
      ensures r.Some? ==> at < |bucket| && r.value == bucket[at] && Equiv(less, r.value, e)
      ensures r.None? ==> forall x | x in bucket :: !Equiv(less, x, e)
    {
      hide Equiv;
      at := 0;
      while at < |bucket|
        invariant at <= |bucket| && forall k | 0 <= k < at :: !Equiv(less, bucket[k], e)
      {
        if Equiv(less, bucket[at], e) {
          return Some(bucket[at]), at;
        }
        at := at + 1;
      }
      r := None;
    }

    /** The element of the table that equals `e`. */
    method Find(e: T) returns (r: Option<T>)
      requires Valid()
      ensures r.Some? ==> r.value in Elements() && Equiv(less, r.value, e)
      ensures r.None? ==> Absent(less, Elements(), e)
    {
      hide Flat, Equiv, And;
      var i := FindBucket(e);
      var at;
      r, at := FindElem(buckets[i], e);
      FoundOrAbsent(hash, less, buckets, e, r, at);
    }

    method FindBucket(e: T) returns (i: nat)
      requires bucketCnt == |buckets| && IsPow2(bucketCnt)
      ensures i < |buckets| && i == Index(hash, e, |buckets|)
    {
      IndexInRange(hash, e, bucketCnt);
      i := And(hash(e), bucketCnt - 1);
    }

    /** `e` becomes an element, unless there is an equal one, which stays. */
    method Insert(e: T, mallocOk: bool) returns (r: Option<T>)
      requires Valid()
      modifies this
      ensures Valid()
      ensures r.Some? ==> r.value in Elements() && Equiv(less, r.value, e) && Elements() == old(Elements())
      ensures r.None? ==> Absent(less, old(Elements()), e) && Elements() == old(Elements()) + multiset{e}
    {
      hide Flat, Equiv, And, Unique, Absent, Placed;
      var i := FindBucket(e);
      var at;
      r, at := FindElem(buckets[i], e);
      FoundOrAbsent(hash, less, buckets, e, r, at);
      if r.None? {
        InsertElem(i, e);
      }
      Rehash(mallocOk);
    }

    /** `e` becomes an element in place of an equal one. */
    method Replace(e: T, mallocOk: bool) returns (r: Option<T>)
      requires Valid()
      modifies this
      ensures Valid()
      ensures r.Some? ==> r.value in old(Elements()) && Equiv(less, r.value, e)
                          && Elements() == old(Elements()) - multiset{r.value} + multiset{e}
      ensures r.None? ==> Absent(less, old(Elements()), e) && Elements() == old(Elements()) + multiset{e}
    {
      hide Flat, Equiv, And, Unique, Absent, Placed;
      var i := FindBucket(e);
      var at;
      r, at := FindElem(buckets[i], e);
      FoundOrAbsent(hash, less, buckets, e, r, at);
      if r.Some? {
        RemoveElem(i, at, e);
      }
      InsertElem(i, e);
      Rehash(mallocOk);
    }

    /** The element that equals `e` goes. */
    method Delete(e: T, mallocOk: bool) returns (r: Option<T>)
      requires Valid()
      modifies this
      ensures Valid()
      ensures r.Some? ==> r.value in old(Elements()) && Equiv(less, r.value, e)
                          && Elements() == old(Elements()) - multiset{r.value}
      ensures r.None? ==> Absent(less, old(Elements()), e) && Elements() == old(Elements())
    {
      hide Flat, Equiv, And, Unique, Absent, Placed;
      var i := FindBucket(e);
      var at;
      r, at := FindElem(buckets[i], e);
      FoundOrAbsent(hash, less, buckets, e, r, at);
      if r.Some? {
        RemoveElem(i, at, e);
        Rehash(mallocOk);
      }
    }

    method InsertElem(i: nat, e: T)
      requires Valid() && i < |buckets| && i == Index(hash, e, |buckets|) && Absent(less, Elements(), e)
      modifies this`elemCnt, this`buckets
      ensures Valid() && Elements() == old(Elements()) + multiset{e}
    {
      hide Flat, Equiv, And, Unique, Absent, Placed;
      Pushed(buckets, i, e);
      PushPlaced(hash, buckets, i, e);
      UniqueAdd(hash, less, Elements(), e);
      elemCnt := elemCnt + 1;
      buckets := buckets[i := [e] + buckets[i]];
    }

    method RemoveElem(i: nat, at: nat, ghost e: T)
      requires Valid() && i < |buckets| && at < |buckets[i]| && Equiv(less, buckets[i][at], e)
      modifies this`elemCnt, this`buckets
      ensures Valid() && |buckets| == |old(buckets)| && Absent(less, Elements(), e)
      ensures Elements() == old(Elements()) - multiset{old(buckets[i][at])}
    {
      hide Flat, Equiv, And, Unique, Absent, Placed;
      Pulled(buckets, i, at);
      PullPlaced(hash, buckets, i, at);
      UniqueSub(hash, less, Elements(), buckets[i][at], e);
      elemCnt := elemCnt - 1;
      buckets := buckets[i := buckets[i][..at] + buckets[i][at + 1..]];
    }

    /** About one bucket for two elements, if there is memory for the buckets.  The
        elements stay the same either way. */
    method Rehash(mallocOk: bool)
      requires Valid()
      modifies this`buckets, this`bucketCnt
      ensures Valid() && Elements() == old(Elements())
      ensures bucketCnt == if mallocOk then BestCount(elemCnt) else old(bucketCnt)
    {
      hide Flat, Equiv, And, Unique, Placed;
      var newCnt := elemCnt / 2;
      if newCnt < 4 {
        newCnt := 4;
      }
      newCnt := RoundDown(newCnt);
      if newCnt == bucketCnt {
        return;
      }
      if !mallocOk {
        return;
      }
      buckets := MoveAll(newCnt);
      bucketCnt := newCnt;
      assert Elements() == old(Elements());
    }

    /** Every element in a new set of buckets. */
    method MoveAll(newCnt: nat) returns (anew: seq<seq<T>>)
      requires newCnt > 0 && IsPow2(newCnt)
      ensures |anew| == newCnt && Placed(hash, anew) && multiset(Flat(anew)) == Elements()
    {
      hide Flat, Equiv, And, Placed, IsPow2;
      anew := seq(newCnt, _ => []);
      EmptyPlaced(hash, anew);
      var i := 0;
      FlatWhole(buckets);
      while i < |buckets|
        invariant i <= |buckets| && |anew| == newCnt && Placed(hash, anew)
        invariant multiset(Flat(anew)) + multiset(Flat(buckets[i..])) == multiset(Flat(buckets))
      {
        FlatFirst(buckets, i);
        anew := MoveBucket(buckets[i], anew);
        i := i + 1;
      }
      NothingLeft(buckets);
    }

    /** Each element of an old bucket to the front of its new one. */
    method MoveBucket(from: seq<T>, into: seq<seq<T>>) returns (r: seq<seq<T>>)
      requires Placed(hash, into) && IsPow2(|into|)
      ensures |r| == |into| && Placed(hash, r) && multiset(Flat(r)) == multiset(Flat(into)) + multiset(from)
    {
      hide Flat, And, Placed;
      r := into;
      var j := 0;
      while j < |from|
        invariant j <= |from| && |r| == |into| && Placed(hash, r)
        invariant multiset(Flat(r)) == multiset(Flat(into)) + multiset(from[..j])
      {
        IndexInRange(hash, from[j], |r|);
        var i := Index(hash, from[j], |r|);
        Pushed(r, i, from[j]);
        PushPlaced(hash, r, i, from[j]);
        assert from[..j + 1] == from[..j] + [from[j]];
        r := r[i := [from[j]] + r[i]];
        j := j + 1;
      }
      assert from[..|from|] == from;
    }
  }

  /** The bucket count for a number of elements: a power of two, at least four. */
  ghost function BestCount(elems: nat): (n: nat)
    ensures n >= 4
  {
    TopBit(if elems / 2 < 4 then 4 else elems / 2)
  }

  /** Low bits cleared until one is left. */
  method RoundDown(n: nat) returns (r: nat)
    requires n >= 4
    ensures r == TopBit(n) && r >= 4 && IsPow2(r)
  {
    hide And, TurnOffLeast1Bit, TopBit;
    r := n;
    TurnOffKeepsTop(r);
    while !IsPowerOf2(r)
      invariant 0 < r && TopBit(r) == TopBit(n)
      invariant TurnOffLeast1Bit(r) < r && (TurnOffLeast1Bit(r) == 0 <==> r == TopBit(r))
      invariant TurnOffLeast1Bit(r) != 0 ==> TopBit(TurnOffLeast1Bit(r)) == TopBit(r)
      decreases r
    {
      r := TurnOffLeast1Bit(r);
      TurnOffKeepsTop(r);
    }
    TopBitIsPow2(n);
    AtLeastFour(n);
  }

  lemma AtLeastFour(n: nat)
    requires n >= 4
    ensures TopBit(n) >= 4
  {
  }

  lemma FlatWhole<T>(b: seq<seq<T>>)
    ensures Flat(b[0..]) == Flat(b)
  {
    assert b[0..] == b;
  }

  lemma NothingLeft<T>(b: seq<seq<T>>)
    ensures Flat(b[|b|..]) == []
  {
  }

  lemma PushPlaced<T>(hash: T -> nat, b: seq<seq<T>>, i: nat, e: T)
    requires Placed(hash, b) && i < |b| && Index(hash, e, |b|) == i
    ensures Placed(hash, b[i := [e] + b[i]])
  {
    hide And;
  }

  lemma PullPlaced<T>(hash: T -> nat, b: seq<seq<T>>, i: nat, j: nat)
    requires Placed(hash, b) && i < |b| && j < |b[i]|
    ensures Placed(hash, b[i := b[i][..j] + b[i][j + 1..]])
  {
    hide And;
    forall e | e in b[i][..j] + b[i][j + 1..] ensures e in b[i] {
    }
  }

  /** A search of one bucket is a search of the table. */
  lemma FoundOrAbsent<T(!new)>(hash: T -> nat, less: (T, T) -> bool, b: seq<seq<T>>, e: T, r: Option<T>, at: nat)
    requires Lawful(hash, less) && IsPow2(|b|) && Placed(hash, b)
    requires Index(hash, e, |b|) < |b|
    requires var k := b[Index(hash, e, |b|)];
             && (r.Some? ==> at < |k| && r.value == k[at] && Equiv(less, r.value, e))
             && (r.None? ==> forall x | x in k :: !Equiv(less, x, e))
    ensures r.Some? ==> r.value in multiset(Flat(b))
    ensures r.None? ==> Absent(less, multiset(Flat(b)), e)
  {
    hide And, Equiv, Flat, Lawful;
    if r.Some? {
      FlatHas(b, r.value);
    } else {
      forall x | x in multiset(Flat(b)) && Equiv(less, x, e) ensures x in b[Index(hash, e, |b|)] {
        InItsBucket(hash, less, b, e, x);
      }
    }
  }

  // ----- iteration -----

  /** A walk over a table.  `elem` is the position in the bucket, -1 before its
      first; the walk is over when the bucket is past the last. */
  class HashIterator<T(==, !new)> {
    const table: HashTable<T>
    var bucket: nat
    var elem: int

    /** How many elements have been passed. */
    ghost function Passed(): int
      requires bucket <= |table.buckets|
      reads this, table
    {
      |Flat(table.buckets[..bucket])| + elem + 1
    }

    ghost predicate Valid()
      reads this, table
    {
      && table.bucketCnt == |table.buckets| > 0 && bucket <= |table.buckets|
      && (if bucket < |table.buckets| then -1 <= elem < |table.buckets[bucket]| else elem == -1)
    }

    constructor (table: HashTable<T>)
      requires table.bucketCnt == |table.buckets| > 0
      ensures Valid() && Passed() == 0 && this.table == table && bucket < |table.buckets|
    {
      this.table, bucket, elem := table, 0, -1;
    }

    /** The next element, in the order of the buckets, or none at the end. */
    method Next() returns (r: Option<T>)
      requires Valid() && bucket < |table.buckets|
      modifies this
      ensures Valid() && 0 <= old(Passed())
      ensures var all := Flat(table.buckets);
              if old(Passed()) < |all|
              then r == Some(all[old(Passed())]) && Passed() == old(Passed()) + 1 && bucket < |table.buckets|
              else r == None && bucket == |table.buckets|
    {
      hide Flat;
      ghost var b := table.buckets;
      FlatUpTo(b, bucket);
      elem := elem + 1;
      while elem == |table.buckets[bucket]|
        invariant bucket < |b| && 0 <= elem <= |b[bucket]| && table.buckets == b
        invariant |Flat(b[..bucket])| + elem == old(Passed())
        decreases |b| - bucket
      {
        FlatUpTo(b, bucket);
        bucket := bucket + 1;
        if bucket >= table.bucketCnt {
          elem := -1;
          WholeFlat(b);
          return None;
        }
        elem := 0;
      }
      FlatUpTo(b, bucket);
      FlatSplit(b, bucket);
      r := Some(table.buckets[bucket][elem]);
    }
  }

  lemma FlatUpTo<T>(b: seq<seq<T>>, i: nat)
    requires i < |b|
    ensures Flat(b[..i + 1]) == Flat(b[..i]) + b[i]
  {
    assert b[..i + 1] == b[..i] + [b[i]];
    FlatConcat(b[..i], [b[i]]);
    assert Flat([b[i]]) == b[i] + Flat([]);
  }

  lemma WholeFlat<T>(b: seq<seq<T>>)
    ensures Flat(b[..|b|]) == Flat(b)
  {
    assert b[..|b|] == b;
  }

  /** A whole walk gives every element of the table exactly once. */
  method Walk<T(==, !new)>(table: HashTable<T>) returns (all: seq<T>)
    requires table.Valid()
    ensures multiset(all) == table.Elements() && forall x | x in all :: table.Elements()[x] == 1
  {
    hide Flat, Placed, Lawful;
    all := [];
    var i := new HashIterator(table);
    ghost var whole := Flat(table.buckets);
    while true
      invariant i.table == table && i.Valid() && i.bucket < |table.buckets|
      invariant i.Passed() == |all| <= |whole| && all == whole[..|all|]
      decreases |whole| - |all|
      modifies i
    {
      var r := i.Next();
      if r.None? {
        break;
      }
      all := all + [r.value];
    }
    assert all == whole;
    OnceEach(table.hash, table.less, multiset(whole));
  }

  lemma OnceEach<T(!new)>(hash: T -> nat, less: (T, T) -> bool, m: multiset<T>)
    requires Lawful(hash, less) && Unique(less, m)
    ensures forall x | x in m :: m[x] == 1
  {
    forall x | x in m ensures m[x] == 1 { assert Equiv(less, x, x); }
  }
}
