/** In-place heapsort and binary search, with elements numbered from 1. */
module Sorting {
  import opened Helpers

  type Compare<!T(!new)> = (T, T) -> int

  ghost predicate Le<T(!new)>(cmp: Compare<T>, x: T, y: T) { cmp(x, y) <= 0 }

  /** A `strcmp`-type result: the sign turns with the arguments, and the order is
      transitive. */
  ghost predicate Ordered<T(!new)>(cmp: Compare<T>) {
    && (forall x, y :: cmp(x, y) > 0 <==> cmp(y, x) < 0)
    && (forall x, y, z | Le(cmp, x, y) && Le(cmp, y, z) :: Le(cmp, x, z))
  }

  /** Element `p`, counting from 1. */
  function At<T>(s: seq<T>, p: nat): T
    requires 1 <= p <= |s|
  {
    s[p - 1]
  }

  /** `p` is no less than its children. */
  ghost predicate Above<T(!new)>(cmp: Compare<T>, s: seq<T>, cnt: nat, p: nat)
    requires cnt <= |s| && 1 <= p
  {
    && (2 * p <= cnt ==> Le(cmp, At(s, 2 * p), At(s, p)))
    && (2 * p + 1 <= cnt ==> Le(cmp, At(s, 2 * p + 1), At(s, p)))
  }

  /** `q` is no less than the children of `p`. */
  ghost predicate Over<T(!new)>(cmp: Compare<T>, s: seq<T>, cnt: nat, p: nat, q: nat)
    requires cnt <= |s| && 1 <= p && 1 <= q <= |s|
  {
    && (2 * p <= cnt ==> Le(cmp, At(s, 2 * p), At(s, q)))
    && (2 * p + 1 <= cnt ==> Le(cmp, At(s, 2 * p + 1), At(s, q)))
  }

  /** A heap from `lo` on. */
  ghost predicate Heap<T(!new)>(cmp: Compare<T>, s: seq<T>, cnt: nat, lo: nat) {
    cnt <= |s| && forall p | 1 <= p && lo <= p <= cnt :: Above(cmp, s, cnt, p)
  }

  /** A heap from `lo` on but for element `i`. */
  ghost predicate HeapBut<T(!new)>(cmp: Compare<T>, s: seq<T>, cnt: nat, lo: nat, i: nat) {
    && cnt <= |s| && 1 <= lo <= i <= cnt
    && (forall p | lo <= p <= cnt && p != i :: Above(cmp, s, cnt, p))
    && (lo <= i / 2 ==> Over(cmp, s, cnt, i, i / 2))
  }

  function Swapped<T>(s: seq<T>, p: nat, q: nat): (r: seq<T>)
    requires 1 <= p <= |s| && 1 <= q <= |s|
    ensures |r| == |s|
  {
    s[p - 1 := s[q - 1]][q - 1 := s[p - 1]]
  }

  lemma SwappedAt<T>(s: seq<T>, p: nat, q: nat)
    requires 1 <= p <= |s| && 1 <= q <= |s|
    ensures At(Swapped(s, p, q), p) == At(s, q) && At(Swapped(s, p, q), q) == At(s, p)
    ensures forall k: nat | 1 <= k <= |s| && k != p && k != q :: At(Swapped(s, p, q), k) == At(s, k)
    ensures multiset(Swapped(s, p, q)) == multiset(s)
  {
  }

  /** The larger child floated up: the break moves down to it. */
  lemma FloatDown<T(!new)>(cmp: Compare<T>, s: seq<T>, cnt: nat, lo: nat, i: nat, m: nat)
    requires Ordered(cmp) && HeapBut(cmp, s, cnt, lo, i) && (m == 2 * i || m == 2 * i + 1) && m <= cnt
    requires Le(cmp, At(s, i), At(s, m)) && Over(cmp, s, cnt, i, m)
    ensures HeapBut(cmp, Swapped(s, i, m), cnt, lo, m)
  {
    hide Le, Ordered, At, Swapped;
    SwappedAt(s, i, m);
    var n := Swapped(s, i, m);
    forall p | lo <= p <= cnt && p != m ensures Above(cmp, n, cnt, p) {
      if p != i { assert Above(cmp, s, cnt, p); }
    }
    assert m / 2 == i;
    assert Above(cmp, s, cnt, m);
  }

  lemma Reflexive<T(!new)>(cmp: Compare<T>, x: T)
    requires Ordered(cmp)
    ensures Le(cmp, x, x)
  {
    assert cmp(x, x) > 0 <==> cmp(x, x) < 0;
  }

  lemma NotAbove<T(!new)>(cmp: Compare<T>, x: T, y: T)
    requires Ordered(cmp)
    ensures cmp(x, y) > 0 ==> Le(cmp, y, x)
    ensures !(cmp(x, y) > 0) ==> Le(cmp, x, y)
  {
  }

  lemma Chain<T(!new)>(cmp: Compare<T>, x: T, y: T, z: T)
    requires Ordered(cmp) && Le(cmp, x, y) && Le(cmp, y, z)
    ensures Le(cmp, x, z)
  {
  }

  /** The largest of an element and its children. */
  method Largest<T(!new)>(a: array<T>, i: nat, cnt: nat, cmp: Compare<T>) returns (max: nat)
    requires Ordered(cmp) && 1 <= i <= cnt <= a.Length
    ensures max == i || ((max == 2 * i || max == 2 * i + 1) && max <= cnt)
    ensures Le(cmp, At(a[..], i), At(a[..], max)) && Over(cmp, a[..], cnt, i, max)
  {
    hide Le, Ordered;
    var left, right := 2 * i, 2 * i + 1;
    max := i;
    Reflexive(cmp, a[i - 1]);
    if left <= cnt {
      NotAbove(cmp, a[left - 1], a[max - 1]);
      Reflexive(cmp, a[left - 1]);
      if cmp(a[left - 1], a[max - 1]) > 0 {
        max := left;
      }
    }
    if right <= cnt {
      NotAbove(cmp, a[right - 1], a[max - 1]);
      Reflexive(cmp, a[right - 1]);
      if cmp(a[right - 1], a[max - 1]) > 0 {
        Chain(cmp, a[left - 1], a[max - 1], a[right - 1]);
        Chain(cmp, a[i - 1], a[max - 1], a[right - 1]);
        max := right;
      }
    }
  }

  method DoSwap<T>(a: array<T>, p: nat, q: nat)
    requires 1 <= p <= a.Length && 1 <= q <= a.Length
    modifies a
    ensures a[..] == Swapped(old(a[..]), p, q)
  {
    a[p - 1], a[q - 1] := a[q - 1], a[p - 1];
  }

  /** The first `cnt` elements permuted, the others in place. */
  ghost predicate Shuffled<T>(s: seq<T>, n: seq<T>, cnt: nat) {
    |n| == |s| && cnt <= |s| && multiset(n[..cnt]) == multiset(s[..cnt]) && n[cnt..] == s[cnt..]
  }

  lemma SwapShuffles<T>(s: seq<T>, p: nat, q: nat, cnt: nat)
    requires 1 <= p <= cnt <= |s| && 1 <= q <= cnt
    ensures Shuffled(s, Swapped(s, p, q), cnt)
  {
    assert Swapped(s, p, q)[..cnt] == Swapped(s[..cnt], p, q);
    SwappedAt(s[..cnt], p, q);
  }

  lemma ShuffledTwice<T>(s: seq<T>, m: seq<T>, n: seq<T>, cnt: nat)
    requires Shuffled(s, m, cnt) && Shuffled(m, n, cnt)
    ensures Shuffled(s, n, cnt)
  {
  }

  /** One broken element floated down: the heap is restored. */
  method Heapify<T(!new)>(a: array<T>, i0: nat, cnt: nat, cmp: Compare<T>, ghost lo: nat)
    requires Ordered(cmp) && cnt <= a.Length && HeapBut(cmp, a[..], cnt, lo, i0)
    modifies a
    ensures Heap(cmp, a[..], cnt, lo) && Shuffled(old(a[..]), a[..], cnt)
  {
    hide Le, Ordered, At, Swapped, Shuffled, HeapBut, Over;
    var i := i0;
    ghost var s := a[..];
    NotShuffled(s, cnt);
    while true
      invariant HeapBut(cmp, a[..], cnt, lo, i) && Shuffled(s, a[..], cnt)
      decreases cnt - i
    {
      BreakIn(cmp, a[..], cnt, lo, i);
      var max := Largest(a, i, cnt, cmp);
      if max == i {
        Mended(cmp, a[..], cnt, lo, i);
        break;
      }
      ghost var before := a[..];
      FloatDown(cmp, before, cnt, lo, i, max);
      SwapShuffles(before, i, max, cnt);
      ShuffledTwice(s, before, Swapped(before, i, max), cnt);
      DoSwap(a, i, max);
      i := max;
    }
  }

  lemma NotShuffled<T>(s: seq<T>, cnt: nat)
    requires cnt <= |s|
    ensures Shuffled(s, s, cnt)
  {
  }

  lemma BreakIn<T(!new)>(cmp: Compare<T>, s: seq<T>, cnt: nat, lo: nat, i: nat)
    requires HeapBut(cmp, s, cnt, lo, i)
    ensures 1 <= lo <= i <= cnt <= |s|
  {
  }

  lemma Mended<T(!new)>(cmp: Compare<T>, s: seq<T>, cnt: nat, lo: nat, i: nat)
    requires HeapBut(cmp, s, cnt, lo, i) && 1 <= i <= |s| && Over(cmp, s, cnt, i, i)
    ensures Heap(cmp, s, cnt, lo)
  {
    hide Le, At;
    forall p | 1 <= p && lo <= p <= cnt ensures Above(cmp, s, cnt, p) {
    }
  }

  // ----- sorting -----

  /** The root of a heap is its largest element. */
  lemma {:induction false} RootLargest<T(!new)>(cmp: Compare<T>, s: seq<T>, cnt: nat, p: nat)
    requires Ordered(cmp) && Heap(cmp, s, cnt, 1) && 1 <= p <= cnt
    ensures Le(cmp, At(s, p), At(s, 1))
    decreases p
  {
    hide Le, At, Ordered;
    if p == 1 {
      Reflexive(cmp, At(s, 1));
    } else {
      RootLargest(cmp, s, cnt, p / 2);
      assert Above(cmp, s, cnt, p / 2);
      assert p == 2 * (p / 2) || p == 2 * (p / 2) + 1;
      Chain(cmp, At(s, p), At(s, p / 2), At(s, 1));
    }
  }

  /** The elements after the first `cnt` are in order, and none of those before is
      larger. */
  ghost predicate Done<T(!new)>(cmp: Compare<T>, s: seq<T>, cnt: nat) {
    forall p: nat, q: nat | 1 <= p < q <= |s| && cnt < q :: Le(cmp, At(s, p), At(s, q))
  }

  ghost predicate Sorted<T(!new)>(cmp: Compare<T>, s: seq<T>) {
    forall p: nat, q: nat | 1 <= p < q <= |s| :: Le(cmp, At(s, p), At(s, q))
  }

  /** The root put behind the heap: it is the next in order. */
  lemma PutLast<T(!new)>(cmp: Compare<T>, s: seq<T>, i: nat)
    requires Ordered(cmp) && Heap(cmp, s, i, 1) && Done(cmp, s, i) && 1 < i <= |s|
    ensures Done(cmp, Swapped(s, 1, i), i - 1) && HeapBut(cmp, Swapped(s, 1, i), i - 1, 1, 1)
  {
    hide Le, At, Ordered, Swapped;
    SwappedAt(s, 1, i);
    var n := Swapped(s, 1, i);
    forall p: nat, q: nat | 1 <= p < q <= |n| && i - 1 < q ensures Le(cmp, At(n, p), At(n, q)) {
      if q == i {
        RootLargest(cmp, s, i, if p == 1 then i else p);
      } else if p == 1 {
        assert Le(cmp, At(s, i), At(s, q));
      } else if p == i {
        assert Le(cmp, At(s, 1), At(s, q));
      } else {
        assert Le(cmp, At(s, p), At(s, q));
      }
    }
    var c: nat := i - 1;
    forall p | 1 <= p <= c && p != 1 ensures Above(cmp, n, c, p) {
      assert Above(cmp, s, i, p);
    }
  }

  /** What is behind the heap stays in order when the heap is shuffled. */
  lemma DoneStays<T(!new)>(cmp: Compare<T>, s: seq<T>, n: seq<T>, cnt: nat)
    requires Done(cmp, s, cnt) && Shuffled(s, n, cnt)
    ensures Done(cmp, n, cnt)
  {
    hide Le;
    forall p: nat, q: nat | 1 <= p < q <= |n| && cnt < q ensures Le(cmp, At(n, p), At(n, q)) {
      assert At(n, q) == n[cnt..][q - 1 - cnt] == s[cnt..][q - 1 - cnt] == At(s, q);
      if p <= cnt {
        assert n[..cnt][p - 1] in multiset(n[..cnt]);
        assert At(n, p) in s[..cnt];
        var k :| 0 <= k < cnt && s[..cnt][k] == At(n, p);
        assert At(s, k + 1) == At(n, p);
      } else {
        assert At(n, p) == n[cnt..][p - 1 - cnt] == s[cnt..][p - 1 - cnt] == At(s, p);
      }
    }
  }

  method Sort<T(!new)>(a: array<T>, cmp: Compare<T>)
    requires Ordered(cmp)
    modifies a
    ensures Sorted(cmp, a[..]) && multiset(a[..]) == multiset(old(a[..]))
  {
    hide Le, At, Ordered, Heap, HeapBut, Done, Shuffled, Above;
    ghost var s := a[..];
    var cnt := a.Length;
    BuildHeap(a, cmp);
    NothingBehind(cmp, a[..]);
    var i: nat := cnt;
    while i > 1
      invariant i <= cnt && Done(cmp, a[..], i) && Heap(cmp, a[..], i, 1) && multiset(a[..]) == multiset(s)
    {
      ghost var before := a[..];
      PutLast(cmp, before, i);
      SwappedAt(before, 1, i);
      DoSwap(a, 1, i);
      ghost var swapped := a[..];
      Heapify(a, 1, i - 1, cmp, 1);
      DoneStays(cmp, swapped, a[..], i - 1);
      ShuffledIsPermuted(swapped, a[..], i - 1);
      i := i - 1;
    }
    AllDone(cmp, a[..], i);
  }

  method BuildHeap<T(!new)>(a: array<T>, cmp: Compare<T>)
    requires Ordered(cmp)
    modifies a
    ensures Heap(cmp, a[..], a.Length, 1) && multiset(a[..]) == multiset(old(a[..]))
  {
    hide Le, At, Ordered, Heap, HeapBut, Shuffled;
    ghost var s := a[..];
    var cnt := a.Length;
    var i: nat := cnt / 2;
    LeavesAreHeaps(cmp, a[..]);
    while i > 0
      invariant i <= cnt / 2 && Heap(cmp, a[..], cnt, i + 1) && multiset(a[..]) == multiset(s)
    {
      ghost var before := a[..];
      OneMore(cmp, before, cnt, i);
      Heapify(a, i, cnt, cmp, i);
      ShuffledIsPermuted(before, a[..], cnt);
      i := i - 1;
    }
  }

  lemma LeavesAreHeaps<T(!new)>(cmp: Compare<T>, s: seq<T>)
    ensures Heap(cmp, s, |s|, |s| / 2 + 1)
  {
  }

  lemma OneMore<T(!new)>(cmp: Compare<T>, s: seq<T>, cnt: nat, i: nat)
    requires Heap(cmp, s, cnt, i + 1) && 1 <= i <= cnt
    ensures HeapBut(cmp, s, cnt, i, i)
  {
    hide Above;
  }

  lemma ShuffledIsPermuted<T>(s: seq<T>, n: seq<T>, cnt: nat)
    requires Shuffled(s, n, cnt)
    ensures multiset(n) == multiset(s)
  {
    assert n == n[..cnt] + n[cnt..] && s == s[..cnt] + s[cnt..];
  }

  lemma NothingBehind<T(!new)>(cmp: Compare<T>, s: seq<T>)
    ensures Done(cmp, s, |s|)
  {
  }

  lemma AllDone<T(!new)>(cmp: Compare<T>, s: seq<T>, i: nat)
    requires Done(cmp, s, i) && i <= 1
    ensures Sorted(cmp, s)
  {
  }

  // ----- searching -----

  /** A match in a sorted array, exactly when there is one. */
  method BinarySearch<T(!new)>(key: T, a: array<T>, cmp: Compare<T>) returns (r: Option<nat>)
    requires Ordered(cmp) && Sorted(cmp, a[..])
    ensures r.Some? ==> r.value < a.Length && cmp(key, a[r.value]) == 0
    ensures r.None? ==> forall k | 0 <= k < a.Length :: cmp(key, a[k]) != 0
  {
    hide Sorted, Le, Ordered, At;
    var first, last := 0, a.Length;
    while first < last
      invariant 0 <= first <= last <= a.Length
      invariant forall k | 0 <= k < first :: cmp(key, a[k]) > 0
      invariant forall k | last <= k < a.Length :: cmp(key, a[k]) < 0
      decreases last - first
    {
      var range := last - first;
      var middle := first + range / 2;
      var c := cmp(key, a[middle]);
      if c < 0 {
        forall k | middle <= k < a.Length ensures cmp(key, a[k]) < 0 { Beyond(key, a[..], cmp, middle, k); }
        last := middle;
      } else if c > 0 {
        forall k | 0 <= k <= middle ensures cmp(key, a[k]) > 0 { Beyond(key, a[..], cmp, k, middle); }
        first := middle + 1;
      } else {
        return Some(middle);
      }
    }
    r := None;
  }

  lemma Beyond<T(!new)>(key: T, s: seq<T>, cmp: Compare<T>, i: nat, j: nat)
    requires Ordered(cmp) && Sorted(cmp, s) && i <= j < |s|
    ensures cmp(key, s[i]) < 0 ==> cmp(key, s[j]) < 0
    ensures cmp(key, s[j]) > 0 ==> cmp(key, s[i]) > 0
  {
    Reflexive(cmp, s[i]);
    assert At(s, i + 1) == s[i] && At(s, j + 1) == s[j];
    assert Le(cmp, s[i], s[j]);
    if Le(cmp, s[j], key) {
      Chain(cmp, s[i], s[j], key);
    }
    if Le(cmp, key, s[i]) {
      Chain(cmp, key, s[i], s[j]);
    }
  }
}
