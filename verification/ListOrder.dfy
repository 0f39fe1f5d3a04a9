/** Orders, runs and merging on sequences: the vocabulary in which the
    linked-list sort is specified.  A comparison is any relation that is a
    strict weak order on the elements at hand; nothing else is known of it. */
module ListOrder {
  import opened Helpers

  ghost predicate Indices<T>(s: seq<T>, i: int, j: int, k: int) {
    0 <= i < |s| && 0 <= j < |s| && 0 <= k < |s|
  }

  /** `less` is asymmetric and negatively transitive on the members of `s`. */
  ghost predicate StrictWeak<T>(less: (T, T) -> bool, s: seq<T>) {
    forall i, j, k | Indices(s, i, j, k) ::
      && !(less(s[i], s[j]) && less(s[j], s[i]))
      && (less(s[i], s[k]) ==> less(s[i], s[j]) || less(s[j], s[k]))
  }

  ghost predicate Sorted<T>(less: (T, T) -> bool, s: seq<T>) {
    forall i, j | 0 <= i < j < |s| :: !less(s[j], s[i])
  }

  /** The members of `s` equivalent to `x`, in the order in which they occur. */
  ghost function Class<T>(less: (T, T) -> bool, x: T, s: seq<T>): seq<T> {
    if s == [] then []
    else (if Equiv(less, x, s[0]) then [s[0]] else []) + Class(less, x, s[1..])
  }

  /** `t` is a permutation of `s` that keeps the order inside every class. */
  ghost predicate Stable<T>(less: (T, T) -> bool, s: seq<T>, t: seq<T>) {
    && multiset(t) == multiset(s)
    && forall i | 0 <= i < |s| :: Class(less, s[i], t) == Class(less, s[i], s)
  }

  /** `t` holds the members of `s` in sorted order, equivalent ones in their
      original order. */
  ghost predicate StableSort<T>(less: (T, T) -> bool, s: seq<T>, t: seq<T>) {
    Sorted(less, t) && Stable(less, s, t)
  }

  ghost predicate Within<T>(t: seq<T>, s: seq<T>) {
    forall i | 0 <= i < |t| :: t[i] in s
  }

  // ----- working with the order -----

  /** The strict weak order, at three members. */
  lemma Ordered<T>(less: (T, T) -> bool, s: seq<T>, a: T, b: T, c: T)
    requires StrictWeak(less, s)
    requires a in s && b in s && c in s
    ensures !less(a, a)
    ensures less(a, b) ==> !less(b, a)
    ensures less(a, c) ==> less(a, b) || less(b, c)
  {
    var i :| 0 <= i < |s| && s[i] == a;
    var j :| 0 <= j < |s| && s[j] == b;
    var k :| 0 <= k < |s| && s[k] == c;
    assert Indices(s, i, j, k) && Indices(s, i, i, i);
  }

  lemma StrictWeakSubset<T>(less: (T, T) -> bool, s: seq<T>, t: seq<T>)
    requires StrictWeak(less, s)
    requires Within(t, s)
    ensures StrictWeak(less, t)
  {
    forall i, j, k | Indices(t, i, j, k)
      ensures && !(less(t[i], t[j]) && less(t[j], t[i]))
              && (less(t[i], t[k]) ==> less(t[i], t[j]) || less(t[j], t[k]))
    {
      Ordered(less, s, t[i], t[j], t[k]);
    }
  }

  lemma SameMembers<T>(s: seq<T>, t: seq<T>)
    requires multiset(s) == multiset(t)
    ensures Within(s, t) && Within(t, s)
    ensures |s| == |t|
  {
    forall i | 0 <= i < |s| ensures s[i] in t { assert s[i] in multiset(s); }
    forall i | 0 <= i < |t| ensures t[i] in s { assert t[i] in multiset(t); }
    assert |multiset(s)| == |s| && |multiset(t)| == |t|;
  }

  lemma {:induction false} ClassMembers<T>(less: (T, T) -> bool, x: T, s: seq<T>)
    ensures forall i | 0 <= i < |Class(less, x, s)| ::
              Class(less, x, s)[i] in s && Equiv(less, x, Class(less, x, s)[i])
  {
    if s != [] {
      ClassMembers(less, x, s[1..]);
      assert Within(s[1..], s);
    }
  }

  lemma {:induction false} ClassAppend<T>(less: (T, T) -> bool, x: T, s: seq<T>, t: seq<T>)
    ensures Class(less, x, s + t) == Class(less, x, s) + Class(less, x, t)
  {
    if s == [] {
      assert s + t == t;
    } else {
      ClassAppend(less, x, s[1..], t);
      var first := if Equiv(less, x, s[0]) then [s[0]] else [];
      assert (s + t)[0] == s[0] && (s + t)[1..] == s[1..] + t;
      assert Class(less, x, s + t) == first + Class(less, x, s[1..] + t);
    }
  }

  // ----- a stable sort is unique -----

  /** Sortedness and stability leave no freedom: two stable sorts of one
      sequence are the same sequence. */
  lemma StableSortUnique<T>(less: (T, T) -> bool, s: seq<T>, t: seq<T>, u: seq<T>)
    requires StrictWeak(less, s)
    requires StableSort(less, s, t) && StableSort(less, s, u)
    ensures t == u
  {
    SameMembers(s, t);
    StrictWeakSubset(less, s, t);
    SortedClassesUnique(less, t, u);
  }

  lemma {:induction false} SortedClassesUnique<T>(less: (T, T) -> bool, t: seq<T>, u: seq<T>)
    requires StrictWeak(less, t)
    requires Sorted(less, t) && Sorted(less, u)
    requires multiset(t) == multiset(u)
    requires forall i | 0 <= i < |t| :: Class(less, t[i], t) == Class(less, t[i], u)
    ensures t == u
  {
    SameMembers(t, u);
    if t != [] {
      HeadsAgree(less, t, u);
      var t', u' := t[1..], u[1..];
      assert t == [t[0]] + t' && u == [t[0]] + u';
      MultisetTail(t, u);
      forall i | 0 <= i < |t'| ensures Class(less, t'[i], t') == Class(less, t'[i], u') {
        assert t'[i] == t[i + 1];
        ClassTail(less, t'[i], t, u);
      }
      StrictWeakSubset(less, t, t');
      SortedClassesUnique(less, t', u');
    }
  }

  lemma MultisetTail<T>(t: seq<T>, u: seq<T>)
    requires t != [] && u != [] && t[0] == u[0]
    requires multiset(t) == multiset(u)
    ensures multiset(t[1..]) == multiset(u[1..])
  {
    assert t == [t[0]] + t[1..] && u == [t[0]] + u[1..];
    assert multiset(t[1..]) == multiset(t) - multiset{t[0]};
    assert multiset(u[1..]) == multiset(u) - multiset{t[0]};
  }

  lemma HeadsAgree<T>(less: (T, T) -> bool, t: seq<T>, u: seq<T>)
    requires StrictWeak(less, t)
    requires Sorted(less, t) && Sorted(less, u)
    requires t != [] && u != [] && t[0] in u && u[0] in t
    requires Class(less, t[0], t) == Class(less, t[0], u)
    ensures t[0] == u[0]
  {
    var a, b := t[0], u[0];
    Ordered(less, t, a, b, a);
    Ordered(less, t, b, a, b);
    var i :| 0 <= i < |u| && u[i] == a;
    var j :| 0 <= j < |t| && t[j] == b;
    assert Equiv(less, a, b);
    assert Class(less, a, t)[0] == a && Class(less, a, u)[0] == b;
  }

  lemma ClassTail<T>(less: (T, T) -> bool, x: T, t: seq<T>, u: seq<T>)
    requires t != [] && u != [] && t[0] == u[0]
    requires Class(less, x, t) == Class(less, x, u)
    ensures Class(less, x, t[1..]) == Class(less, x, u[1..])
  {
    var first := if Equiv(less, x, t[0]) then [t[0]] else [];
    assert Class(less, x, t)[|first|..] == Class(less, x, t[1..]);
    assert Class(less, x, u)[|first|..] == Class(less, x, u[1..]);
  }

  // ----- merging two sorted runs -----

  /** The merge that prefers the left run on ties. */
  ghost function Merge<T>(less: (T, T) -> bool, a: seq<T>, b: seq<T>): seq<T> {
    if a == [] then b
    else if b == [] then a
    else if less(b[0], a[0]) then [b[0]] + Merge(less, a, b[1..])
    else [a[0]] + Merge(less, a[1..], b)
  }

  lemma MergePermutes<T>(less: (T, T) -> bool, a: seq<T>, b: seq<T>)
    ensures multiset(Merge(less, a, b)) == multiset(a + b)
    ensures |Merge(less, a, b)| == |a| + |b|
    ensures Within(Merge(less, a, b), a + b)
  {
    MergeMultiset(less, a, b);
    SameMembers(Merge(less, a, b), a + b);
  }

  lemma {:induction false} MergeMultiset<T>(less: (T, T) -> bool, a: seq<T>, b: seq<T>)
    ensures multiset(Merge(less, a, b)) == multiset(a) + multiset(b)
  {
    if a != [] && b != [] {
      if less(b[0], a[0]) {
        MergeMultiset(less, a, b[1..]);
        assert b == [b[0]] + b[1..];
        assert multiset(b) == multiset{b[0]} + multiset(b[1..]);
      } else {
        MergeMultiset(less, a[1..], b);
        assert a == [a[0]] + a[1..];
        assert multiset(a) == multiset{a[0]} + multiset(a[1..]);
      }
    }
  }

  lemma {:induction false} MergeSorted<T>(less: (T, T) -> bool, a: seq<T>, b: seq<T>)
    requires StrictWeak(less, a + b)
    requires Sorted(less, a) && Sorted(less, b)
    ensures Sorted(less, Merge(less, a, b))
  {
    if a != [] && b != [] {
      var left := !less(b[0], a[0]);
      var h := if left then a[0] else b[0];
      var a' := if left then a[1..] else a;
      var b' := if left then b else b[1..];
      assert Within(a' + b', a + b);
      StrictWeakSubset(less, a + b, a' + b');
      MergeSorted(less, a', b');
      MergePermutes(less, a', b');
      var m := Merge(less, a', b');
      forall i | 0 <= i < |m| ensures !less(m[i], h) {
        HeadIsLeast(less, a, b, m[i]);
      }
      SortedCons(less, h, m);
    }
  }

  lemma SortedCons<T>(less: (T, T) -> bool, h: T, m: seq<T>)
    requires Sorted(less, m)
    requires forall i | 0 <= i < |m| :: !less(m[i], h)
    ensures Sorted(less, [h] + m)
  {
  }

  /** The element the merge picks first is below everything that remains. */
  lemma HeadIsLeast<T>(less: (T, T) -> bool, a: seq<T>, b: seq<T>, y: T)
    requires StrictWeak(less, a + b)
    requires Sorted(less, a) && Sorted(less, b)
    requires a != [] && b != []
    requires y in a + b
    ensures !less(y, if less(b[0], a[0]) then b[0] else a[0])
  {
    var p, q := a[0], b[0];
    assert p in a + b && q in a + b;
    Ordered(less, a + b, p, p, p);
    Ordered(less, a + b, q, q, q);
    Ordered(less, a + b, q, p, q);
    if y in a {
      assert !less(y, p);
      Ordered(less, a + b, y, p, q);
    } else {
      assert !less(y, q);
      Ordered(less, a + b, y, q, p);
    }
  }

  /** Merging keeps each class: its left members, then its right members. */
  lemma {:induction false} MergeClass<T>(less: (T, T) -> bool, all: seq<T>, x: T, a: seq<T>, b: seq<T>)
    requires StrictWeak(less, all) && x in all
    requires Within(a, all) && Within(b, all)
    requires Sorted(less, a)
    ensures Class(less, x, Merge(less, a, b)) == Class(less, x, a) + Class(less, x, b)
  {
    if a != [] && b != [] {
      if less(b[0], a[0]) {
        MergeClass(less, all, x, a, b[1..]);
        if Equiv(less, x, b[0]) {
          NoneAbove(less, all, x, b[0], a);
        }
      } else {
        MergeClass(less, all, x, a[1..], b);
      }
    }
  }

  /** A sorted run that starts above `x`'s class has no member in it. */
  lemma NoneAbove<T>(less: (T, T) -> bool, all: seq<T>, x: T, y: T, a: seq<T>)
    requires StrictWeak(less, all) && x in all && y in all && Within(a, all)
    requires Sorted(less, a) && a != [] && less(y, a[0]) && Equiv(less, x, y)
    ensures Class(less, x, a) == []
  {
    var c := Class(less, x, a);
    ClassMembers(less, x, a);
    if c != [] {
      var z := c[0];
      Ordered(less, all, a[0], a[0], a[0]);
      Ordered(less, all, y, z, a[0]);
      Ordered(less, all, y, x, z);
      assert false;
    }
  }

  // ----- runs -----

  /** Places where an element is less than the one before it. */
  ghost function Descents<T>(less: (T, T) -> bool, s: seq<T>): nat {
    if |s| < 2 then 0
    else (if less(s[1], s[0]) then 1 else 0) + Descents(less, s[1..])
  }

  /** The number of maximal nondecreasing runs. */
  ghost function Runs<T>(less: (T, T) -> bool, s: seq<T>): nat {
    if s == [] then 0 else 1 + Descents(less, s)
  }

  /** The length of the first maximal nondecreasing run. */
  ghost function RunLength<T>(less: (T, T) -> bool, s: seq<T>): (n: nat)
    requires s != []
    ensures 1 <= n <= |s|
  {
    if |s| == 1 || less(s[1], s[0]) then 1 else 1 + RunLength(less, s[1..])
  }

  lemma {:induction false} FirstRun<T>(less: (T, T) -> bool, s: seq<T>)
    requires StrictWeak(less, s) && s != []
    ensures Sorted(less, s[..RunLength(less, s)])
    ensures Runs(less, s[RunLength(less, s)..]) == Runs(less, s) - 1
  {
    hide StrictWeak;
    var n := RunLength(less, s);
    if |s| == 1 || less(s[1], s[0]) {
    } else {
      var t := s[1..];
      StrictWeakSubset(less, s, t);
      FirstRun(less, t);
      assert s[n..] == t[n - 1..];
      var m := t[..n - 1];
      assert s[..n] == [s[0]] + m;
      assert m[0] == s[1];
      forall i | 0 <= i < |m| ensures !less(m[i], s[0]) {
        Ordered(less, s, s[1], s[1], s[1]);
        assert !less(m[i], s[1]);
        assert m[i] == s[i + 1];
        Ordered(less, s, m[i], s[1], s[0]);
      }
      SortedCons(less, s[0], m);
    }
  }

  lemma {:induction false} DescentsSorted<T>(less: (T, T) -> bool, s: seq<T>)
    requires Sorted(less, s)
    ensures Descents(less, s) == 0
  {
    if |s| >= 2 { DescentsSorted(less, s[1..]); }
  }

  lemma {:induction false} NoDescentsSorted<T>(less: (T, T) -> bool, s: seq<T>)
    requires StrictWeak(less, s) && Runs(less, s) <= 1
    ensures Sorted(less, s)
  {
    if s != [] {
      FirstRun(less, s);
      assert s[..RunLength(less, s)] == s;
    }
  }

  /** Appending costs at most the one boundary between the parts. */
  lemma {:induction false} DescentsAppend<T>(less: (T, T) -> bool, s: seq<T>, t: seq<T>)
    ensures Runs(less, s + t) <= Runs(less, s) + Runs(less, t)
  {
    if s == [] {
      assert s + t == t;
    } else {
      assert (s + t)[1..] == s[1..] + t;
      DescentsAppend(less, s[1..], t);
    }
  }

  // ----- one pass of the natural merge sort -----

  /** Merge the first run with the second, the third with the fourth, ... */
  ghost function Pass<T>(less: (T, T) -> bool, s: seq<T>): seq<T>
    decreases |s|
  {
    if s == [] then []
    else
      var n := RunLength(less, s);
      if n == |s| then s
      else
        var m := n + RunLength(less, s[n..]);
        Merge(less, s[..n], s[n..m]) + Pass(less, s[m..])
  }

  /** `t` permutes `s` and agrees with it on the class of every member of `all`. */
  ghost predicate Keeps<T>(less: (T, T) -> bool, all: seq<T>, s: seq<T>, t: seq<T>) {
    && multiset(t) == multiset(s)
    && forall i | 0 <= i < |all| :: Class(less, all[i], t) == Class(less, all[i], s)
  }

  /** A pass keeps the elements and the order inside every class, and leaves at
      most half as many runs, rounded up. */
  lemma {:induction false} PassKeeps<T>(less: (T, T) -> bool, all: seq<T>, s: seq<T>)
    requires StrictWeak(less, all) && Within(s, all)
    ensures Keeps(less, all, s, Pass(less, s))
    ensures Runs(less, Pass(less, s)) <= (Runs(less, s) + 1) / 2
    decreases |s|, 0
  {
    if s != [] {
      StrictWeakSubset(less, all, s);
      FirstRun(less, s);
      var n := RunLength(less, s);
      if n == |s| {
        assert s[..n] == s;
      } else {
        PassKeepsMore(less, all, s, n);
      }
    }
  }

  lemma {:induction false} PassKeepsMore<T>(less: (T, T) -> bool, all: seq<T>, s: seq<T>, n: nat)
    requires StrictWeak(less, all) && Within(s, all)
    requires s != [] && n == RunLength(less, s) < |s|
    requires Sorted(less, s[..n]) && Runs(less, s[n..]) == Runs(less, s) - 1
    ensures Keeps(less, all, s, Pass(less, s))
    ensures Runs(less, Pass(less, s)) <= (Runs(less, s) + 1) / 2
    decreases |s| - 1, 2
  {
    var t := s[n..];
    StrictWeakSubset(less, all, t);
    FirstRun(less, t);
    var m := n + RunLength(less, t);
    var a, b, rest := s[..n], s[n..m], s[m..];
    ThreeParts(s, n, m);
    PassStep(less, all, a, b, rest);
    assert Pass(less, s) == Merge(less, a, b) + Pass(less, rest);
  }

  lemma ThreeParts<T>(s: seq<T>, n: nat, m: nat)
    requires n <= m <= |s|
    ensures s == s[..n] + s[n..m] + s[m..]
    ensures s[n..][m - n..] == s[m..] && s[n..][..m - n] == s[n..m]
  {
  }

  lemma {:induction false} PassStep<T>(less: (T, T) -> bool, all: seq<T>, a: seq<T>, b: seq<T>, rest: seq<T>)
    requires StrictWeak(less, all) && Within(a, all) && Within(b, all) && Within(rest, all)
    requires Sorted(less, a) && Sorted(less, b) && a != []
    ensures Keeps(less, all, a + b + rest, Merge(less, a, b) + Pass(less, rest))
    ensures Runs(less, Merge(less, a, b) + Pass(less, rest)) <= 1 + (Runs(less, rest) + 1) / 2
    decreases |rest|, 1
  {
    var m := Merge(less, a, b);
    PassKeeps(less, all, rest);
    MergePermutes(less, a, b);
    StrictWeakSubset(less, all, a + b);
    MergeSorted(less, a, b);
    DescentsSorted(less, m);
    DescentsAppend(less, m, Pass(less, rest));
    forall i | 0 <= i < |all|
      ensures Class(less, all[i], m + Pass(less, rest)) == Class(less, all[i], a + b + rest)
    {
      var x := all[i];
      MergeClass(less, all, x, a, b);
      ClassAppend(less, x, m, Pass(less, rest));
      ClassAppend(less, x, a + b, rest);
      ClassAppend(less, x, a, b);
    }
  }
}
