/** The natural merge sort on linked lists, and the other order-aware list
    operations.  `less` is a fixed relation on elements while one of these
    operations runs; the sort needs it to be a strict weak order on the list. */
module ListSorting {
  import opened ListOrder
  import opened Lists

  /** The (exclusive) end of the maximal run that starts at `a`, position `i`,
      and ends not after `b`, position `j`. */
  method FindEndOfRun(list: List, a: ListElem, b: ListElem, less: (ListElem, ListElem) -> bool,
                      ghost i: nat, ghost j: nat)
      returns (e: ListElem, ghost k: nat)
    requires list.Valid() && 1 <= i < j < |list.nodes| && list.nodes[i] == a && list.nodes[j] == b
    ensures i < k <= j && list.nodes[k] == e
    ensures k == i + RunLength(less, list.nodes[i..j]) && e == list.nodes[i + RunLength(less, list.nodes[i..j])]
  {
    ghost var n := list.nodes;
    e, k := a.next, i + 1;
    while e != b && !less(e, e.prev)
      invariant i < k <= j && n[k] == e
      invariant k - 1 + RunLength(less, n[k - 1..j]) == i + RunLength(less, n[i..j])
      decreases j - k
    {
      assert n[k - 1..j][1..] == n[k..j];
      e, k := e.next, k + 1;
    }
  }

  // ----- merging in place -----

  /** Midway through merging positions `i` to `j` of `n`: in `s`, positions `i`
      to `x` are merged, and `x` to `y` and `y` to `j` remain of the two runs. */
  ghost predicate MidMerge<T>(less: (T, T) -> bool, n: seq<T>, s: seq<T>,
                              i: nat, x: nat, y: nat, j: nat, goal: seq<T>)
  {
    && i <= x <= y <= j <= |s| == |n|
    && s[..i] == n[..i] && s[j..] == n[j..]
    && s[i..x] + Merge(less, s[x..y], s[y..j]) == goal
    && Within(s, n)
  }

  lemma MergeStarts<T>(less: (T, T) -> bool, n: seq<T>, i: nat, m: nat, j: nat)
    requires i <= m <= j <= |n|
    ensures MidMerge(less, n, n, i, i, m, j, Merge(less, n[i..m], n[m..j]))
  {
  }

  lemma MidMergeBounds<T>(less: (T, T) -> bool, n: seq<T>, s: seq<T>,
                          i: nat, x: nat, y: nat, j: nat, goal: seq<T>)
    requires MidMerge(less, n, s, i, x, y, j, goal)
    ensures i <= x <= y <= j <= |s| == |n|
  {
  }

  lemma MergeTakesLeft<T>(less: (T, T) -> bool, n: seq<T>, s: seq<T>,
                          i: nat, x: nat, y: nat, j: nat, goal: seq<T>)
    requires MidMerge(less, n, s, i, x, y, j, goal)
    requires x < y < j && !less(s[y], s[x])
    ensures MidMerge(less, n, s, i, x + 1, y, j, goal)
  {
    assert s[x..y][1..] == s[x + 1..y];
    assert s[i..x + 1] == s[i..x] + [s[x]];
  }

  lemma MergeTakesRight<T>(less: (T, T) -> bool, n: seq<T>, s: seq<T>,
                           i: nat, x: nat, y: nat, j: nat, goal: seq<T>)
    requires MidMerge(less, n, s, i, x, y, j, goal)
    requires x < y < j && less(s[y], s[x])
    ensures MidMerge(less, n, Swapped(s, x, y, y + 1), i, x + 1, y + 1, j, goal)
    ensures Swapped(s, x, y, y + 1)[x + 1] == s[x]
    ensures Within(Swapped(s, x, y, y + 1), s) && |Swapped(s, x, y, y + 1)| == |s|
    ensures forall k | y < k < |s| :: Swapped(s, x, y, y + 1)[k] == s[k]
  {
    SwapOne(s, i, x, y, j);
    var t, a, b := Swapped(s, x, y, y + 1), s[x..y], s[y..j];
    assert Merge(less, a, b) == [s[y]] + Merge(less, a, b[1..]);
    hide Merge, Swapped;
    assert t[i..x + 1] + Merge(less, a, b[1..]) == s[i..x] + ([s[y]] + Merge(less, a, b[1..]));
    WithinTrans(t, s, n);
  }

  lemma SwapOne<T>(s: seq<T>, i: nat, x: nat, y: nat, j: nat)
    requires i <= x < y < j <= |s|
    ensures var t := Swapped(s, x, y, y + 1);
            && |t| == |s| && Within(t, s)
            && t[..i] == s[..i] && t[j..] == s[j..]
            && t[i..x + 1] == s[i..x] + [s[y]]
            && t[x + 1..y + 1] == s[x..y] && t[y + 1..j] == s[y..j][1..]
            && t[x + 1] == s[x]
            && forall k | y < k < |s| :: t[k] == s[k]
  {
    var t := Swapped(s, x, y, y + 1);
    forall k | 0 <= k < |t| ensures t[k] == s[Source(x, y, y + 1, k)] {}
    assert t[..i] == s[..i] && t[j..] == s[j..];
    assert t[x + 1..y + 1] == s[x..y];
    assert t[y + 1..j] == s[y..j][1..];
  }

  lemma MergeDone<T>(less: (T, T) -> bool, n: seq<T>, s: seq<T>,
                     i: nat, x: nat, y: nat, j: nat, goal: seq<T>)
    requires MidMerge(less, n, s, i, x, y, j, goal)
    requires x == y || y == j
    ensures s == n[..i] + goal + n[j..]
    ensures Within(s, n)
  {
    assert Merge(less, s[x..y], s[y..j]) == s[x..j] by { assert s[x..j] == s[x..y] + s[y..j]; }
    assert goal == s[i..x] + s[x..j] == s[i..j];
    assert s == s[..i] + s[i..j] + s[j..];
  }

  /** Move `first`, the head of the right run, to just before `a`. */
  method TakeRight(list: List, a: ListElem, first: ListElem, less: (ListElem, ListElem) -> bool, ghost n: seq<ListElem>,
                   ghost i: nat, ghost x: nat, ghost y: nat, ghost j: nat, ghost goal: seq<ListElem>)
      returns (b: ListElem)
    requires list.Valid() && 1 <= i && j < |list.nodes| && MidMerge(less, n, list.nodes, i, x, y, j, goal)
    requires x < y < j && list.nodes[x] == a && list.nodes[y] == first && less(first, a)
    modifies list`nodes, list.nodes
    ensures list.Valid() && MidMerge(less, n, list.nodes, i, x + 1, y + 1, j, goal)
    ensures |list.nodes| == |old(list.nodes)|
    ensures list.nodes[x + 1] == a && list.nodes[y + 1] == b && list.nodes[j] == old(list.nodes)[j]
    ensures Within(list.nodes, old(list.nodes))
  {
    hide MidMerge, Merge, Swapped, Within;
    MidMergeBounds(less, n, list.nodes, i, x, y, j, goal);
    MergeTakesRight(less, n, list.nodes, i, x, y, j, goal);
    b := first.next;
    list.Splice(a, b.prev, b, x, y, y + 1);
  }

  /** Merge the sorted runs from `a0` to `a1b0` and from `a1b0` to `b1`, at
      positions `i`, `m` and `j`, in place. */
  method InplaceMerge(list: List, a0: ListElem, a1b0: ListElem, b1: ListElem,
                      less: (ListElem, ListElem) -> bool, ghost i: nat, ghost m: nat, ghost j: nat)
    requires list.Valid() && 1 <= i <= m <= j < |list.nodes|
    requires list.nodes[i] == a0 && list.nodes[m] == a1b0 && list.nodes[j] == b1
    modifies list`nodes, list.nodes
    ensures list.Valid()
    ensures var n := old(list.nodes);
            list.nodes == n[..i] + Merge(less, n[i..m], n[m..j]) + n[j..]
    ensures Within(list.nodes, old(list.nodes))
  {
    hide MidMerge, Merge;
    ghost var n := list.nodes;
    ghost var goal := Merge(less, n[i..m], n[m..j]);
    ghost var x, y := i, m;
    var a, b := a0, a1b0;
    MergeStarts(less, n, i, m, j);
    while a != b && b != b1
      invariant list.Valid() && i <= x <= y <= j < |list.nodes| == |n|
      invariant list.nodes[x] == a && list.nodes[y] == b && list.nodes[j] == b1
      invariant Within(list.nodes, n)
      invariant MidMerge(less, n, list.nodes, i, x, y, j, goal)
      decreases j - x
    {
      if !less(b, a) {
        MergeTakesLeft(less, n, list.nodes, i, x, y, j, goal);
        a, x := a.next, x + 1;
      } else {
        ghost var s := list.nodes;
        b := TakeRight(list, a, b, less, n, i, x, y, j, goal);
        WithinTrans(list.nodes, s, n);
        x, y := x + 1, y + 1;
      }
    }
    MergeDone(less, n, list.nodes, i, x, y, j, goal);
  }

  // ----- the sort -----

  /** Midway through a pass over `s`: `done` and what the pass makes of `rest`
      are what it makes of `s`, and `cnt` runs have been output. */
  ghost predicate MidPass<T>(less: (T, T) -> bool, s: seq<T>, done: seq<T>, rest: seq<T>, cnt: nat) {
    && done + Pass(less, rest) == Pass(less, s)
    && cnt + (Runs(less, rest) + 1) / 2 == (Runs(less, s) + 1) / 2
    && Within(done, s) && Within(rest, s)
  }

  /** The step that merges the next two runs, `a` and `b`. */
  lemma PassMergesTwo<T>(less: (T, T) -> bool, s: seq<T>, done: seq<T>,
                         a: seq<T>, b: seq<T>, rest: seq<T>, cnt: nat)
    requires MidPass(less, s, done, a + b + rest, cnt) && StrictWeak(less, s)
    requires a != [] && |a| == RunLength(less, a + b + rest)
    requires b != [] && |b| == RunLength(less, b + rest)
    ensures MidPass(less, s, done + Merge(less, a, b), rest, cnt + 1)
  {
    var m := Merge(less, a, b);
    PassUnfolds(less, a, b, rest);
    assert done + (m + Pass(less, rest)) == done + m + Pass(less, rest);
    PassMergesRuns(less, s, a, b, rest);
    MergePermutes(less, a, b);
    WithinParts(a + b, rest, s);
  }

  lemma WithinParts<T>(a: seq<T>, b: seq<T>, s: seq<T>)
    requires Within(a + b, s)
    ensures Within(a, s) && Within(b, s)
  {
    forall k | 0 <= k < |a| ensures a[k] in s { assert a[k] == (a + b)[k]; }
    forall k | 0 <= k < |b| ensures b[k] in s { assert b[k] == (a + b)[|a| + k]; }
  }

  lemma PassUnfolds<T>(less: (T, T) -> bool, a: seq<T>, b: seq<T>, rest: seq<T>)
    requires a != [] && |a| == RunLength(less, a + b + rest)
    requires b != [] && |b| == RunLength(less, b + rest)
    ensures Pass(less, a + b + rest) == Merge(less, a, b) + Pass(less, rest)
  {
    var r := a + b + rest;
    assert r[..|a|] == a && r[|a|..] == b + rest;
    assert r[|a|..|a| + |b|] == b && r[|a| + |b|..] == rest;
  }

  lemma PassMergesRuns<T>(less: (T, T) -> bool, s: seq<T>, a: seq<T>, b: seq<T>, rest: seq<T>)
    requires StrictWeak(less, s) && Within(a + b + rest, s)
    requires a != [] && |a| == RunLength(less, a + b + rest)
    requires b != [] && |b| == RunLength(less, b + rest)
    ensures Runs(less, a + b + rest) == Runs(less, rest) + 2
  {
    var r := a + b + rest;
    assert r[|a|..] == b + rest && (b + rest)[|b|..] == rest;
    StrictWeakSubset(less, s, r);
    FirstRun(less, r);
    StrictWeakSubset(less, r, b + rest);
    FirstRun(less, b + rest);
  }

  lemma JoinSlices<T>(s: seq<T>, i: nat, j: nat, k: nat)
    requires i <= j <= k <= |s|
    ensures s[i..j] + s[j..k] == s[i..k]
  {
  }

  lemma WithinTrans<T>(t: seq<T>, s: seq<T>, n: seq<T>)
    requires Within(t, s) && Within(s, n)
    ensures Within(t, n)
  {
  }

  lemma ReplaceMiddle<T>(n: seq<T>, p: nat, l: nat, m: seq<T>)
    requires 1 <= p <= l < |n| && |m| == l - p
    ensures var t := n[..p] + m + n[l..];
            && |t| == |n| && t[l] == n[l]
            && t[1..l] == n[1..p] + m && t[l..|t| - 1] == n[l..|n| - 1]
  {
  }

  /** The same step on a chain `n` with sentinels, where the pass has reached
      position `p` and the next two runs end at `k` and `l`. */
  lemma PassMergesAt<T>(less: (T, T) -> bool, s: seq<T>, n: seq<T>, p: nat, k: nat, l: nat, cnt: nat)
    requires 1 <= p < k < l < |n| && StrictWeak(less, s)
    requires MidPass(less, s, n[1..p], n[p..|n| - 1], cnt)
    requires k == p + RunLength(less, n[p..|n| - 1]) && l == k + RunLength(less, n[k..|n| - 1])
    ensures var t := n[..p] + Merge(less, n[p..k], n[k..l]) + n[l..];
            |t| == |n| && t[l] == n[l] && MidPass(less, s, t[1..l], t[l..|t| - 1], cnt + 1)
  {
    hide MidPass, Pass, Runs, StrictWeak, Merge, RunLength, Within;
    var a, b, rest := n[p..k], n[k..l], n[l..|n| - 1];
    var m := Merge(less, a, b);
    var t := n[..p] + m + n[l..];
    MergePermutes(less, a, b);
    JoinSlices(n, p, k, l);
    JoinSlices(n, p, l, |n| - 1);
    JoinSlices(n, k, l, |n| - 1);
    PassMergesTwo(less, s, n[1..p], a, b, rest, cnt);
    ReplaceMiddle(n, p, l, m);
  }

  lemma WithinRefl<T>(s: seq<T>)
    ensures Within(s, s)
  {
  }

  lemma PassStarts<T>(less: (T, T) -> bool, s: seq<T>)
    ensures MidPass(less, s, [], s, 0)
  {
  }

  lemma StableRefl<T>(less: (T, T) -> bool, s: seq<T>)
    ensures Stable(less, s, s)
  {
  }

  lemma StableStrictWeak<T>(less: (T, T) -> bool, s: seq<T>, t: seq<T>)
    requires StrictWeak(less, s) && Stable(less, s, t)
    ensures StrictWeak(less, t)
  {
    SameMembers(s, t);
    StrictWeakSubset(less, s, t);
  }

  lemma PassIsStable<T>(less: (T, T) -> bool, s: seq<T>, t: seq<T>)
    requires StrictWeak(less, s) && Stable(less, s, t)
    ensures Stable(less, s, Pass(less, t))
    ensures Runs(less, Pass(less, t)) <= (Runs(less, t) + 1) / 2
  {
    SameMembers(s, t);
    PassKeeps(less, s, t);
  }

  lemma OneRunSorted<T>(less: (T, T) -> bool, s: seq<T>, t: seq<T>)
    requires StrictWeak(less, s) && Stable(less, s, t) && Runs(less, t) <= 1
    ensures StableSort(less, s, t)
  {
    StableStrictWeak(less, s, t);
    NoDescentsSorted(less, t);
  }

  /** What is left when at most one run remains. */
  lemma PassFinished<T>(less: (T, T) -> bool, s: seq<T>, done: seq<T>, rest: seq<T>, cnt: nat)
    requires StrictWeak(less, s) && MidPass(less, s, done, rest, cnt)
    requires rest == [] || RunLength(less, rest) == |rest|
    ensures done + rest == Pass(less, s)
    ensures (if rest == [] then cnt else cnt + 1) == (Runs(less, s) + 1) / 2
  {
    if rest != [] {
      StrictWeakSubset(less, s, rest);
      FirstRun(less, rest);
    }
  }

  /** Merge the two runs that start at `a0`, position `p`; `only` when there is
      but one. */
  method MergeTwo(list: List, a0: ListElem, less: (ListElem, ListElem) -> bool,
                  ghost s: seq<ListElem>, ghost p: nat, ghost cnt: nat)
      returns (b1: ListElem, only: bool, ghost l: nat)
    requires list.Valid() && 1 <= p < |list.nodes| - 1 && list.nodes[p] == a0 && StrictWeak(less, s)
    requires MidPass(less, s, list.nodes[1..p], list.nodes[p..|list.nodes| - 1], cnt)
    modifies list`nodes, list.nodes
    ensures list.Valid() && Within(list.nodes, old(list.nodes)) && |list.nodes| == |old(list.nodes)|
    ensures only ==> list.nodes == old(list.nodes)
                     && RunLength(less, list.nodes[p..|list.nodes| - 1]) == |list.nodes| - 1 - p
    ensures !only ==> p < l < |list.nodes| && b1 == list.nodes[l]
                      && MidPass(less, s, list.nodes[1..l], list.nodes[l..|list.nodes| - 1], cnt + 1)
  {
    hide MidPass, Pass, Runs, StrictWeak, Merge, RunLength;
    ghost var n := list.nodes;
    ghost var k: nat;
    var a1b0: ListElem;
    a1b0, k := FindEndOfRun(list, a0, list.tail, less, p, |n| - 1);
    b1, l, only := a1b0, k, a1b0 == list.tail;
    if !only {
      b1, l := FindEndOfRun(list, a1b0, list.tail, less, k, |n| - 1);
      PassMergesAt(less, s, n, p, k, l, cnt);
      InplaceMerge(list, a0, a1b0, b1, less, p, k, l);
    }
  }

  /** One pass over the list; `cnt` is the number of runs it output. */
  method SortPass(list: List, less: (ListElem, ListElem) -> bool) returns (cnt: nat)
    requires list.Valid() && StrictWeak(less, list.Elements())
    modifies list`nodes, list.nodes
    ensures list.Valid() && Within(list.nodes, old(list.nodes))
    ensures list.Elements() == Pass(less, old(list.Elements()))
    ensures cnt == (Runs(less, old(list.Elements())) + 1) / 2
  {
    hide Pass, Runs, StrictWeak, RunLength, MidPass;
    cnt := 0;
    ghost var n, s := list.nodes, list.Elements();
    PassStarts(less, s);
    assert n[1..1] == [];
    WithinRefl(n);
    ghost var p := 1;
    var a0 := list.head.next;
    while a0 != list.tail
      invariant list.Valid() && Within(list.nodes, n) && |list.nodes| == |n|
      invariant 1 <= p < |n| && a0 == list.nodes[p]
      invariant MidPass(less, s, list.nodes[1..p], list.nodes[p..|n| - 1], cnt)
      decreases |n| - p
    {
      ghost var before := list.nodes;
      var b1, only;
      ghost var l;
      b1, only, l := MergeTwo(list, a0, less, s, p, cnt);
      WithinTrans(list.nodes, before, n);
      if only {
        PassFinished(less, s, list.nodes[1..p], list.nodes[p..|n| - 1], cnt);
        JoinSlices(list.nodes, 1, p, |n| - 1);
        cnt := cnt + 1;
        return;
      }
      a0, p, cnt := b1, l, cnt + 1;
    }
    PassFinished(less, s, list.nodes[1..p], list.nodes[p..|n| - 1], cnt);
    JoinSlices(list.nodes, 1, p, |n| - 1);
  }

  /** The natural merge sort.  It terminates because every pass that outputs
      more than one run leaves fewer runs than it found. */
  method Sort(list: List, less: (ListElem, ListElem) -> bool)
    requires list.Valid() && StrictWeak(less, list.Elements())
    modifies list`nodes, list.nodes
    ensures list.Valid()
    ensures StableSort(less, old(list.Elements()), list.Elements())
  {
    hide Stable, StableSort, StrictWeak, Pass, Runs;
    ghost var n, s := list.nodes, list.Elements();
    StableRefl(less, s);
    while true
      invariant list.Valid() && Within(list.nodes, n)
      invariant Stable(less, s, list.Elements())
      decreases Runs(less, list.Elements())
    {
      ghost var t, before := list.Elements(), list.nodes;
      StableStrictWeak(less, s, t);
      var cnt := SortPass(list, less);
      WithinTrans(list.nodes, before, n);
      PassIsStable(less, s, t);
      if cnt <= 1 {
        OneRunSorted(less, s, list.Elements());
        break;
      }
    }
  }
}
