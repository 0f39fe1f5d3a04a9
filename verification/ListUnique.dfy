/** Removing adjacent duplicates from a linked list. */
module ListUniqueness {
  import opened Helpers
  import opened ListOrder
  import opened Lists

  /** What stays when, from the front, an element equivalent to the last one
      kept is dropped. */
  ghost function Kept<T>(less: (T, T) -> bool, s: seq<T>): seq<T>
    decreases |s|
  {
    if |s| < 2 then s
    else if Equiv(less, s[0], s[1]) then Kept(less, [s[0]] + s[2..])
    else [s[0]] + Kept(less, s[1..])
  }

  /** What is dropped, in the order in which it is dropped. */
  ghost function Dropped<T>(less: (T, T) -> bool, s: seq<T>): seq<T>
    decreases |s|
  {
    if |s| < 2 then []
    else if Equiv(less, s[0], s[1]) then [s[1]] + Dropped(less, [s[0]] + s[2..])
    else Dropped(less, s[1..])
  }

  lemma DropsSecond<T>(less: (T, T) -> bool, r: seq<T>)
    requires |r| >= 2 && Equiv(less, r[0], r[1])
    ensures Kept(less, r) == Kept(less, [r[0]] + r[2..]) && Dropped(less, r) == [r[1]] + Dropped(less, [r[0]] + r[2..])
  {
  }

  lemma KeepsFirst<T>(less: (T, T) -> bool, r: seq<T>)
    requires |r| >= 2 && !Equiv(less, r[0], r[1])
    ensures Kept(less, r) == [r[0]] + Kept(less, r[1..]) && Dropped(less, r) == Dropped(less, r[1..])
  {
  }

  lemma {:induction false} KeptAndDropped<T>(less: (T, T) -> bool, s: seq<T>)
    ensures multiset(Kept(less, s)) + multiset(Dropped(less, s)) == multiset(s)
    decreases |s|
  {
    hide Kept, Dropped, Equiv;
    if |s| < 2 {
      UniqueOfFew(less, s);
    } else if Equiv(less, s[0], s[1]) {
      var u := [s[0]] + s[2..];
      DropsSecond(less, s);
      KeptAndDropped(less, u);
      DropOne(Kept(less, u), Dropped(less, u), s[0], s[1], s[2..]);
      assert s == [s[0], s[1]] + s[2..];
    } else {
      KeepsFirst(less, s);
      KeptAndDropped(less, s[1..]);
      KeepOne(Kept(less, s[1..]), Dropped(less, s[1..]), s[0], s[1..]);
      assert s == [s[0]] + s[1..];
    }
  }

  lemma KeepOne<T>(kept: seq<T>, dropped: seq<T>, a: T, t: seq<T>)
    requires multiset(kept) + multiset(dropped) == multiset(t)
    ensures multiset([a] + kept) + multiset(dropped) == multiset([a] + t)
  {
    assert multiset([a] + t) == multiset{a} + multiset(t);
    assert multiset([a] + kept) == multiset{a} + multiset(kept);
  }

  lemma DropOne<T>(kept: seq<T>, dropped: seq<T>, a: T, b: T, t: seq<T>)
    requires multiset(kept) + multiset(dropped) == multiset([a] + t)
    ensures multiset(kept) + multiset([b] + dropped) == multiset([a, b] + t)
  {
    assert multiset([a, b] + t) == multiset{b} + multiset([a] + t);
    assert multiset([b] + dropped) == multiset{b} + multiset(dropped);
  }

  /** On a sorted list, exactly the first member of every class is kept. */
  lemma {:induction false} KeepsFirstOfClass<T>(less: (T, T) -> bool, all: seq<T>, s: seq<T>, x: T)
    requires StrictWeak(less, all) && Within(s, all) && x in all
    requires Sorted(less, s)
    ensures Class(less, x, Kept(less, s)) ==
            (if Class(less, x, s) == [] then [] else [Class(less, x, s)[0]])
    decreases |s|
  {
    hide StrictWeak;
    if |s| >= 2 {
      var a, b, t := s[0], s[1], s[2..];
      assert s[1..] == [b] + t && s[1..][1..] == t;
      assert Within(s[1..], all) by { assert forall i | 0 <= i < |s[1..]| :: s[1..][i] == s[i + 1]; }
      if Equiv(less, a, b) {
        var u := [a] + t;
        assert u[1..] == t;
        assert forall i | 1 <= i < |u| :: u[i] == s[i + 1];
        KeepsFirstOfClass(less, all, u, x);
        EquivTransitive(less, all, x, a, b);
      } else {
        KeepsFirstOfClass(less, all, s[1..], x);
        if Equiv(less, x, a) {
          NoneAbove(less, all, x, a, s[1..]);
        }
      }
    }
  }

  lemma EquivTransitive<T>(less: (T, T) -> bool, all: seq<T>, x: T, a: T, b: T)
    requires StrictWeak(less, all) && x in all && a in all && b in all
    requires Equiv(less, a, b)
    ensures Equiv(less, x, a) <==> Equiv(less, x, b)
  {
    Ordered(less, all, x, a, b);
    Ordered(less, all, b, a, x);
    Ordered(less, all, x, b, a);
    Ordered(less, all, a, b, x);
  }

  // ----- the in-place operation -----

  /** Midway: what precedes position `k` of the chain is settled. */
  ghost predicate MidUnique<T>(less: (T, T) -> bool, s: seq<T>, n: seq<T>, k: nat, gone: seq<T>) {
    && 1 <= k < |n| - 1
    && n[1..k] + Kept(less, n[k..|n| - 1]) == Kept(less, s)
    && gone + Dropped(less, n[k..|n| - 1]) == Dropped(less, s)
  }

  lemma UniqueStarts<T>(less: (T, T) -> bool, s: seq<T>, n: seq<T>)
    requires |n| > 2 && s == n[1..|n| - 1]
    ensures MidUnique(less, s, n, 1, [])
  {
  }

  lemma UniqueOfFew<T>(less: (T, T) -> bool, s: seq<T>)
    requires |s| < 2
    ensures Kept(less, s) == s && Dropped(less, s) == []
  {
  }

  lemma WithoutNext<T>(n: seq<T>, k: nat)
    requires 1 <= k && k + 1 < |n| - 1
    ensures var m, r := n[..k + 1] + n[k + 2..], n[k..|n| - 1];
            && |m| == |n| - 1 && m[1..k] == n[1..k] && |r| >= 2 && r[0] == n[k] && r[1] == n[k + 1]
            && m[k..|m| - 1] == [r[0]] + r[2..]
  {
    var m, r := n[..k + 1] + n[k + 2..], n[k..|n| - 1];
    var u, v := m[k..|m| - 1], [r[0]] + r[2..];
    assert |u| == |v|;
    assert forall x | 1 <= x < |u| :: u[x] == n[k + 1 + x] && v[x] == n[k + 1 + x];
  }

  lemma UniqueDrops<T>(less: (T, T) -> bool, s: seq<T>, n: seq<T>, k: nat, gone: seq<T>)
    requires MidUnique(less, s, n, k, gone) && k + 1 < |n| - 1 && Equiv(less, n[k], n[k + 1])
    ensures MidUnique(less, s, n[..k + 1] + n[k + 2..], k, gone + [n[k + 1]])
  {
    WithoutNext(n, k);
    var m, r := n[..k + 1] + n[k + 2..], n[k..|n| - 1];
    DropsSecond(less, r);
    assert gone + [n[k + 1]] + Dropped(less, m[k..|m| - 1]) == gone + ([n[k + 1]] + Dropped(less, m[k..|m| - 1]));
  }

  lemma UniqueKeeps<T>(less: (T, T) -> bool, s: seq<T>, n: seq<T>, k: nat, gone: seq<T>)
    requires MidUnique(less, s, n, k, gone) && k + 1 < |n| - 1 && !Equiv(less, n[k], n[k + 1])
    ensures MidUnique(less, s, n, k + 1, gone)
  {
    var r := n[k..|n| - 1];
    assert r[1..] == n[k + 1..|n| - 1];
    assert n[1..k + 1] == n[1..k] + [n[k]];
  }

  lemma UniqueEnds<T>(less: (T, T) -> bool, s: seq<T>, n: seq<T>, k: nat, gone: seq<T>)
    requires MidUnique(less, s, n, k, gone) && k + 1 == |n| - 1
    ensures n[1..|n| - 1] == Kept(less, s) && gone == Dropped(less, s)
  {
    assert n[1..|n| - 1] == n[1..k] + n[k..|n| - 1];
  }

  ghost predicate Apart<T>(s: seq<T>, t: seq<T>) {
    forall i, j | 0 <= i < |s| && 0 <= j < |t| :: s[i] != t[j]
  }

  /** Move the element at position `k` to the end of `duplicates`. */
  method Discard(list: List, duplicates: List, elem: ListElem, ghost k: nat)
    requires list.Valid() && 1 <= k < |list.nodes| - 1 && list.nodes[k] == elem
    requires duplicates != list && duplicates.Valid() && Apart(list.nodes, duplicates.nodes)
    modifies list`nodes, list.nodes, duplicates, duplicates.nodes
    ensures list.Valid() && list.nodes == old(list.nodes)[..k] + old(list.nodes)[k + 1..]
    ensures duplicates.Valid() && Apart(list.nodes, duplicates.nodes)
    ensures duplicates.Elements() == old(duplicates.Elements()) + [elem]
    ensures Within(duplicates.nodes, old(duplicates.nodes) + [elem])
  {
    var _ := list.Remove(elem, k);
    duplicates.PushBack(elem);
  }

  lemma WithinRemoved<T>(n: seq<T>, n0: seq<T>, k: nat)
    requires k < |n| && Within(n, n0)
    ensures n[k] in n0 && Within(n[..k] + n[k + 1..], n0)
  {
    var m := n[..k] + n[k + 1..];
    forall i | 0 <= i < |m| ensures m[i] in n0 { assert m[i] == n[if i < k then i else i + 1]; }
  }

  lemma WithinMore<T>(d: seq<T>, d': seq<T>, e: T, dn0: seq<T>, n0: seq<T>)
    requires Within(d', dn0 + n0) && e in n0 && Within(d, d' + [e])
    ensures Within(d, dn0 + n0)
  {
  }

  /** The loop of `list_unique` with a list for what is removed: it is appended
      there. */
  method UniqueInto(list: List, duplicates: List, less: (ListElem, ListElem) -> bool)
    requires list.Valid() && duplicates.Valid()
    requires duplicates != list && Apart(list.nodes, duplicates.nodes)
    modifies list`nodes, list.nodes, duplicates, duplicates.nodes
    ensures list.Valid() && list.Elements() == Kept(less, old(list.Elements()))
    ensures duplicates.Valid()
    ensures duplicates.Elements() == old(duplicates.Elements()) + Dropped(less, old(list.Elements()))
  {
    hide MidUnique, Kept, Dropped, Apart, Equiv, Distinct;
    ghost var s, n0 := list.Elements(), list.nodes;
    var empty := list.Empty();
    if empty {
      UniqueOfFew(less, s);
      return;
    }
    ghost var d0, dn0 := duplicates.Elements(), duplicates.nodes;
    ghost var k := 1;
    ghost var gone: seq<ListElem> := [];
    UniqueStarts(less, s, n0);
    var elem := list.Begin();
    var next: ListElem := elem.next;
    while next != list.tail
      invariant list.Valid() && 1 <= k < |list.nodes| - 1
      invariant elem == list.nodes[k] && next == list.nodes[k + 1]
      invariant MidUnique(less, s, list.nodes, k, gone)
      invariant duplicates.Valid() && Apart(list.nodes, duplicates.nodes)
      invariant duplicates.Elements() == d0 + gone
      invariant Within(list.nodes, n0) && Within(duplicates.nodes, dn0 + n0)
      decreases |list.nodes| - k
    {
      if Equiv(less, elem, next) {
        UniqueDrops(less, s, list.nodes, k, gone);
        WithinRemoved(list.nodes, n0, k + 1);
        ghost var dn := duplicates.nodes;
        Discard(list, duplicates, next, k + 1);
        WithinMore(duplicates.nodes, dn, next, dn0, n0);
        gone := gone + [next];
      } else {
        UniqueKeeps(less, s, list.nodes, k, gone);
        elem, k := next, k + 1;
      }
      assert elem == list.nodes[k];
      next := elem.next;
    }
    UniqueEnds(less, s, list.nodes, k, gone);
  }

  /** The loop without such a list. */
  method UniqueAlone(list: List, less: (ListElem, ListElem) -> bool)
    requires list.Valid()
    modifies list`nodes, list.nodes
    ensures list.Valid() && list.Elements() == Kept(less, old(list.Elements()))
  {
    hide MidUnique, Kept, Dropped, Equiv, Distinct;
    ghost var s, n0 := list.Elements(), list.nodes;
    var empty := list.Empty();
    if empty {
      UniqueOfFew(less, s);
      return;
    }
    ghost var k := 1;
    ghost var gone: seq<ListElem> := [];
    UniqueStarts(less, s, n0);
    var elem := list.Begin();
    var next: ListElem := elem.next;
    while next != list.tail
      invariant list.Valid() && 1 <= k < |list.nodes| - 1
      invariant elem == list.nodes[k] && next == list.nodes[k + 1]
      invariant MidUnique(less, s, list.nodes, k, gone)
      invariant Within(list.nodes, n0)
      decreases |list.nodes| - k
    {
      if Equiv(less, elem, next) {
        UniqueDrops(less, s, list.nodes, k, gone);
        WithinRemoved(list.nodes, n0, k + 1);
        gone := gone + [next];
        var _ := list.Remove(next, k + 1);
      } else {
        UniqueKeeps(less, s, list.nodes, k, gone);
        elem, k := next, k + 1;
      }
      assert elem == list.nodes[k];
      next := elem.next;
    }
    UniqueEnds(less, s, list.nodes, k, gone);
  }

  ghost function NodesOf(list: List?): seq<ListElem>
    reads list
  {
    if list == null then [] else list.nodes
  }

  /** Remove every element equivalent to the last one kept; append what was
      removed to `duplicates`, a list apart from this one, if it is there. */
  method Unique(list: List, duplicates: List?, less: (ListElem, ListElem) -> bool)
    requires list.Valid() && (duplicates != null ==> duplicates.Valid())
    requires duplicates != list && Apart(list.nodes, NodesOf(duplicates))
    modifies list`nodes, list.nodes, duplicates, NodesOf(duplicates)
    ensures list.Valid() && list.Elements() == Kept(less, old(list.Elements()))
    ensures duplicates != null ==>
              && duplicates.Valid()
              && duplicates.Elements() == old(duplicates.Elements()) + Dropped(less, old(list.Elements()))
  {
    if duplicates == null {
      UniqueAlone(list, less);
    } else {
      UniqueInto(list, duplicates, less);
    }
  }
}
