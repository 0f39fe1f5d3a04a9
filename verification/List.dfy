/** Doubly linked lists with a head and a tail sentinel, updated in place.
    The ghost field `nodes` is the chain from head to tail; every operation is
    stated by what it does to that chain, and `Valid` ties the chain to the
    `prev` and `next` fields. */
module Lists {
  import opened Helpers

  class ListElem {
    var prev: ListElem?
    var next: ListElem?

    constructor ()
      ensures prev == null && next == null
    {
      prev, next := null, null;
    }
  }

  ghost predicate Linked(s: seq<ListElem>)
    reads s
  {
    && (forall i {:trigger s[i].next} | 0 <= i < |s| - 1 :: s[i].next == s[i + 1])
    && (forall i {:trigger s[i].prev} | 1 <= i < |s| :: s[i].prev == s[i - 1])
  }

  class List {
    const head: ListElem
    const tail: ListElem
    ghost var nodes: seq<ListElem>

    ghost predicate Valid()
      reads this, nodes
    {
      && |nodes| >= 2
      && nodes[0] == head && nodes[|nodes| - 1] == tail
      && head.prev == null && tail.next == null
      && Linked(nodes) && Distinct(nodes)
    }

    /** The interior elements, front to back. */
    ghost function Elements(): seq<ListElem>
      requires |nodes| >= 2
      reads this
    {
      nodes[1..|nodes| - 1]
    }

    constructor ()
      ensures Valid() && Elements() == [] && fresh(nodes)
    {
      head := new ListElem();
      tail := new ListElem();
      new;
      head.next := tail;
      tail.prev := head;
      nodes := [head, tail];
    }

    method Begin() returns (e: ListElem)
      requires Valid()
      ensures e == nodes[1]
    {
      e := head.next;
    }

    method Empty() returns (b: bool)
      requires Valid()
      ensures b <==> Elements() == []
    {
      b := head.next == tail;
    }

    method Size() returns (cnt: nat)
      requires Valid()
      ensures cnt == |Elements()|
    {
      cnt := 0;
      var e := head.next;
      while e != tail
        invariant cnt <= |nodes| - 2
        invariant e == nodes[cnt + 1]
        decreases |nodes| - cnt
      {
        e := e.next;
        cnt := cnt + 1;
      }
    }

    /** Insert `elem` just before `before`, an interior element or the tail. */
    method Insert(before: ListElem, elem: ListElem, ghost k: nat)
      requires Valid() && 1 <= k < |nodes| && nodes[k] == before
      requires elem !in nodes
      modifies this`nodes, nodes, elem
      ensures Valid()
      ensures nodes == old(nodes)[..k] + [elem] + old(nodes)[k..]
    {
      elem.prev := before.prev;
      elem.next := before;
      before.prev.next := elem;
      before.prev := elem;
      nodes := nodes[..k] + [elem] + nodes[k..];
    }

    /** Remove an interior element; the element that followed it is returned. */
    method Remove(elem: ListElem, ghost k: nat) returns (following: ListElem)
      requires Valid() && 1 <= k < |nodes| - 1 && nodes[k] == elem
      modifies this`nodes, nodes
      ensures Valid()
      ensures nodes == old(nodes)[..k] + old(nodes)[k + 1..]
      ensures following == old(nodes)[k + 1]
    {
      elem.prev.next := elem.next;
      elem.next.prev := elem.prev;
      following := elem.next;
      nodes := nodes[..k] + nodes[k + 1..];
    }

    method PushFront(elem: ListElem)
      requires Valid() && elem !in nodes
      modifies this`nodes, nodes, elem
      ensures Valid() && Elements() == [elem] + old(Elements())
      ensures nodes == [head, elem] + old(nodes)[1..]
    {
      ghost var n := nodes;
      Insert(head.next, elem, 1);
      Grown(n, elem, 1);
    }

    method PushBack(elem: ListElem)
      requires Valid() && elem !in nodes
      modifies this`nodes, nodes, elem
      ensures Valid() && Elements() == old(Elements()) + [elem]
      ensures nodes == old(nodes)[..|old(nodes)| - 1] + [elem, tail]
    {
      ghost var n := nodes;
      Insert(tail, elem, |nodes| - 1);
      Grown(n, elem, |n| - 1);
    }

    method PopFront() returns (front: ListElem)
      requires Valid() && Elements() != []
      modifies this`nodes, nodes
      ensures Valid() && old(Elements()) == [front] + Elements()
    {
      front := head.next;
      var _ := Remove(front, 1);
    }

    /** Exchange the two links of every interior element. */
    method FlipInterior()
      requires Valid()
      modifies nodes
      ensures Flipped(nodes)
      ensures head.prev == null && head.next == nodes[1]
      ensures tail.next == null && tail.prev == nodes[|nodes| - 2]
    {
      ghost var n := nodes;
      ghost var k := 1;
      var e := head.next;
      while e != tail
        invariant 1 <= k < |n| && e == n[k]
        invariant forall x {:trigger n[x].prev} | 1 <= x < k :: n[x].prev == n[x + 1]
        invariant forall x {:trigger n[x].next} | 1 <= x < k :: n[x].next == n[x - 1]
        invariant forall x {:trigger n[x].prev} | k <= x < |n| :: n[x].prev == n[x - 1]
        invariant forall x {:trigger n[x].next} | k <= x < |n| - 1 :: n[x].next == n[x + 1]
        invariant head.prev == null && tail.next == null && head.next == n[1]
        decreases |n| - k
      {
        e.prev, e.next := e.next, e.prev;
        e := e.prev;
        k := k + 1;
      }
    }

    /** Reverse the list by exchanging the two links of every interior element
        and then those of the sentinels. */
    method Reverse()
      requires Valid()
      modifies this`nodes, nodes
      ensures Valid()
      ensures nodes == Mirror(old(nodes))
    {
      hide Mirror;
      ghost var n := nodes;
      MirrorAt(n);
      if head.next != tail {
        FlipInterior();
        head.next, tail.prev := tail.prev, head.next;
        head.next.prev, tail.prev.next := tail.prev.next, head.next.prev;
        LinkedMirror(n);
        nodes := Mirror(n);
      }
    }

    /** Move the interior elements from `first` up to but not including `last`
        to just before `before`, an element of the same list outside the moved
        stretch. */
    method Splice(before: ListElem, first: ListElem, last: ListElem,
                  ghost p: nat, ghost i: nat, ghost j: nat)
      requires Valid()
      requires 1 <= i <= j < |nodes| && nodes[i] == first && nodes[j] == last
      requires 1 <= p < |nodes| && (p < i || j <= p) && nodes[p] == before
      modifies this`nodes, nodes
      ensures Valid()
      ensures nodes == if p < i then Swapped(old(nodes), p, i, j) else Swapped(old(nodes), i, j, p)
    {
      hide Swapped, Linked;
      ghost var s, m, t, q := nodes, nodes[i..j], nodes[..i] + nodes[j..], if p < i then p else p - (j - i);
      ghost var a, b, c := if p < i then p else i, if p < i then i else j, if p < i then j else p;
      if first == last {
        SwapNothing(s, a, b, c);
        return;
      }
      var final := last.prev;
      PrevIs(s, j);
      CutOut(first, final, s, i, j);
      CutDistinct(s, i, j);
      CutAndPut(s, p, i, j, q, a, b, c);
      LinkIn(before, first, final, t, q, m);
      SwappedEnds(s, a, b, c);
      DistinctSwapped(s, a, b, c);
      nodes := Swapped(s, a, b, c);
    }

    /** The same between lists: the elements from `first` up to but not including
        `last` leave this list and come to stand just before `before` in `other`. */
    method SpliceTo(other: List, before: ListElem, first: ListElem, last: ListElem,
                    ghost p: nat, ghost i: nat, ghost j: nat)
      requires Valid() && other.Valid() && other != this
      requires forall x, y | 0 <= x < |nodes| && 0 <= y < |other.nodes| :: nodes[x] != other.nodes[y]
      requires 1 <= i <= j < |nodes| && nodes[i] == first && nodes[j] == last
      requires 1 <= p < |other.nodes| && other.nodes[p] == before
      modifies this`nodes, nodes, other`nodes, other.nodes
      ensures Valid() && nodes == old(nodes)[..i] + old(nodes)[j..]
      ensures other.Valid() && other.nodes == old(other.nodes)[..p] + old(nodes)[i..j] + old(other.nodes)[p..]
    {
      hide Linked;
      ghost var s, t := nodes, other.nodes;
      if first == last {
        assert s == s[..i] + s[j..];
        assert t == t[..p] + s[i..j] + t[p..];
        return;
      }
      var final := last.prev;
      PrevIs(s, j);
      CutOut(first, final, s, i, j);
      CutDistinct(s, i, j);
      LinkIn(before, first, final, t, p, s[i..j]);
      PutDistinct(t, p, s[i..j]);
      nodes := s[..i] + s[j..];
      other.nodes := t[..p] + s[i..j] + t[p..];
    }
  }

  /** An element put at either end of the interior of a chain. */
  lemma Grown<T>(n: seq<T>, x: T, k: nat)
    requires 1 <= k < |n|
    ensures var m := n[..k] + [x] + n[k..];
            && |m| == |n| + 1
            && (k == 1 ==> m == [n[0], x] + n[1..] && m[1..|m| - 1] == [x] + n[1..|n| - 1])
            && (k == |n| - 1 ==> m == n[..|n| - 1] + [x, n[|n| - 1]] && m[1..|m| - 1] == n[1..|n| - 1] + [x])
  {
    var m := n[..k] + [x] + n[k..];
    forall y | 0 <= y < |m| ensures m[y] == if y < k then n[y] else if y == k then x else n[y - 1] {}
  }

  // ----- reversing a chain -----

  /** A chain with its interior reversed and its ends kept. */
  ghost function Mirror<T>(n: seq<T>): seq<T>
    requires |n| >= 2
  {
    [n[0]] + Reversed(n[1..|n| - 1]) + [n[|n| - 1]]
  }

  lemma MirrorAt<T>(n: seq<T>)
    requires |n| >= 2
    ensures var t := Mirror(n);
            && |t| == |n| && t[0] == n[0] && t[|n| - 1] == n[|n| - 1]
            && (forall k | 1 <= k < |n| - 1 :: t[k] == n[|n| - 1 - k])
            && (|n| == 2 ==> t == n)
  {
    forall k | 1 <= k < |n| - 1 ensures Mirror(n)[k] == n[|n| - 1 - k] {
      ReversedAt(n[1..|n| - 1], k - 1);
    }
  }

  /** Every interior element of the chain points the wrong way round. */
  ghost predicate Flipped(n: seq<ListElem>)
    reads n
  {
    && (forall x {:trigger n[x].prev} | 1 <= x < |n| - 1 :: n[x].prev == n[x + 1])
    && (forall x {:trigger n[x].next} | 1 <= x < |n| - 1 :: n[x].next == n[x - 1])
  }

  ghost predicate Joined(s: seq<ListElem>, i: nat, j: nat)
    requires i < |s| && j < |s|
    reads s
  {
    s[i].next == s[j] && s[j].prev == s[i]
  }

  /** With the ends reattached, a flipped chain is the mirrored chain. */
  lemma LinkedMirror(n: seq<ListElem>)
    requires |n| >= 3 && Distinct(n)
    requires forall x {:trigger n[x].prev} | 1 <= x < |n| - 2 :: n[x].prev == n[x + 1]
    requires forall x {:trigger n[x].next} | 2 <= x < |n| - 1 :: n[x].next == n[x - 1]
    requires Joined(n, 0, |n| - 2) && Joined(n, 1, |n| - 1)
    ensures Linked(Mirror(n)) && Distinct(Mirror(n))
  {
    hide Mirror;
    MirrorAt(n);
    var t, last := Mirror(n), |n| - 1;
    forall k | 0 <= k < last ensures t[k].next == t[k + 1] && t[k + 1].prev == t[k] {
      if k == 0 {
        assert t[1] == n[last - 1];
      } else if k == last - 1 {
        assert t[k] == n[1];
      } else {
        assert t[k] == n[last - k] && t[k + 1] == n[last - k - 1];
      }
    }
  }

  // ----- exchanging two adjacent stretches of a chain -----

  /** `s` with the stretches from `a` to `b` and from `b` to `c` exchanged. */
  ghost function Swapped<T>(s: seq<T>, a: nat, b: nat, c: nat): seq<T>
    requires a <= b <= c <= |s|
  {
    s[..a] + s[b..c] + s[a..b] + s[c..]
  }

  lemma SwapNothing<T>(s: seq<T>, a: nat, b: nat, c: nat)
    requires a <= b <= c <= |s| && (a == b || b == c)
    ensures Swapped(s, a, b, c) == s
  {
  }

  lemma SwappedEnds<T>(s: seq<T>, a: nat, b: nat, c: nat)
    requires 0 < a <= b <= c < |s|
    ensures var t := Swapped(s, a, b, c);
            |t| == |s| && t[0] == s[0] && t[|t| - 1] == s[|s| - 1]
  {
  }

  lemma PrevIs(s: seq<ListElem>, j: nat)
    requires Linked(s) && 1 <= j < |s|
    ensures s[j].prev == s[j - 1]
  {
  }

  /** Two chains joined at their ends are one. */
  lemma LinkedJoin(a: seq<ListElem>, b: seq<ListElem>)
    requires Linked(a) && Linked(b) && a != [] && b != []
    requires a[|a| - 1].next == b[0] && b[0].prev == a[|a| - 1]
    ensures Linked(a + b)
  {
  }

  lemma LinkedPart(s: seq<ListElem>, i: nat, j: nat)
    requires Linked(s) && i <= j <= |s|
    ensures Linked(s[i..j])
  {
  }

  /** The first writes of a splice: the stretch from `first` to `final` leaves its
      chain. */
  method CutOut(first: ListElem, final: ListElem, ghost s: seq<ListElem>, ghost i: nat, ghost j: nat)
    requires Linked(s) && Distinct(s) && 1 <= i < j < |s| && s[i] == first && s[j - 1] == final
    modifies s[i - 1], s[j]
    ensures Linked(s[..i] + s[j..]) && Linked(s[i..j])
    ensures s[0].prev == old(s[0].prev) && s[|s| - 1].next == old(s[|s| - 1].next)
  {
    LinkedPart(s, 0, i);
    LinkedPart(s, i, j);
    LinkedPart(s, j, |s|);
    assert s[0..i] == s[..i] && s[j..|s|] == s[j..];
    first.prev.next := final.next;
    final.next.prev := first.prev;
    LinkedJoin(s[..i], s[j..]);
  }

  /** The last writes of a splice: a stretch comes into a chain just before `before`. */
  method LinkIn(before: ListElem, first: ListElem, final: ListElem,
                ghost t: seq<ListElem>, ghost q: nat, ghost m: seq<ListElem>)
    requires Linked(t) && Distinct(t) && 1 <= q < |t| && t[q] == before
    requires Linked(m) && Distinct(m) && m != [] && m[0] == first && m[|m| - 1] == final
    requires forall x, y | 0 <= x < |t| && 0 <= y < |m| :: t[x] != m[y]
    modifies first, final, before, t[q - 1]
    ensures Linked(t[..q] + m + t[q..])
    ensures t[0].prev == old(t[0].prev) && t[|t| - 1].next == old(t[|t| - 1].next)
  {
    LinkedPart(t, 0, q);
    LinkedPart(t, q, |t|);
    assert t[0..q] == t[..q] && t[q..|t|] == t[q..];
    first.prev := before.prev;
    final.next := before;
    before.prev.next := first;
    before.prev := final;
    LinkedJoin(t[..q], m);
    LinkedJoin(t[..q] + m, t[q..]);
  }

  lemma CutDistinct<T>(s: seq<T>, i: nat, j: nat)
    requires Distinct(s) && 1 <= i < j < |s|
    ensures var t, m := s[..i] + s[j..], s[i..j];
            && Distinct(t) && Distinct(m) && t[0] == s[0] && t[|t| - 1] == s[|s| - 1]
            && forall x, y | 0 <= x < |t| && 0 <= y < |m| :: t[x] != m[y]
  {
    var t := s[..i] + s[j..];
    forall x | 0 <= x < |t| ensures t[x] == s[if x < i then x else x + (j - i)] {}
  }

  lemma PutDistinct<T>(t: seq<T>, q: nat, m: seq<T>)
    requires Distinct(t) && Distinct(m) && 1 <= q < |t|
    requires forall x, y | 0 <= x < |t| && 0 <= y < |m| :: t[x] != m[y]
    ensures var n := t[..q] + m + t[q..];
            Distinct(n) && |n| == |t| + |m| && n[0] == t[0] && n[|n| - 1] == t[|t| - 1]
  {
    var n := t[..q] + m + t[q..];
    forall x | 0 <= x < |n|
      ensures n[x] == if x < q then t[x] else if x < q + |m| then m[x - q] else t[x - |m|]
    {}
  }

  /** Cutting a stretch out and putting it in again exchanges two stretches. */
  lemma CutAndPut<T>(s: seq<T>, p: nat, i: nat, j: nat, q: nat, a: nat, b: nat, c: nat)
    requires 1 <= i < j < |s| && 1 <= p < |s| && (p < i || j <= p)
    requires if p < i then q == p && a == p && b == i && c == j else q == p - (j - i) && a == i && b == j && c == p
    ensures var t := s[..i] + s[j..];
            q < |t| && t[q] == s[p] && t[..q] + s[i..j] + t[q..] == Swapped(s, a, b, c)
  {
    var t := s[..i] + s[j..];
    if p < i {
      assert t[..q] == s[..p] && t[q..] == s[p..i] + s[j..];
    } else {
      assert t[..q] == s[..i] + s[j..p] && t[q..] == s[p..];
    }
  }

  /** Where the element at position `k` of the exchanged chain came from. */
  ghost function Source(a: nat, b: nat, c: nat, k: nat): nat
    requires a <= b <= c
  {
    if k < a || c <= k then k
    else if k < a + (c - b) then k + (b - a)
    else k - (c - b)
  }

  lemma DistinctSwapped<T>(s: seq<T>, a: nat, b: nat, c: nat)
    requires a <= b <= c <= |s| && Distinct(s)
    ensures Distinct(Swapped(s, a, b, c))
  {
    var t := Swapped(s, a, b, c);
    forall k | 0 <= k < |t| ensures t[k] == s[Source(a, b, c, k)] {}
  }
}
