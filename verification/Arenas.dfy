/** The block allocator's state: arenas of one page cut into equal blocks, big
    blocks of whole pages, and one list of free blocks for each size.  Addresses
    count from the start of the page pool. */
module Arenas {
  import opened Helpers
  import opened Bitmaps
  import Arithmetic

  const HEADER: nat := 12
  const DESCS: nat := 7

  function BlockSize(d: nat): (n: nat)
    ensures n >= 16
  {
    if d == 0 then 16 else 2 * BlockSize(d - 1)
  }

  function Per(d: nat): nat {
    Arithmetic.DivNonneg(PGSIZE - HEADER, BlockSize(d));
    (PGSIZE - HEADER) / BlockSize(d)
  }

  datatype Arena = Small(desc: nat, freeCnt: nat) | Big(pages: nat)

  datatype Heap = Heap(used: seq<bool>, arenas: map<nat, Arena>, free: seq<seq<nat>>, live: map<nat, nat>)

  // ----- addresses -----

  /** `arena_to_block`. */
  function BlockAddr(p: nat, d: nat, i: nat): nat { p * PGSIZE + HEADER + i * BlockSize(d) }

  /** `block_to_arena`: the page an address is in. */
  function PageOf(b: nat): nat { b / PGSIZE }

  function IndexOf(b: nat, d: nat): int { (b % PGSIZE - HEADER) / BlockSize(d) }

  lemma BlockSizes()
    ensures BlockSize(0) == 16 && BlockSize(1) == 32 && BlockSize(2) == 64 && BlockSize(3) == 128
    ensures BlockSize(4) == 256 && BlockSize(5) == 512 && BlockSize(6) == 1024
  {
    assert BlockSize(3) == 128;
    assert BlockSize(6) == 2 * BlockSize(5);
  }

  /** A block lies in its page, past the header. */
  lemma BlockFits(d: nat, i: nat)
    requires i < Per(d)
    ensures i * BlockSize(d) + BlockSize(d) <= PGSIZE - HEADER
  {
    hide BlockSize;
    Arithmetic.MulMono(i + 1, Per(d), BlockSize(d));
    Arithmetic.DivMod(PGSIZE - HEADER, BlockSize(d));
    assert (i + 1) * BlockSize(d) == i * BlockSize(d) + BlockSize(d);
  }

  lemma Quotient(q: nat, r: nat, n: nat)
    requires r < n
    ensures (q * n + r) / n == q && (q * n + r) % n == r
  {
    var x := q * n + r;
    assert (q + 1) * n == q * n + n;
    Arithmetic.QuotientIs(x, n, q);
    Arithmetic.DivMod(x, n);
  }

  /** `block_to_arena` inverts `arena_to_block`, and the block's index is exact. */
  lemma BlockRoundTrip(p: nat, d: nat, i: nat)
    requires i < Per(d)
    ensures var b := BlockAddr(p, d, i);
            PageOf(b) == p && b % PGSIZE >= HEADER && (b % PGSIZE - HEADER) % BlockSize(d) == 0 && IndexOf(b, d) == i
  {
    hide BlockSize, Per;
    BlockFits(d, i);
    var ofs := HEADER + i * BlockSize(d);
    Quotient(p, ofs, PGSIZE);
    Quotient(i, 0, BlockSize(d));
    assert BlockAddr(p, d, i) == p * PGSIZE + ofs;
    assert i * BlockSize(d) + 0 == ofs - HEADER;
  }

  lemma BlocksRoundTrip()
    ensures forall p: nat, d: nat, i: nat | i < Per(d) :: PageOf(BlockAddr(p, d, i)) == p && IndexOf(BlockAddr(p, d, i), d) == i
  {
    forall p: nat, d: nat, i: nat | i < Per(d) ensures PageOf(BlockAddr(p, d, i)) == p && IndexOf(BlockAddr(p, d, i), d) == i {
      BlockRoundTrip(p, d, i);
    }
  }

  // ----- the invariant -----

  function Span(a: Arena): nat { if a.Big? then a.pages else 1 }

  ghost predicate ArenasOk(used: seq<bool>, arenas: map<nat, Arena>) {
    forall p: nat | p in arenas ::
      && Span(arenas[p]) >= 1 && p + Span(arenas[p]) <= |used| && AllAre(used, p, Span(arenas[p]), true)
      && (arenas[p].Small? ==> arenas[p].desc < DESCS)
  }

  /** No arena begins within another. */
  ghost predicate Apart(arenas: map<nat, Arena>) {
    forall p: nat, q: nat | p in arenas && q in arenas && p != q :: !(p <= q < p + Span(arenas[p]))
  }

  /** `b` is a block of a small arena of descriptor `d`. */
  ghost predicate IsBlock(arenas: map<nat, Arena>, b: nat, d: nat) {
    var p := PageOf(b);
    && p in arenas && arenas[p].Small? && arenas[p].desc == d
    && 0 <= IndexOf(b, d) < Per(d) && b == BlockAddr(p, d, IndexOf(b, d))
  }

  ghost predicate FreeOk(arenas: map<nat, Arena>, free: seq<seq<nat>>) {
    && |free| == DESCS
    && forall d | 0 <= d < DESCS :: Distinct(free[d]) && forall b | b in free[d] :: IsBlock(arenas, b, d)
  }

  /** The positions of an arena's free blocks. */
  ghost function FreeAt(list: seq<nat>, p: nat, d: nat): set<nat> {
    set i: nat | i < Per(d) && BlockAddr(p, d, i) in list
  }

  ghost predicate CountsOk(arenas: map<nat, Arena>, free: seq<seq<nat>>)
    requires |free| == DESCS
  {
    forall p | p in arenas && arenas[p].Small? && arenas[p].desc < DESCS ::
      arenas[p].freeCnt == |FreeAt(free[arenas[p].desc], p, arenas[p].desc)|
  }

  /** A live block is a block not free, or a big one, and large enough. */
  ghost predicate LiveBlock(arenas: map<nat, Arena>, free: seq<seq<nat>>, b: nat, size: nat)
    requires |free| == DESCS
  {
    && PageOf(b) in arenas
    && var a := arenas[PageOf(b)];
       if a.Small? then a.desc < DESCS && IsBlock(arenas, b, a.desc) && b !in free[a.desc] && size <= BlockSize(a.desc)
       else b == PageOf(b) * PGSIZE + HEADER && size + HEADER <= a.pages * PGSIZE
  }

  ghost predicate LiveOk(arenas: map<nat, Arena>, free: seq<seq<nat>>, live: map<nat, nat>)
    requires |free| == DESCS
  {
    forall b | b in live :: LiveBlock(arenas, free, b, live[b])
  }

  /** Every block is free or live. */
  ghost predicate Covered(arenas: map<nat, Arena>, free: seq<seq<nat>>, live: map<nat, nat>)
    requires |free| == DESCS
  {
    && (forall p: nat, i: nat | p in arenas && arenas[p].Small? && arenas[p].desc < DESCS && i < Per(arenas[p].desc) ::
          var b := BlockAddr(p, arenas[p].desc, i); b in free[arenas[p].desc] || b in live)
    && (forall p: nat | p in arenas && arenas[p].Big? :: p * PGSIZE + HEADER in live)
  }

  /** No arena is wholly free. */
  ghost predicate NoneIdle(arenas: map<nat, Arena>) {
    forall p | p in arenas && arenas[p].Small? :: arenas[p].freeCnt < Per(arenas[p].desc)
  }

  ghost predicate Core(h: Heap) {
    && |h.free| == DESCS
    && ArenasOk(h.used, h.arenas) && Apart(h.arenas) && FreeOk(h.arenas, h.free) && CountsOk(h.arenas, h.free)
    && LiveOk(h.arenas, h.free, h.live) && Covered(h.arenas, h.free, h.live)
  }

  ghost predicate Inv(h: Heap) { Core(h) && NoneIdle(h.arenas) }

  // ----- what the invariant says of live blocks -----

  lemma BlockWithin(p: nat, d: nat, i: nat)
    requires i < Per(d)
    ensures p * PGSIZE + HEADER <= BlockAddr(p, d, i) && BlockAddr(p, d, i) + BlockSize(d) <= (p + 1) * PGSIZE
  {
    hide BlockSize, Per;
    BlockFits(d, i);
    Arithmetic.MulMono(0, i, BlockSize(d));
  }

  lemma BlocksApart(p: nat, d: nat, i: nat, j: nat)
    ensures i < j ==> BlockAddr(p, d, i) + BlockSize(d) <= BlockAddr(p, d, j)
    ensures i <= j ==> BlockAddr(p, d, i) <= BlockAddr(p, d, j)
  {
    hide BlockSize;
    if i < j {
      Arithmetic.MulMono(i + 1, j, BlockSize(d));
      assert (i + 1) * BlockSize(d) == i * BlockSize(d) + BlockSize(d);
    }
  }

  /** `len` bytes from `b` on lie in one block, small or big. */
  ghost predicate InBlock(arenas: map<nat, Arena>, b: nat, len: nat) {
    && PageOf(b) in arenas
    && var a := arenas[PageOf(b)];
       if a.Small? then IsBlock(arenas, b, a.desc) && len <= BlockSize(a.desc)
       else b == PageOf(b) * PGSIZE + HEADER && len + HEADER <= a.pages * PGSIZE
  }

  lemma InBlockWithin(arenas: map<nat, Arena>, b: nat, len: nat)
    requires InBlock(arenas, b, len)
    ensures var p := PageOf(b);
            p in arenas && p * PGSIZE + HEADER <= b && b + len <= (p + Span(arenas[p])) * PGSIZE
  {
    hide BlockSize, Per, PageOf, IndexOf, BlockAddr;
    var p := PageOf(b);
    if arenas[p].Small? { BlockWithin(p, arenas[p].desc, IndexOf(b, arenas[p].desc)); }
  }

  /** Different blocks do not overlap. */
  lemma InBlockApart(arenas: map<nat, Arena>, b: nat, len: nat, c: nat, len': nat)
    requires Apart(arenas) && InBlock(arenas, b, len) && InBlock(arenas, c, len') && b < c
    ensures b + len <= c
  {
    hide BlockSize, Per, PageOf, IndexOf, BlockAddr;
    InBlockWithin(arenas, b, len);
    InBlockWithin(arenas, c, len');
    var p: nat, q: nat := PageOf(b), PageOf(c);
    if p == q {
      if arenas[p].Small? {
        var d := arenas[p].desc;
        BlocksApart(p, d, IndexOf(b, d), IndexOf(c, d));
        BlocksApart(p, d, IndexOf(c, d), IndexOf(b, d));
      }
    } else {
      PagesOrdered(p, q, b, c);
      assert !(p <= q < p + Span(arenas[p]));
      Arithmetic.MulMono(p + Span(arenas[p]), q, PGSIZE);
    }
  }

  lemma LiveInBlock(h: Heap, b: nat)
    requires Core(h) && b in h.live
    ensures InBlock(h.arenas, b, h.live[b])
  {
    hide BlockSize, Per, PageOf, IndexOf, BlockAddr, ArenasOk, Apart, FreeOk, CountsOk, Covered;
    assert LiveBlock(h.arenas, h.free, b, h.live[b]);
  }

  lemma FreeInBlock(h: Heap, c: nat, d: nat)
    requires Core(h) && d < DESCS && c in h.free[d]
    ensures InBlock(h.arenas, c, BlockSize(d))
  {
    hide BlockSize, Per, PageOf, IndexOf, BlockAddr, ArenasOk, Apart, CountsOk, LiveOk, Covered;
  }

  /** Where a live block's bytes are: past the header, within its arena. */
  lemma LiveWithin(h: Heap, b: nat)
    requires Core(h) && b in h.live
    ensures var p := PageOf(b);
            && p in h.arenas && p * PGSIZE + HEADER <= b
            && b + h.live[b] <= (p + Span(h.arenas[p])) * PGSIZE
  {
    hide Core, PageOf, InBlock;
    LiveInBlock(h, b);
    InBlockWithin(h.arenas, b, h.live[b]);
  }

  /** Live blocks do not overlap. */
  lemma LiveApart(h: Heap, b: nat, c: nat)
    requires Core(h) && b in h.live && c in h.live && b < c
    ensures b + h.live[b] <= c
  {
    hide PageOf, InBlock, ArenasOk, FreeOk, CountsOk, LiveOk, Covered, Apart;
    LiveInBlock(h, b);
    LiveInBlock(h, c);
    InBlockApart(h.arenas, b, h.live[b], c, h.live[c]);
  }

  /** The bytes of a live block avoid every free block, whose bytes hold the links of
      its list. */
  lemma LiveAvoidsFree(h: Heap, b: nat, c: nat, d: nat)
    requires Core(h) && b in h.live && d < DESCS && c in h.free[d]
    ensures b + h.live[b] <= c || c + BlockSize(d) <= b
  {
    hide PageOf, InBlock, BlockSize, ArenasOk, FreeOk, CountsOk, LiveOk, Covered, Apart;
    LiveInBlock(h, b);
    FreeInBlock(h, c, d);
    LiveNotFree(h, b, d);
    if b < c {
      InBlockApart(h.arenas, b, h.live[b], c, BlockSize(d));
    } else {
      InBlockApart(h.arenas, c, BlockSize(d), b, h.live[b]);
    }
  }

  /** And every arena's header. */
  lemma LiveAvoidsHeaders(h: Heap, b: nat, q: nat)
    requires Core(h) && b in h.live && q in h.arenas
    ensures b + h.live[b] <= q * PGSIZE || q * PGSIZE + HEADER <= b
  {
    hide PageOf, InBlock, ArenasOk, FreeOk, CountsOk, LiveOk, Covered;
    LiveWithin(h, b);
    var p: nat := PageOf(b);
    if p < q {
      assert !(p <= q < p + Span(h.arenas[p]));
      Arithmetic.MulMono(p + Span(h.arenas[p]), q, PGSIZE);
    } else {
      Arithmetic.MulMono(q, p, PGSIZE);
    }
  }

  lemma PagesOrdered(p: nat, q: nat, b: nat, c: nat)
    requires p == PageOf(b) && q == PageOf(c) && b <= c
    ensures p <= q && q * PGSIZE <= c
  {
  }

  // ----- taking a block -----

  /** The front block of a free list becomes live. */
  ghost function Take(h: Heap, d: nat, size: nat): Heap
    requires d < |h.free| && h.free[d] != []
    requires PageOf(h.free[d][0]) in h.arenas && h.arenas[PageOf(h.free[d][0])].Small?
    requires h.arenas[PageOf(h.free[d][0])].freeCnt > 0
  {
    var b := h.free[d][0];
    var a := h.arenas[PageOf(b)];
    h.(arenas := h.arenas[PageOf(b) := Small(a.desc, a.freeCnt - 1)], free := h.free[d := h.free[d][1..]],
       live := h.live[b := size])
  }

  lemma FreeAtPop(list: seq<nat>, p: nat, d: nat, k: nat)
    requires list != [] && Distinct(list) && k < Per(d) && list[0] == BlockAddr(p, d, k)
    ensures k in FreeAt(list, p, d) && FreeAt(list[1..], p, d) == FreeAt(list, p, d) - {k}
    ensures forall q: nat | q != p :: FreeAt(list[1..], q, d) == FreeAt(list, q, d)
  {
    hide BlockAddr, Per;
    BlocksRoundTrip();
    assert list == [list[0]] + list[1..];
    assert list[0] !in list[1..];
  }

  lemma FreeAtPush(list: seq<nat>, p: nat, d: nat, k: nat)
    requires k < Per(d) && BlockAddr(p, d, k) !in list
    ensures var n := [BlockAddr(p, d, k)] + list;
            && k !in FreeAt(list, p, d) && FreeAt(n, p, d) == FreeAt(list, p, d) + {k}
            && forall q: nat | q != p :: FreeAt(n, q, d) == FreeAt(list, q, d)
  {
    hide BlockAddr, Per;
    BlocksRoundTrip();
  }

  /** What is known of a block on a free list. */
  lemma FrontOfList(h: Heap, d: nat)
    requires Core(h) && d < DESCS && h.free[d] != []
    ensures var b := h.free[d][0];
            && IsBlock(h.arenas, b, d) && PageOf(b) in h.arenas
            && h.arenas[PageOf(b)].Small? && h.arenas[PageOf(b)].desc == d
            && h.arenas[PageOf(b)].freeCnt > 0 && b !in h.live && b !in h.free[d][1..]
  {
    hide BlockAddr, Per, BlockSize, IndexOf, PageOf, ArenasOk, Apart, Covered;
    var b := h.free[d][0];
    assert b in h.free[d] && IsBlock(h.arenas, b, d);
    FreeAtPop(h.free[d], PageOf(b), d, IndexOf(b, d));
    forall c | c in h.live ensures c !in h.free[d] { LiveNotFree(h, c, d); }
  }

  lemma LiveNotFree(h: Heap, b: nat, d: nat)
    requires Core(h) && b in h.live && d < DESCS
    ensures b !in h.free[d]
  {
    hide BlockAddr, Per, BlockSize, IndexOf, PageOf, ArenasOk, Apart, Covered;
    assert LiveBlock(h.arenas, h.free, b, h.live[b]);
  }

  /** Arenas that differ in their counts only. */
  ghost predicate SameShape(a: map<nat, Arena>, n: map<nat, Arena>) {
    && a.Keys == n.Keys
    && forall p | p in a :: a[p].Small? == n[p].Small? && (if a[p].Small? then a[p].desc == n[p].desc else a[p] == n[p])
  }

  lemma ShapeKeeps(used: seq<bool>, a: map<nat, Arena>, n: map<nat, Arena>)
    requires SameShape(a, n)
    ensures ArenasOk(used, a) ==> ArenasOk(used, n)
    ensures Apart(a) ==> Apart(n)
    ensures forall b: nat, d: nat | IsBlock(a, b, d) :: IsBlock(n, b, d)
  {
    hide BlockAddr, Per, IndexOf, PageOf, BlockSize;
  }

  lemma TakeKeeps(h: Heap, d: nat, size: nat)
    requires Core(h) && d < DESCS && h.free[d] != [] && size <= BlockSize(d)
    ensures var b := h.free[d][0];
            && PageOf(b) in h.arenas && h.arenas[PageOf(b)].Small? && h.arenas[PageOf(b)].freeCnt > 0
            && b !in h.live && Core(Take(h, d, size))
  {
    hide BlockAddr, Per, BlockSize, IndexOf, PageOf, ArenasOk, Apart, FreeOk, CountsOk, LiveOk, Covered, IsBlock;
    FrontOfList(h, d);
    var n := Take(h, d, size);
    ShapeKeeps(h.used, h.arenas, n.arenas);
    TakeFree(h, d, size);
    TakeCounts(h, d, size);
    TakeLive(h, d, size);
    TakeCovered(h, d, size);
  }

  lemma TakeFree(h: Heap, d: nat, size: nat)
    requires Core(h) && d < DESCS && h.free[d] != []
    ensures var b := h.free[d][0];
            && PageOf(b) in h.arenas && h.arenas[PageOf(b)].Small? && h.arenas[PageOf(b)].freeCnt > 0
            && FreeOk(Take(h, d, size).arenas, Take(h, d, size).free)
  {
    hide BlockAddr, Per, BlockSize, IndexOf, PageOf, ArenasOk, Apart, CountsOk, LiveOk, Covered, IsBlock;
    FrontOfList(h, d);
    ShapeKeeps(h.used, h.arenas, Take(h, d, size).arenas);
  }

  lemma TakeCounts(h: Heap, d: nat, size: nat)
    requires Core(h) && d < DESCS && h.free[d] != []
    ensures var b := h.free[d][0];
            && PageOf(b) in h.arenas && h.arenas[PageOf(b)].Small? && h.arenas[PageOf(b)].freeCnt > 0
            && CountsOk(Take(h, d, size).arenas, Take(h, d, size).free)
  {
    hide BlockAddr, Per, BlockSize, IndexOf, PageOf, ArenasOk, Apart, LiveOk, Covered, FreeAt;
    FrontOfList(h, d);
    var b := h.free[d][0];
    FreeAtPop(h.free[d], PageOf(b), d, IndexOf(b, d));
  }

  lemma TakeLive(h: Heap, d: nat, size: nat)
    requires Core(h) && d < DESCS && h.free[d] != [] && size <= BlockSize(d)
    ensures var b := h.free[d][0];
            && PageOf(b) in h.arenas && h.arenas[PageOf(b)].Small? && h.arenas[PageOf(b)].freeCnt > 0
            && LiveOk(Take(h, d, size).arenas, Take(h, d, size).free, Take(h, d, size).live)
  {
    hide BlockAddr, Per, BlockSize, IndexOf, PageOf, ArenasOk, Apart, CountsOk, Covered, IsBlock;
    FrontOfList(h, d);
    var n := Take(h, d, size);
    ShapeKeeps(h.used, h.arenas, n.arenas);
    forall c | c in n.live ensures LiveBlock(n.arenas, n.free, c, n.live[c]) {
      if c != h.free[d][0] { assert LiveBlock(h.arenas, h.free, c, h.live[c]); }
    }
  }

  lemma TakeCovered(h: Heap, d: nat, size: nat)
    requires Core(h) && d < DESCS && h.free[d] != []
    ensures var b := h.free[d][0];
            && PageOf(b) in h.arenas && h.arenas[PageOf(b)].Small? && h.arenas[PageOf(b)].freeCnt > 0
            && Covered(Take(h, d, size).arenas, Take(h, d, size).free, Take(h, d, size).live)
  {
    hide BlockAddr, Per, BlockSize, IndexOf, PageOf, ArenasOk, Apart, CountsOk, FreeOk, IsBlock, LiveOk;
    FrontOfList(h, d);
    assert h.free[d] == [h.free[d][0]] + h.free[d][1..];
  }

  // ----- arenas coming and going -----

  lemma SpanUsed(used: seq<bool>, arenas: map<nat, Arena>, p: nat, k: nat)
    requires ArenasOk(used, arenas) && p in arenas
    ensures Span(arenas[p]) >= 1
    ensures p <= k < p + Span(arenas[p]) ==> k < |used| && used[k]
  {
    assert AllAre(used, p, Span(arenas[p]), true);
  }

  /** An arena on pages that were free. */
  lemma ArenaComes(used: seq<bool>, arenas: map<nat, Arena>, p: nat, a: Arena)
    requires ArenasOk(used, arenas) && Apart(arenas) && Span(a) >= 1 && p + Span(a) <= |used|
    requires AllAre(used, p, Span(a), false) && (a.Small? ==> a.desc < DESCS)
    ensures p !in arenas
    ensures ArenasOk(WithRange(used, p, Span(a), true), arenas[p := a]) && Apart(arenas[p := a])
  {
    forall q: nat | q in arenas ensures !(q <= p < q + Span(arenas[q])) && !(p <= q < p + Span(a)) {
      SpanUsed(used, arenas, q, p);
      SpanUsed(used, arenas, q, q);
    }
  }

  /** An arena's pages are its own, and free once it has gone. */
  lemma ArenaGoes(used: seq<bool>, arenas: map<nat, Arena>, p: nat)
    requires ArenasOk(used, arenas) && Apart(arenas) && p in arenas
    ensures p + Span(arenas[p]) <= |used| && AllAre(used, p, Span(arenas[p]), true)
    ensures ArenasOk(WithRange(used, p, Span(arenas[p]), false), arenas - {p}) && Apart(arenas - {p})
  {
    var n := Span(arenas[p]);
    var u := WithRange(used, p, n, false);
    forall q: nat | q in arenas && q != p ensures AllAre(u, q, Span(arenas[q]), true) {
      assert !(p <= q < p + n) && !(q <= p < q + Span(arenas[q]));
      assert AllAre(used, q, Span(arenas[q]), true);
    }
  }

  ghost function Blocks(p: nat, d: nat): (s: seq<nat>)
    ensures |s| == Per(d)
  {
    seq(Per(d), i requires 0 <= i < Per(d) => BlockAddr(p, d, i))
  }

  /** A page cut into blocks, all free. */
  ghost function NewArena(h: Heap, d: nat, p: nat): Heap
    requires d < |h.free| && p + 1 <= |h.used|
  {
    h.(used := WithRange(h.used, p, 1, true), arenas := h.arenas[p := Small(d, Per(d))],
       free := h.free[d := h.free[d] + Blocks(p, d)])
  }

  function Upto(n: nat): (s: set<nat>)
    ensures |s| == n && forall i: nat :: i in s <==> i < n
  {
    if n == 0 then {} else Upto(n - 1) + {n - 1}
  }

  lemma FreeAtNew(list: seq<nat>, p: nat, d: nat)
    requires forall b | b in list :: PageOf(b) != p
    ensures |FreeAt(list + Blocks(p, d), p, d)| == Per(d)
    ensures forall q: nat | q != p :: FreeAt(list + Blocks(p, d), q, d) == FreeAt(list, q, d)
    ensures forall b | b in Blocks(p, d) :: PageOf(b) == p && 0 <= IndexOf(b, d) < Per(d) && b == BlockAddr(p, d, IndexOf(b, d))
    ensures forall i: nat | i < Per(d) :: BlockAddr(p, d, i) in Blocks(p, d)
  {
    hide BlockAddr, Per, PageOf, IndexOf;
    BlocksRoundTrip();
    var n := list + Blocks(p, d);
    forall i: nat | i < Per(d) ensures BlockAddr(p, d, i) in Blocks(p, d) && BlockAddr(p, d, i) in n {
      assert Blocks(p, d)[i] == BlockAddr(p, d, i) && n[|list| + i] == BlockAddr(p, d, i);
    }
    assert FreeAt(n, p, d) == Upto(Per(d));
  }

  lemma DistinctNew(list: seq<nat>, p: nat, d: nat)
    requires Distinct(list) && forall b | b in list :: PageOf(b) != p
    ensures Distinct(list + Blocks(p, d))
  {
    hide BlockAddr, Per, PageOf, IndexOf;
    BlocksRoundTrip();
  }

  lemma NewArenaFree(h: Heap, d: nat, p: nat)
    requires Core(h) && d < DESCS && p < |h.used| && p !in h.arenas
    ensures FreeOk(NewArena(h, d, p).arenas, NewArena(h, d, p).free)
  {
    hide BlockAddr, Per, BlockSize, IndexOf, PageOf, ArenasOk, Apart, CountsOk, LiveOk, Covered, Blocks;
    assert forall b | b in h.free[d] :: IsBlock(h.arenas, b, d);
    FreeAtNew(h.free[d], p, d);
    DistinctNew(h.free[d], p, d);
  }

  lemma NewArenaCounts(h: Heap, d: nat, p: nat)
    requires Core(h) && d < DESCS && p < |h.used| && p !in h.arenas
    ensures CountsOk(NewArena(h, d, p).arenas, NewArena(h, d, p).free)
  {
    hide BlockAddr, Per, BlockSize, IndexOf, PageOf, ArenasOk, Apart, LiveOk, Covered, Blocks, FreeAt;
    assert forall b | b in h.free[d] :: IsBlock(h.arenas, b, d);
    FreeAtNew(h.free[d], p, d);
  }

  lemma NewArenaLive(h: Heap, d: nat, p: nat)
    requires Core(h) && d < DESCS && p < |h.used| && p !in h.arenas
    ensures LiveOk(NewArena(h, d, p).arenas, NewArena(h, d, p).free, h.live)
    ensures Covered(NewArena(h, d, p).arenas, NewArena(h, d, p).free, h.live)
  {
    hide BlockAddr, Per, BlockSize, IndexOf, PageOf, ArenasOk, Apart, CountsOk, Blocks;
    assert forall b | b in h.free[d] :: IsBlock(h.arenas, b, d);
    FreeAtNew(h.free[d], p, d);
    var n := NewArena(h, d, p);
    forall c | c in h.live ensures LiveBlock(n.arenas, n.free, c, h.live[c]) {
      assert LiveBlock(h.arenas, h.free, c, h.live[c]);
    }
  }

  lemma NewArenaKeeps(h: Heap, d: nat, p: nat)
    requires Core(h) && d < DESCS && p + 1 <= |h.used| && AllAre(h.used, p, 1, false)
    ensures p !in h.arenas && Core(NewArena(h, d, p))
  {
    hide BlockAddr, Per, BlockSize, IndexOf, PageOf, ArenasOk, Apart, FreeOk, CountsOk, LiveOk, Covered, AllAre, WithRange;
    ArenaComes(h.used, h.arenas, p, Small(d, Per(d)));
    NewArenaFree(h, d, p);
    NewArenaCounts(h, d, p);
    NewArenaLive(h, d, p);
  }

  // ----- giving a block back -----

  ghost predicate LiveSmall(h: Heap, b: nat) {
    b in h.live && PageOf(b) in h.arenas && h.arenas[PageOf(b)].Small? && h.arenas[PageOf(b)].desc < |h.free|
  }

  /** A live block goes to the front of its free list. */
  ghost function Give(h: Heap, b: nat): Heap
    requires LiveSmall(h, b)
  {
    var a := h.arenas[PageOf(b)];
    h.(arenas := h.arenas[PageOf(b) := Small(a.desc, a.freeCnt + 1)],
       free := h.free[a.desc := [b] + h.free[a.desc]], live := h.live - {b})
  }

  lemma LiveIsBlock(h: Heap, b: nat)
    requires Core(h) && LiveSmall(h, b)
    ensures var d := h.arenas[PageOf(b)].desc; d < DESCS && IsBlock(h.arenas, b, d) && b !in h.free[d]
  {
    assert LiveBlock(h.arenas, h.free, b, h.live[b]);
  }

  lemma GiveFree(h: Heap, b: nat)
    requires Core(h) && LiveSmall(h, b)
    ensures FreeOk(Give(h, b).arenas, Give(h, b).free)
  {
    hide BlockAddr, Per, BlockSize, IndexOf, PageOf, ArenasOk, Apart, CountsOk, LiveOk, Covered, IsBlock;
    LiveIsBlock(h, b);
    ShapeKeeps(h.used, h.arenas, Give(h, b).arenas);
  }

  lemma GiveCounts(h: Heap, b: nat)
    requires Core(h) && LiveSmall(h, b)
    ensures CountsOk(Give(h, b).arenas, Give(h, b).free)
  {
    hide BlockAddr, Per, BlockSize, IndexOf, PageOf, ArenasOk, Apart, FreeOk, LiveOk, Covered, FreeAt;
    LiveIsBlock(h, b);
    var d := h.arenas[PageOf(b)].desc;
    FreeAtPush(h.free[d], PageOf(b), d, IndexOf(b, d));
  }

  lemma GiveLive(h: Heap, b: nat)
    requires Core(h) && LiveSmall(h, b)
    ensures LiveOk(Give(h, b).arenas, Give(h, b).free, Give(h, b).live)
  {
    hide BlockAddr, Per, BlockSize, IndexOf, PageOf, ArenasOk, Apart, CountsOk, FreeOk, IsBlock, Covered, SameShape;
    LiveIsBlock(h, b);
    var n := Give(h, b);
    GiveShape(h, b);
    ShapeKeeps(h.used, h.arenas, n.arenas);
    forall c | c in n.live ensures LiveBlock(n.arenas, n.free, c, n.live[c]) {
      assert c in h.live && c != b && LiveBlock(h.arenas, h.free, c, h.live[c]);
    }
  }

  lemma GiveShape(h: Heap, b: nat)
    requires LiveSmall(h, b)
    ensures SameShape(h.arenas, Give(h, b).arenas)
  {
    hide PageOf;
  }

  lemma GiveCovered(h: Heap, b: nat)
    requires Core(h) && LiveSmall(h, b)
    ensures Covered(Give(h, b).arenas, Give(h, b).free, Give(h, b).live)
  {
    hide BlockAddr, Per, BlockSize, IndexOf, PageOf, ArenasOk, Apart, CountsOk, FreeOk, LiveOk;
    LiveIsBlock(h, b);
    var n := Give(h, b);
    BlocksRoundTrip();
    BigIsNotSmall(h, b);
    forall p: nat, i: nat | p in n.arenas && n.arenas[p].Small? && n.arenas[p].desc < DESCS && i < Per(n.arenas[p].desc)
      ensures var c := BlockAddr(p, n.arenas[p].desc, i); c in n.free[n.arenas[p].desc] || c in n.live
    {
      assert p in h.arenas && h.arenas[p].desc == n.arenas[p].desc;
    }
  }

  /** A small block is not where a big block of another arena would be. */
  lemma BigIsNotSmall(h: Heap, b: nat)
    requires LiveSmall(h, b)
    ensures forall p: nat | p in h.arenas && h.arenas[p].Big? :: p * PGSIZE + HEADER != b
  {
    forall p: nat | p in h.arenas && h.arenas[p].Big? ensures p * PGSIZE + HEADER != b {
      Quotient(p, HEADER, PGSIZE);
    }
  }

  lemma GiveKeeps(h: Heap, b: nat)
    requires Core(h) && LiveSmall(h, b)
    ensures Core(Give(h, b))
  {
    hide BlockAddr, Per, BlockSize, IndexOf, PageOf, ArenasOk, Apart, FreeOk, CountsOk, LiveOk, Covered, IsBlock;
    LiveIsBlock(h, b);
    ShapeKeeps(h.used, h.arenas, Give(h, b).arenas);
    GiveFree(h, b);
    GiveCounts(h, b);
    GiveLive(h, b);
    GiveCovered(h, b);
  }

  /** A count of all blocks means that every block is free: no position is left. */
  lemma AllFree(list: seq<nat>, p: nat, d: nat)
    requires |FreeAt(list, p, d)| >= Per(d)
    ensures |FreeAt(list, p, d)| == Per(d) && forall i: nat | i < Per(d) :: BlockAddr(p, d, i) in list
  {
    hide BlockAddr, Per;
    var s := FreeAt(list, p, d);
    FewerIn(s, Upto(Per(d)));
    forall i: nat | i < Per(d) ensures BlockAddr(p, d, i) in list { assert i in s; }
  }

  // ----- an idle arena goes -----

  /** `list` is the free list without the arena's blocks. */
  ghost predicate Swept(list: seq<nat>, was: seq<nat>, p: nat) {
    Distinct(list) && forall b: nat :: b in list <==> b in was && PageOf(b) != p
  }

  ghost function Drop(h: Heap, p: nat, list: seq<nat>): Heap
    requires p in h.arenas && h.arenas[p].Small? && h.arenas[p].desc < |h.free| && p + 1 <= |h.used|
  {
    h.(used := WithRange(h.used, p, 1, false), arenas := h.arenas - {p}, free := h.free[h.arenas[p].desc := list])
  }

  ghost predicate Idle(h: Heap, p: nat) {
    && p in h.arenas && h.arenas[p].Small? && h.arenas[p].desc < DESCS == |h.free|
    && forall i: nat | i < Per(h.arenas[p].desc) :: BlockAddr(p, h.arenas[p].desc, i) in h.free[h.arenas[p].desc]
  }

  lemma FreeAtSwept(list: seq<nat>, was: seq<nat>, p: nat, d: nat)
    requires Swept(list, was, p)
    ensures forall q: nat | q != p :: FreeAt(list, q, d) == FreeAt(was, q, d)
  {
    hide BlockAddr, Per, PageOf;
    BlocksRoundTrip();
  }

  lemma DropFree(h: Heap, p: nat, list: seq<nat>)
    requires Core(h) && Idle(h, p) && Swept(list, h.free[h.arenas[p].desc], p) && p + 1 <= |h.used|
    ensures FreeOk(Drop(h, p, list).arenas, Drop(h, p, list).free)
  {
    hide BlockAddr, Per, BlockSize, IndexOf, PageOf, ArenasOk, Apart, CountsOk, LiveOk, Covered, WithRange;
    var n := Drop(h, p, list);
    forall d, b | 0 <= d < DESCS && b in n.free[d] ensures IsBlock(n.arenas, b, d) {
      assert b in h.free[d] && IsBlock(h.arenas, b, d);
    }
  }

  lemma DropCounts(h: Heap, p: nat, list: seq<nat>)
    requires Core(h) && Idle(h, p) && Swept(list, h.free[h.arenas[p].desc], p) && p + 1 <= |h.used|
    ensures CountsOk(Drop(h, p, list).arenas, Drop(h, p, list).free)
  {
    hide BlockAddr, Per, BlockSize, IndexOf, PageOf, ArenasOk, Apart, FreeOk, LiveOk, Covered, FreeAt, Swept, WithRange;
    FreeAtSwept(list, h.free[h.arenas[p].desc], p, h.arenas[p].desc);
  }

  lemma DropLive(h: Heap, p: nat, list: seq<nat>)
    requires Core(h) && Idle(h, p) && Swept(list, h.free[h.arenas[p].desc], p) && p + 1 <= |h.used|
    ensures LiveOk(Drop(h, p, list).arenas, Drop(h, p, list).free, h.live)
    ensures Covered(Drop(h, p, list).arenas, Drop(h, p, list).free, h.live)
  {
    hide BlockAddr, Per, BlockSize, IndexOf, PageOf, ArenasOk, Apart, CountsOk, FreeOk, WithRange;
    BlocksRoundTrip();
    var n := Drop(h, p, list);
    forall c | c in h.live ensures LiveBlock(n.arenas, n.free, c, h.live[c]) {
      assert LiveBlock(h.arenas, h.free, c, h.live[c]);
    }
  }

  lemma DropKeeps(h: Heap, p: nat, list: seq<nat>)
    requires Core(h) && Idle(h, p) && Swept(list, h.free[h.arenas[p].desc], p)
    ensures p + 1 <= |h.used| && AllAre(h.used, p, 1, true) && Core(Drop(h, p, list))
  {
    hide BlockAddr, Per, BlockSize, IndexOf, PageOf, ArenasOk, Apart, FreeOk, CountsOk, LiveOk, Covered, Swept, WithRange;
    ArenaGoes(h.used, h.arenas, p);
    DropFree(h, p, list);
    DropCounts(h, p, list);
    DropLive(h, p, list);
  }

  /** The sweep after its first `i` blocks. */
  ghost predicate SweptTo(list: seq<nat>, was: seq<nat>, p: nat, d: nat, i: nat) {
    Distinct(list) && forall b: nat :: b in list <==> b in was && !(PageOf(b) == p && IndexOf(b, d) < i)
  }

  lemma SweepStep(list: seq<nat>, was: seq<nat>, p: nat, d: nat, i: nat)
    requires SweptTo(list, was, p, d, i) && i < Per(d)
    requires forall b | b in was && PageOf(b) == p :: 0 <= IndexOf(b, d) && b == BlockAddr(p, d, IndexOf(b, d))
    ensures SweptTo(Without(list, BlockAddr(p, d, i)), was, p, d, i + 1)
  {
    hide BlockAddr, Per, PageOf, IndexOf, Without;
    BlocksRoundTrip();
    WithoutIs(list, BlockAddr(p, d, i));
  }

  lemma SweepDone(list: seq<nat>, was: seq<nat>, p: nat, d: nat)
    requires SweptTo(list, was, p, d, Per(d))
    requires forall b | b in was && PageOf(b) == p :: IndexOf(b, d) < Per(d)
    ensures Swept(list, was, p)
  {
    hide BlockAddr, Per, PageOf, IndexOf;
  }

  // ----- big blocks -----

  ghost function BigTake(h: Heap, p: nat, n: nat, size: nat): Heap
    requires p + n <= |h.used|
  {
    h.(used := WithRange(h.used, p, n, true), arenas := h.arenas[p := Big(n)],
       live := h.live[p * PGSIZE + HEADER := size])
  }

  lemma FreeUnaffected(h: Heap, n: map<nat, Arena>, p: nat)
    requires Core(h)
    requires forall q: nat | q != p :: (q in n <==> q in h.arenas) && (q in n ==> n[q] == h.arenas[q])
    requires (p in h.arenas ==> h.arenas[p].Big?) && (p in n ==> n[p].Big?)
    ensures FreeOk(n, h.free) && CountsOk(n, h.free)
  {
    hide BlockAddr, Per, BlockSize, IndexOf, PageOf, ArenasOk, Apart, LiveOk, Covered;
    forall d, b | 0 <= d < DESCS && b in h.free[d] ensures IsBlock(n, b, d) {
      assert IsBlock(h.arenas, b, d);
    }
  }

  lemma BigTakeLive(h: Heap, p: nat, n: nat, size: nat)
    requires Core(h) && p !in h.arenas && n >= 1 && size + HEADER <= n * PGSIZE && p + n <= |h.used|
    ensures var b := p * PGSIZE + HEADER;
            && b !in h.live && PageOf(b) == p
            && LiveOk(BigTake(h, p, n, size).arenas, h.free, BigTake(h, p, n, size).live)
            && Covered(BigTake(h, p, n, size).arenas, h.free, BigTake(h, p, n, size).live)
  {
    hide BlockAddr, Per, BlockSize, IndexOf, PageOf, ArenasOk, Apart, FreeOk, CountsOk, WithRange, Covered;
    var b := p * PGSIZE + HEADER;
    HeaderEnd(p);
    forall c | c in h.live ensures PageOf(c) in h.arenas { LiveInArena(h, c); }
    var t := BigTake(h, p, n, size);
    forall c | c in t.live ensures LiveBlock(t.arenas, h.free, c, t.live[c]) {
      if c != b { assert LiveBlock(h.arenas, h.free, c, h.live[c]); }
    }
    BigTakeCovered(h, p, n, size);
  }

  lemma BigTakeCovered(h: Heap, p: nat, n: nat, size: nat)
    requires Core(h) && p !in h.arenas && n >= 1 && p + n <= |h.used|
    ensures Covered(BigTake(h, p, n, size).arenas, h.free, BigTake(h, p, n, size).live)
  {
    hide BlockAddr, Per, BlockSize, IndexOf, PageOf, ArenasOk, Apart, FreeOk, CountsOk, LiveOk, WithRange;
  }

  lemma LiveInArena(h: Heap, b: nat)
    requires Core(h) && b in h.live
    ensures PageOf(b) in h.arenas
  {
    assert LiveBlock(h.arenas, h.free, b, h.live[b]);
  }

  lemma HeaderEnd(p: nat)
    ensures PageOf(p * PGSIZE + HEADER) == p
  {
  }

  lemma BigTakeKeeps(h: Heap, p: nat, n: nat, size: nat)
    requires Core(h) && n >= 1 && size + HEADER <= n * PGSIZE && p + n <= |h.used| && AllAre(h.used, p, n, false)
    ensures Core(BigTake(h, p, n, size)) && p * PGSIZE + HEADER !in h.live && p !in h.arenas
  {
    hide BlockAddr, Per, BlockSize, IndexOf, PageOf, ArenasOk, Apart, FreeOk, CountsOk, LiveOk, Covered, AllAre, WithRange;
    ArenaComes(h.used, h.arenas, p, Big(n));
    FreeUnaffected(h, BigTake(h, p, n, size).arenas, p);
    BigTakeLive(h, p, n, size);
  }

  ghost predicate LiveBig(h: Heap, b: nat) {
    && b in h.live && PageOf(b) in h.arenas && h.arenas[PageOf(b)].Big?
    && PageOf(b) + h.arenas[PageOf(b)].pages <= |h.used|
  }

  ghost function BigGive(h: Heap, b: nat): Heap
    requires LiveBig(h, b)
  {
    var p := PageOf(b);
    h.(used := WithRange(h.used, p, h.arenas[p].pages, false), arenas := h.arenas - {p}, live := h.live - {b})
  }

  lemma BigGiveLive(h: Heap, b: nat)
    requires Core(h) && LiveBig(h, b)
    ensures LiveOk(BigGive(h, b).arenas, h.free, BigGive(h, b).live)
  {
    hide BlockAddr, Per, BlockSize, IndexOf, PageOf, ArenasOk, Apart, FreeOk, CountsOk, Covered, WithRange;
    assert LiveBlock(h.arenas, h.free, b, h.live[b]);
    var t := BigGive(h, b);
    forall c | c in t.live ensures LiveBlock(t.arenas, h.free, c, t.live[c]) {
      assert LiveBlock(h.arenas, h.free, c, h.live[c]);
    }
  }

  lemma BigGiveCovered(h: Heap, b: nat)
    requires Core(h) && LiveBig(h, b)
    ensures Covered(BigGive(h, b).arenas, h.free, BigGive(h, b).live)
  {
    hide BlockAddr, Per, BlockSize, IndexOf, PageOf, ArenasOk, Apart, FreeOk, CountsOk, WithRange, LiveOk;
    BlocksRoundTrip();
    forall p: nat | p in h.arenas && h.arenas[p].Big? ensures PageOf(p * PGSIZE + HEADER) == p { HeaderEnd(p); }
  }

  lemma BigGiveKeeps(h: Heap, b: nat)
    requires Core(h) && b in h.live && PageOf(b) in h.arenas && h.arenas[PageOf(b)].Big?
    ensures LiveBig(h, b) && AllAre(h.used, PageOf(b), h.arenas[PageOf(b)].pages, true) && Core(BigGive(h, b))
  {
    hide BlockAddr, Per, BlockSize, IndexOf, PageOf, ArenasOk, Apart, FreeOk, CountsOk, LiveOk, Covered, AllAre, WithRange;
    ArenaGoes(h.used, h.arenas, PageOf(b));
    FreeUnaffected(h, BigGive(h, b).arenas, PageOf(b));
    BigGiveLive(h, b);
    BigGiveCovered(h, b);
  }
}
