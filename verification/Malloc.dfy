/** `malloc` and `free` over arenas, the free lists and the page pool. */
module Allocators {
  import opened Helpers
  import opened Bitmaps
  import opened Arenas

  datatype Desc = Desc(blockSize: nat, blocksPerArena: nat)

  datatype Ptr = Null | Block(addr: nat)

  ghost predicate DescTable(descs: seq<Desc>) {
    |descs| == DESCS && forall d | 0 <= d < DESCS :: descs[d] == Desc(BlockSize(d), Per(d))
  }

  /** `malloc_init`: a descriptor for each power of two from 16 up to half a page. */
  method MakeDescs() returns (descs: seq<Desc>)
    ensures DescTable(descs)
  {
    hide Per;
    BlockSizes();
    descs := [];
    var blockSize := 16;
    while blockSize < PGSIZE / 2
      invariant |descs| <= DESCS && blockSize == BlockSize(|descs|)
      invariant forall d | 0 <= d < |descs| :: descs[d] == Desc(BlockSize(d), Per(d))
      decreases PGSIZE - blockSize
    {
      descs := AddDesc(descs, blockSize);
      blockSize := 2 * blockSize;
    }
  }

  method AddDesc(descs: seq<Desc>, blockSize: nat) returns (r: seq<Desc>)
    requires blockSize == BlockSize(|descs|)
    ensures r == descs + [Desc(blockSize, Per(|descs|))]
  {
    hide BlockSize;
    Arithmetic.DivNonneg(PGSIZE - HEADER, blockSize);
    r := descs + [Desc(blockSize, (PGSIZE - HEADER) / blockSize)];
  }

  /** The smallest descriptor whose blocks are large enough, or none. */
  ghost function Fitting(size: nat, d: nat): nat
    requires d <= DESCS
    decreases DESCS - d
  {
    if d == DESCS || BlockSize(d) >= size then d else Fitting(size, d + 1)
  }

  /** The pages for a big block and its header. */
  function PagesFor(size: nat): (n: nat)
    ensures n >= 1 && size + HEADER <= n * PGSIZE < size + HEADER + PGSIZE
  {
    (size + HEADER + PGSIZE - 1) / PGSIZE
  }

  /** What a client does: ask for memory, or free one of the blocks it holds. */
  datatype Op = Malloc(size: nat) | Free(i: nat)

  class Allocator {
    const pool: Bitmap
    const descs: seq<Desc>
    var arenas: map<nat, Arena>
    var free: seq<seq<nat>>
    ghost var live: map<nat, nat>

    constructor (pages: nat)
      ensures Valid() && live == map[] && pool.bitCnt == pages && fresh(pool.words)
    {
      pool := new Bitmap(pages);
      var table := MakeDescs();
      descs := table;
      arenas, live := map[], map[];
      free := seq(DESCS, _ => []);
    }

    ghost function H(): Heap
      requires pool.Valid()
      reads this, pool.words
    {
      Heap(pool.Bits(), arenas, free, live)
    }

    ghost predicate Valid()
      reads this, pool.words
    {
      pool.Valid() && DescTable(descs) && Inv(H())
    }

    /** A block of at least `size` bytes that overlaps no other, or null exactly
        when no run of pages that would do is free. */
    method Malloc(size: nat) returns (r: Ptr)
      requires Valid()
      modifies this, pool.words
      ensures Valid()
      ensures r.Null? <==> size == 0 || NoMemory(old(H()), size)
      ensures r.Null? ==> H() == old(H())
      ensures r.Block? ==> r.addr !in old(live) && live == old(live)[r.addr := size]
    {
      hide Core, BlockSize, Per, PageOf, BitsOf, FirstFit, NoneIdle;
      if size == 0 {
        return Null;
      }
      var d := FindDesc(size);
      if d == |descs| {
        r := MallocBig(size);
        return;
      }
      ghost var h := H();
      CoreParts(h);
      AllButOne(arenas);
      if free[d] == [] {
        FirstFitIs(pool.Bits(), 0, 1, false);
        var page := pool.ScanAndFlip(0, 1, false);
        if page.NotFound? {
          return Null;
        }
        NewArenaKeeps(h, d, page.index);
        FillArena(d, page.index);
        NewIsFront(h, d, page.index);
        assert H() == NewArena(h, d, page.index);
      }
      r := TakeBlock(d, size);
    }

    /** A new arena's header, and its blocks added to the free list one by one. */
    method FillArena(d: nat, p: nat)
      requires DescTable(descs) && |free| == DESCS && d < DESCS
      modifies this`arenas, this`free
      ensures arenas == old(arenas)[p := Small(d, Per(d))]
      ensures free == old(free)[d := old(free)[d] + Blocks(p, d)]
    {
      hide BlockSize, Per, BlockAddr;
      arenas := arenas[p := Small(d, descs[d].blocksPerArena)];
      var i := 0;
      assert free[d] + Blocks(p, d)[..0] == free[d];
      while i < descs[d].blocksPerArena
        invariant i <= Per(d) && |free| == DESCS
        invariant free == old(free)[d := old(free)[d] + Blocks(p, d)[..i]]
        modifies this`free
      {
        assert (old(free)[d] + Blocks(p, d)[..i]) + [BlockAddr(p, d, i)] == old(free)[d] + Blocks(p, d)[..i + 1];
        free := free[d := free[d] + [BlockAddr(p, d, i)]];
        i := i + 1;
      }
      assert Blocks(p, d)[..Per(d)] == Blocks(p, d);
    }

    method TakeBlock(d: nat, size: nat) returns (r: Ptr)
      requires pool.Valid() && DescTable(descs) && Core(H()) && d < DESCS == |free| && free[d] != [] && size <= BlockSize(d)
      requires NoneIdleBut(arenas, PageOf(free[d][0]))
      modifies this`arenas, this`free, this`live
      ensures Valid() && r.Block? && r.addr !in old(live) && live == old(live)[r.addr := size]
    {
      hide Core, BlockSize, Per, PageOf, BitsOf;
      ghost var h := H();
      TakeKeeps(h, d, size);
      TakeNoneIdle(h, d, size);
      var b := free[d][0];
      free := free[d := free[d][1..]];
      var p := PageOf(b);
      arenas := arenas[p := Small(arenas[p].desc, arenas[p].freeCnt - 1)];
      live := live[b := size];
      assert H() == Take(h, d, size);
      r := Block(b);
    }

    method MallocBig(size: nat) returns (r: Ptr)
      requires Valid()
      modifies this, pool.words
      ensures Valid()
      ensures r.Null? <==> FirstFit(old(pool.Bits()), 0, PagesFor(size), false).NotFound?
      ensures r.Null? ==> H() == old(H())
      ensures r.Block? ==> r.addr !in old(live) && live == old(live)[r.addr := size]
    {
      hide Core, BlockSize, Per, PageOf, BitsOf, FirstFit, PagesFor;
      ghost var h := H();
      var pageCnt := PagesFor(size);
      FirstFitIs(pool.Bits(), 0, pageCnt, false);
      var page := pool.ScanAndFlip(0, pageCnt, false);
      if page.NotFound? {
        return Null;
      }
      var p := page.index;
      BigTakeKeeps(h, p, pageCnt, size);
      arenas := arenas[p := Big(pageCnt)];
      live := live[p * PGSIZE + HEADER := size];
      assert H() == BigTake(h, p, pageCnt, size);
      r := Block(p * PGSIZE + HEADER);
    }

    /** A block given back.  The last block of an arena takes the arena along. */
    method Free(p: Ptr)
      requires Valid() && (p.Block? ==> p.addr in live)
      modifies this, pool.words
      ensures Valid()
      ensures live == if p.Block? then old(live) - {p.addr} else old(live)
    {
      hide Core, BlockSize, Per, PageOf, BitsOf, NoneIdle;
      if p.Null? {
        return;
      }
      LiveInArena(H(), p.addr);
      if arenas[PageOf(p.addr)].Small? {
        FreeSmall(p.addr);
      } else {
        FreeBig(p.addr);
      }
    }

    method FreeBig(b: nat)
      requires Valid() && b in live && PageOf(b) in arenas && arenas[PageOf(b)].Big?
      modifies this, pool.words
      ensures Valid() && live == old(live) - {b}
    {
      hide Core, BlockSize, Per, PageOf, BitsOf;
      ghost var h := H();
      var p := PageOf(b);
      BigGiveKeeps(h, b);
      pool.SetMultiple(p, arenas[p].pages, false);
      arenas, live := arenas - {p}, live - {b};
      assert H() == BigGive(h, b);
    }

    method FreeSmall(b: nat)
      requires Valid() && b in live && PageOf(b) in arenas && arenas[PageOf(b)].Small?
      modifies this, pool.words
      ensures Valid() && live == old(live) - {b}
    {
      hide Core, BlockSize, Per, PageOf, BitsOf;
      ghost var h := H();
      var p := PageOf(b);
      var d := arenas[p].desc;
      CoreParts(h);
      GiveKeeps(h, b);
      free := free[d := [b] + free[d]];
      arenas := arenas[p := Small(d, arenas[p].freeCnt + 1)];
      live := live - {b};
      assert H() == Give(h, b);
      if arenas[p].freeCnt >= descs[d].blocksPerArena {
        NowIdle(H(), p);
        assert arenas[p].freeCnt == descs[d].blocksPerArena;
        DropArena(p);
      }
    }

    /** An arena with every block free: they leave the list, and the page goes. */
    method DropArena(p: nat)
      requires pool.Valid() && DescTable(descs) && Core(H()) && Idle(H(), p) && NoneIdleBut(arenas, p)
      modifies this`arenas, this`free, pool.words
      ensures Valid()
    {
      hide Core, BlockSize, Per, PageOf, BitsOf, BlockAddr, SweptTo, Swept, Without;
      ghost var h := H();
      var d := arenas[p].desc;
      var list := free[d];
      SweepStarts(h, p);
      var i := 0;
      while i < descs[d].blocksPerArena
        invariant i <= Per(d) && SweptTo(list, h.free[d], p, d, i)
        modifies {}
      {
        SweepStep(list, h.free[d], p, d, i);
        list := Without(list, BlockAddr(p, d, i));
        i := i + 1;
      }
      SweepDone(list, h.free[d], p, d);
      DropKeeps(h, p, list);
      free := free[d := list];
      pool.SetMultiple(p, 1, false);
      arenas := arenas - {p};
      assert H() == Drop(h, p, list);
    }

    /** Every run of a client that frees what it got, in any order: the blocks it
        holds are the live ones. */
    method Run(ops: seq<Op>) returns (held: seq<nat>)
      requires Valid() && live == map[]
      modifies this, pool.words
      ensures Valid() && Distinct(held) && forall b :: b in held <==> b in live
    {
      hide Inv, BitsOf, NoMemory;
      held := [];
      var k := 0;
      while k < |ops|
        invariant k <= |ops| && Valid() && Distinct(held) && forall b :: b in held <==> b in live
      {
        match ops[k] {
          case Malloc(size) => {
            var r := Malloc(size);
            if r.Block? { held := held + [r.addr]; }
          }
          case Free(i) => {
            if i < |held| {
              Free(Block(held[i]));
              HeldWithout(held, i);
              held := held[..i] + held[i + 1..];
            }
          }
        }
        k := k + 1;
      }
    }

    method FindDesc(size: nat) returns (d: nat)
      requires DescTable(descs)
      ensures d == Fitting(size, 0) && d <= DESCS && (d < DESCS ==> size <= BlockSize(d))
    {
      hide BlockSize, Per;
      d := 0;
      while d < |descs| && descs[d].blockSize < size
        invariant d <= DESCS && Fitting(size, 0) == Fitting(size, d)
      {
        d := d + 1;
      }
    }
  }

  ghost predicate NoMemory(h: Heap, size: nat)
    requires |h.free| == DESCS
  {
    var d := Fitting(size, 0);
    if d < DESCS then h.free[d] == [] && FirstFit(h.used, 0, 1, false).NotFound?
    else FirstFit(h.used, 0, PagesFor(size), false).NotFound?
  }

  lemma HeldWithout(held: seq<nat>, i: nat)
    requires Distinct(held) && i < |held|
    ensures var n := held[..i] + held[i + 1..];
            Distinct(n) && forall b :: b in n <==> b in held && b != held[i]
  {
    assert held == held[..i] + [held[i]] + held[i + 1..];
  }

  ghost predicate NoneIdleBut(arenas: map<nat, Arena>, p: nat) {
    forall q: nat | q in arenas && arenas[q].Small? && q != p :: arenas[q].freeCnt < Per(arenas[q].desc)
  }

  lemma AllButOne(arenas: map<nat, Arena>)
    requires NoneIdle(arenas)
    ensures forall p :: NoneIdleBut(arenas, p)
  {
  }

  lemma NewIsFront(h: Heap, d: nat, p: nat)
    requires Inv(h) && d < DESCS && h.free[d] == [] && p + 1 <= |h.used| && p !in h.arenas
    ensures var n := NewArena(h, d, p);
            n.free[d] != [] && PageOf(n.free[d][0]) == p && NoneIdleBut(n.arenas, p)
  {
    hide Core, PageOf, BlockAddr, BlockSize, Per;
    CoreParts(h);
    SomeBlocks(d);
    BlocksRoundTrip();
    assert Blocks(p, d)[0] == BlockAddr(p, d, 0);
  }

  lemma SomeBlocks(d: nat)
    requires d < DESCS
    ensures Per(d) > 0
  {
    BlockSizes();
  }

  lemma TakeNoneIdle(h: Heap, d: nat, size: nat)
    requires Core(h) && d < DESCS && h.free[d] != [] && NoneIdleBut(h.arenas, PageOf(h.free[d][0]))
    requires var b := h.free[d][0];
             PageOf(b) in h.arenas && h.arenas[PageOf(b)].Small? && h.arenas[PageOf(b)].freeCnt > 0
    ensures NoneIdle(Take(h, d, size).arenas)
  {
    hide BlockAddr, BlockSize, Per, PageOf, IndexOf, FreeOk, LiveOk, Covered, Apart, FreeAt;
    FrontOfList(h, d);
    CountBound(h.free[d], PageOf(h.free[d][0]), d);
  }

  lemma CountBound(list: seq<nat>, p: nat, d: nat)
    ensures |FreeAt(list, p, d)| <= Per(d)
  {
    hide BlockAddr, Per;
    FewerIn(FreeAt(list, p, d), Upto(Per(d)));
  }

  lemma CoreParts(h: Heap)
    requires Core(h)
    ensures |h.free| == DESCS && forall p | p in h.arenas && h.arenas[p].Small? :: h.arenas[p].desc < DESCS
  {
    hide FreeOk, LiveOk, Covered, Apart, CountsOk;
  }

  /** A count that has reached the number of blocks is exact, and all are free. */
  lemma NowIdle(h: Heap, p: nat)
    requires Core(h) && p in h.arenas && h.arenas[p].Small? && h.arenas[p].freeCnt >= Per(h.arenas[p].desc)
    ensures Idle(h, p) && h.arenas[p].freeCnt == Per(h.arenas[p].desc)
  {
    hide BlockAddr, BlockSize, Per, PageOf, FreeOk, LiveOk, Covered, Apart, FreeAt;
    AllFree(h.free[h.arenas[p].desc], p, h.arenas[p].desc);
  }

  lemma SweepStarts(h: Heap, p: nat)
    requires Core(h) && Idle(h, p)
    ensures var d := h.arenas[p].desc;
            && SweptTo(h.free[d], h.free[d], p, d, 0)
            && forall b | b in h.free[d] && PageOf(b) == p ::
                 0 <= IndexOf(b, d) < Per(d) && b == BlockAddr(p, d, IndexOf(b, d))
  {
    hide BlockAddr, BlockSize, Per, PageOf, IndexOf, LiveOk, Covered, Apart, CountsOk, ArenasOk;
    var d := h.arenas[p].desc;
    assert forall b | b in h.free[d] :: IsBlock(h.arenas, b, d);
  }
}
