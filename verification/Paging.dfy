/** Demand paging of anonymous pages: frames handed out first in first out,
    their contents moved to 8-sector swap slots and back, behind the page
    tables of the processes.  The page tables appear as one flat map from pages
    to frames. */
module Paging {
  import opened Helpers
  import opened Storage

  const PER_SLOT: nat := 8
  const STACK_MAX: nat := 8388608
  const MAX_ADDR: nat := 0x1_0000_0000

  /** A page of a process. */
  datatype Page = Page(pid: nat, no: nat)

  datatype Mapping = Mapping(kpage: nat, writable: bool)

  datatype FaultCase = CaseSwap | CaseFilesys | CaseZero

  /** A supplemental entry of an anonymous page.  `slot` is the swap slot it was
      last in, and means nothing while the page is resident. */
  datatype Sup = Sup(slot: nat, faultCase: FaultCase)

  datatype Frame = Frame(page: Page, kpage: nat)

  datatype State = State(
    ram: seq<seq<Byte>>, used: seq<bool>, frames: seq<Frame>,
    slots: seq<bool>, sectors: Sectors,
    pagedir: map<Page, Mapping>, sup: map<Page, Sup>)

  // ----- the invariant -----

  ghost predicate Shaped(s: State) {
    && |s.ram| == |s.used| && (forall k | 0 <= k < |s.ram| :: |s.ram[k]| == PGSIZE)
    && Formed(s.sectors) && PER_SLOT * |s.slots| <= |s.sectors|
  }

  ghost predicate Different(frames: seq<Frame>) {
    forall i, j | 0 <= i < j < |frames| :: frames[i].kpage != frames[j].kpage
  }

  ghost predicate TableMapped(frames: seq<Frame>, pagedir: map<Page, Mapping>) {
    forall i | 0 <= i < |frames| :: frames[i].page in pagedir && pagedir[frames[i].page].kpage == frames[i].kpage
  }

  ghost predicate MappedInTable(frames: seq<Frame>, pagedir: map<Page, Mapping>) {
    forall p | p in pagedir :: Frame(p, pagedir[p].kpage) in frames
  }

  /** The frames in use are those in the table, once each. */
  ghost predicate Framed(s: State) {
    && Different(s.frames)
    && (forall i | 0 <= i < |s.frames| :: s.frames[i].kpage < |s.used| && s.used[s.frames[i].kpage])
    && (forall k | 0 <= k < |s.used| && s.used[k] :: exists i | 0 <= i < |s.frames| :: s.frames[i].kpage == k)
  }

  /** The pages that are mapped are those in the table, each to its frame. */
  ghost predicate Mapped(s: State) {
    && TableMapped(s.frames, s.pagedir) && MappedInTable(s.frames, s.pagedir)
    && (forall p | p in s.pagedir :: p in s.sup)
    && (forall p | p in s.sup :: p.no < PHYS_BASE / PGSIZE)
  }

  ghost predicate Away(s: State, p: Page) { p in s.sup && p !in s.pagedir }

  /** The pages that are not mapped are in swap, each in a slot of its own, and
      no other slot is in use. */
  ghost predicate Swapped(s: State) {
    && (forall p | Away(s, p) :: s.sup[p].faultCase == CaseSwap && s.sup[p].slot < |s.slots| && s.slots[s.sup[p].slot])
    && (forall p, q | Away(s, p) && Away(s, q) && p != q :: s.sup[p].slot != s.sup[q].slot)
    && (forall k | 0 <= k < |s.slots| && s.slots[k] :: exists p | Away(s, p) :: s.sup[p].slot == k)
  }

  ghost predicate Inv(s: State) { Shaped(s) && Framed(s) && Mapped(s) && Swapped(s) }

  // ----- the flat memory that processes see -----

  ghost function SlotBytes(s: State, k: nat): (b: seq<Byte>)
    requires Shaped(s) && k < |s.slots|
    ensures |b| == PGSIZE
  {
    FileBytes(s.sectors, PER_SLOT * k, PGSIZE)
  }

  ghost function BytesOf(s: State, p: Page): (b: seq<Byte>)
    requires Inv(s) && p in s.sup
    ensures |b| == PGSIZE
  {
    if p in s.pagedir then MappedFrame(s, p); s.ram[s.pagedir[p].kpage]
    else assert Away(s, p); SlotBytes(s, s.sup[p].slot)
  }

  lemma MappedFrame(s: State, p: Page)
    requires Framed(s) && Mapped(s) && p in s.pagedir
    ensures s.pagedir[p].kpage < |s.used| && s.used[s.pagedir[p].kpage]
  {
  }

  /** Two pages that are mapped have different frames. */
  lemma OneFrameEach(s: State, p: Page, q: Page)
    requires Framed(s) && Mapped(s) && p in s.pagedir && q in s.pagedir && p != q
    ensures s.pagedir[p].kpage != s.pagedir[q].kpage
  {
    assert Frame(p, s.pagedir[p].kpage) in s.frames && Frame(q, s.pagedir[q].kpage) in s.frames;
  }

  ghost function View(s: State): map<Page, seq<Byte>>
    requires Inv(s)
  {
    map p | p in s.sup :: BytesOf(s, p)
  }

  // ----- eviction -----

  function Poison(): (b: seq<Byte>)
    ensures |b| == PGSIZE
  {
    seq(PGSIZE, _ => 0xcc)
  }

  /** The front frame written to free slot `k`, its page unmapped, its frame
      freed and overwritten. */
  ghost function SwapOut(s: State, k: nat): State
    requires Shaped(s) && s.frames != [] && k < |s.slots|
    requires s.frames[0].kpage < |s.used|
  {
    var f := s.frames[0];
    s.(ram := s.ram[f.kpage := Poison()], used := s.used[f.kpage := false], frames := s.frames[1..],
       slots := s.slots[k := true], sectors := Poke(s.sectors, PER_SLOT * k, 0, s.ram[f.kpage]),
       pagedir := s.pagedir - {f.page}, sup := s.sup[f.page := Sup(k, CaseSwap)])
  }

  lemma SwapOutShaped(s: State, k: nat)
    requires Shaped(s) && s.frames != [] && k < |s.slots| && s.frames[0].kpage < |s.used|
    ensures Shaped(SwapOut(s, k))
    ensures SlotBytes(SwapOut(s, k), k) == s.ram[s.frames[0].kpage]
    ensures forall j | 0 <= j < |s.slots| && j != k :: SlotBytes(SwapOut(s, k), j) == SlotBytes(s, j)
  {
    hide Poke;
    var n := SwapOut(s, k);
    var data := s.ram[s.frames[0].kpage];
    PokedFile(s.sectors, PER_SLOT * k, PGSIZE, 0, data);
    var f := FileBytes(s.sectors, PER_SLOT * k, PGSIZE);
    assert f[..0] + data + f[PGSIZE..] == data;
    forall j | 0 <= j < |s.slots| && j != k ensures SlotBytes(n, j) == SlotBytes(s, j) {
      OtherSlot(s.sectors, n.sectors, k, j, data);
    }
  }

  lemma OtherSlot(d: Sectors, n: Sectors, k: nat, j: nat, data: seq<Byte>)
    requires Formed(d) && n == Poke(d, PER_SLOT * k, 0, data) && |data| == PGSIZE && j != k
    requires PER_SLOT * k + PER_SLOT <= |d| && PER_SLOT * j + PER_SLOT <= |d|
    ensures FileBytes(n, PER_SLOT * j, PGSIZE) == FileBytes(d, PER_SLOT * j, PGSIZE)
  {
    hide Poke;
    forall t | 0 <= t < PGSIZE
      ensures FileBytes(n, PER_SLOT * j, PGSIZE)[t] == FileBytes(d, PER_SLOT * j, PGSIZE)[t]
    {
      PokedElsewhere(d, PER_SLOT * k, PGSIZE, 0, data, PER_SLOT * j + t / SECTOR);
    }
  }

  lemma SwapOutFramed(s: State, k: nat)
    requires Shaped(s) && Framed(s) && s.frames != [] && k < |s.slots|
    ensures s.frames[0].kpage < |s.used| && Framed(SwapOut(s, k))
  {
    var n := SwapOut(s, k);
    forall j | 0 <= j < |n.used| && n.used[j] ensures exists i | 0 <= i < |n.frames| :: n.frames[i].kpage == j {
      var i :| 0 <= i < |s.frames| && s.frames[i].kpage == j;
      assert n.frames[i - 1].kpage == j;
    }
  }

  lemma FrontUnmapped(frames: seq<Frame>, pagedir: map<Page, Mapping>)
    requires frames != [] && Different(frames) && TableMapped(frames, pagedir) && MappedInTable(frames, pagedir)
    ensures TableMapped(frames[1..], pagedir - {frames[0].page})
    ensures MappedInTable(frames[1..], pagedir - {frames[0].page})
  {
    var d := pagedir - {frames[0].page};
    forall p | p in d ensures Frame(p, d[p].kpage) in frames[1..] {
      var i :| 0 <= i < |frames| && frames[i] == Frame(p, pagedir[p].kpage);
      assert frames[1..][i - 1] == frames[i];
    }
  }

  lemma SwapOutMapped(s: State, k: nat)
    requires Shaped(s) && Framed(s) && Mapped(s) && s.frames != [] && k < |s.slots|
    ensures Mapped(SwapOut(s, k))
  {
    hide TableMapped, MappedInTable, Different, Poke;
    FrontUnmapped(s.frames, s.pagedir);
    FrontParts(s);
  }

  lemma SwapOutAway(s: State, k: nat)
    requires Shaped(s) && s.frames != [] && k < |s.slots|
    requires var f := s.frames[0]; f.kpage < |s.used| && f.page in s.pagedir && f.page in s.sup
    ensures forall p :: Away(SwapOut(s, k), p) <==> Away(s, p) || p == s.frames[0].page
    ensures forall p | Away(s, p) :: p in s.sup && p != s.frames[0].page
  {
    hide Poke, Shaped;
  }

  lemma SwapOutSwapped(s: State, k: nat)
    requires Shaped(s) && Swapped(s) && s.frames != [] && k < |s.slots| && !s.slots[k]
    requires var f := s.frames[0]; f.kpage < |s.used| && f.page in s.pagedir && f.page in s.sup
    ensures Swapped(SwapOut(s, k))
  {
    hide Poke, Shaped, Away;
    var n := SwapOut(s, k);
    var v := s.frames[0].page;
    SwapOutAway(s, k);
    forall j | 0 <= j < |n.slots| && n.slots[j] ensures exists p | Away(n, p) :: n.sup[p].slot == j {
      if j == k {
        assert Away(n, v) && n.sup[v].slot == j;
      } else {
        var p :| Away(s, p) && s.sup[p].slot == j;
        assert Away(n, p) && n.sup[p].slot == j;
      }
    }
  }

  /** Eviction keeps the invariant and is invisible. */
  lemma SwapOutKeeps(s: State, k: nat)
    requires Inv(s) && s.frames != [] && k < |s.slots| && !s.slots[k]
    ensures s.frames[0].kpage < |s.used|
    ensures Inv(SwapOut(s, k)) && View(SwapOut(s, k)) == View(s)
  {
    hide Poke, Framed, Mapped, Swapped;
    SwapOutFramed(s, k);
    SwapOutShaped(s, k);
    SwapOutMapped(s, k);
    FrontParts(s);
    SwapOutSwapped(s, k);
    var n := SwapOut(s, k);
    forall p | p in s.sup ensures BytesOf(n, p) == BytesOf(s, p) { SwapOutBytes(s, k, p); }
  }

  lemma FrontParts(s: State)
    requires Framed(s) && Mapped(s) && s.frames != []
    ensures var f := s.frames[0]; f.page in s.pagedir && f.page in s.sup && s.pagedir[f.page].kpage == f.kpage < |s.used|
  {
  }

  lemma SwapOutBytes(s: State, k: nat, p: Page)
    requires Inv(s) && s.frames != [] && k < |s.slots| && !s.slots[k] && p in s.sup
    requires s.frames[0].kpage < |s.used| && Inv(SwapOut(s, k))
    ensures BytesOf(SwapOut(s, k), p) == BytesOf(s, p)
  {
    hide Poke, SlotBytes, Framed, Mapped;
    SwapOutShaped(s, k);
    FrontParts(s);
    if p in s.pagedir && p != s.frames[0].page {
      MappedFrame(s, p);
      OneFrameEach(s, p, s.frames[0].page);
    } else if p !in s.pagedir {
      assert Away(s, p);
    }
  }

  // ----- a frame given to a page -----

  ghost predicate FreeFrame(s: State, k: nat) { k < |s.used| && !s.used[k] }

  /** Frame `k`, holding `bytes`, becomes page `p`. */
  ghost function Attach(s: State, p: Page, k: nat, w: bool, bytes: seq<Byte>, e: Sup): State
    requires Shaped(s) && FreeFrame(s, k)
  {
    s.(ram := s.ram[k := bytes], used := s.used[k := true], frames := s.frames + [Frame(p, k)],
       pagedir := s.pagedir[p := Mapping(k, w)], sup := s.sup[p := e])
  }

  /** A page that is away comes back from its slot, which is free again. */
  ghost function BringIn(s: State, p: Page, k: nat): State
    requires Shaped(s) && FreeFrame(s, k) && p in s.sup && s.sup[p].slot < |s.slots|
  {
    Attach(s, p, k, true, SlotBytes(s, s.sup[p].slot), s.sup[p].(faultCase := CaseZero))
      .(slots := s.slots[s.sup[p].slot := false])
  }

  lemma AttachFramed(s: State, p: Page, k: nat, w: bool, bytes: seq<Byte>, e: Sup)
    requires Shaped(s) && Framed(s) && FreeFrame(s, k)
    ensures Framed(Attach(s, p, k, w, bytes, e))
  {
    var n := Attach(s, p, k, w, bytes, e);
    forall j | 0 <= j < |n.used| && n.used[j] ensures exists i | 0 <= i < |n.frames| :: n.frames[i].kpage == j {
      if j == k {
        assert n.frames[|s.frames|].kpage == j;
      } else {
        var i :| 0 <= i < |s.frames| && s.frames[i].kpage == j;
        assert n.frames[i].kpage == j;
      }
    }
  }

  lemma LastMapped(frames: seq<Frame>, pagedir: map<Page, Mapping>, p: Page, m: Mapping)
    requires TableMapped(frames, pagedir) && MappedInTable(frames, pagedir) && p !in pagedir
    ensures TableMapped(frames + [Frame(p, m.kpage)], pagedir[p := m])
    ensures MappedInTable(frames + [Frame(p, m.kpage)], pagedir[p := m])
  {
  }

  lemma AttachMapped(s: State, p: Page, k: nat, w: bool, bytes: seq<Byte>, e: Sup)
    requires Shaped(s) && Mapped(s) && FreeFrame(s, k) && p !in s.pagedir && p.no < PHYS_BASE / PGSIZE
    ensures Mapped(Attach(s, p, k, w, bytes, e))
  {
    hide TableMapped, MappedInTable;
    LastMapped(s.frames, s.pagedir, p, Mapping(k, w));
  }

  lemma AttachSwapped(s: State, p: Page, k: nat, w: bool, bytes: seq<Byte>, e: Sup)
    requires Shaped(s) && Swapped(s) && FreeFrame(s, k) && p !in s.sup && p !in s.pagedir
    ensures Swapped(Attach(s, p, k, w, bytes, e))
  {
    hide Shaped;
    var n := Attach(s, p, k, w, bytes, e);
    assert forall q :: Away(n, q) <==> Away(s, q);
    forall j | 0 <= j < |n.slots| && n.slots[j] ensures exists q | Away(n, q) :: n.sup[q].slot == j {
      var q :| Away(s, q) && s.sup[q].slot == j;
      assert Away(n, q) && n.sup[q].slot == j;
    }
  }

  lemma BringInSwapped(s: State, p: Page, k: nat)
    requires Shaped(s) && Swapped(s) && FreeFrame(s, k) && Away(s, p)
    ensures s.sup[p].slot < |s.slots| && Swapped(BringIn(s, p, k))
  {
    hide Shaped, SlotBytes;
    var n := BringIn(s, p, k);
    assert forall q :: Away(n, q) <==> Away(s, q) && q != p;
    forall j | 0 <= j < |n.slots| && n.slots[j] ensures exists q | Away(n, q) :: n.sup[q].slot == j {
      var q :| Away(s, q) && s.sup[q].slot == j;
      assert Away(n, q) && n.sup[q].slot == j;
    }
  }

  lemma AttachBytes(s: State, p: Page, k: nat, w: bool, bytes: seq<Byte>, e: Sup, q: Page)
    requires Inv(s) && FreeFrame(s, k) && |bytes| == PGSIZE && q in s.sup && q != p
    requires Inv(Attach(s, p, k, w, bytes, e))
    ensures BytesOf(Attach(s, p, k, w, bytes, e), q) == BytesOf(s, q)
  {
    hide Framed, Mapped, Swapped;
    if q in s.pagedir {
      MappedFrame(s, q);
    } else {
      assert Away(s, q);
    }
  }

  /** A new page holds what its frame holds; no other page changes. */
  lemma AttachKeeps(s: State, p: Page, k: nat, w: bool, bytes: seq<Byte>, e: Sup)
    requires Inv(s) && FreeFrame(s, k) && |bytes| == PGSIZE && p !in s.sup && p.no < PHYS_BASE / PGSIZE
    ensures Inv(Attach(s, p, k, w, bytes, e)) && View(Attach(s, p, k, w, bytes, e)) == View(s)[p := bytes]
  {
    hide Framed, Mapped, Swapped, BytesOf;
    KnownPages(s);
    AttachFramed(s, p, k, w, bytes, e);
    AttachMapped(s, p, k, w, bytes, e);
    AttachSwapped(s, p, k, w, bytes, e);
    var n := Attach(s, p, k, w, bytes, e);
    forall q | q in s.sup ensures BytesOf(n, q) == BytesOf(s, q) { AttachBytes(s, p, k, w, bytes, e, q); }
    ResidentBytes(n, p);
  }

  lemma KnownPages(s: State)
    requires Mapped(s)
    ensures forall p | p in s.pagedir :: p in s.sup
  {
  }

  lemma ResidentBytes(s: State, p: Page)
    requires Inv(s) && p in s.pagedir
    ensures p in s.sup && s.pagedir[p].kpage < |s.ram| && BytesOf(s, p) == s.ram[s.pagedir[p].kpage]
  {
    MappedFrame(s, p);
  }

  /** Swapping a page in is invisible. */
  lemma BringInKeeps(s: State, p: Page, k: nat)
    requires Inv(s) && FreeFrame(s, k) && Away(s, p)
    ensures s.sup[p].slot < |s.slots| && Inv(BringIn(s, p, k)) && View(BringIn(s, p, k)) == View(s)
  {
    hide Framed, Mapped, Swapped, BytesOf, SlotBytes;
    BringInSwapped(s, p, k);
    AwayUser(s, p);
    var bytes, e := SlotBytes(s, s.sup[p].slot), s.sup[p].(faultCase := CaseZero);
    AttachFramed(s, p, k, true, bytes, e);
    AttachMapped(s, p, k, true, bytes, e);
    var n := BringIn(s, p, k);
    SameButSlots(Attach(s, p, k, true, bytes, e), n);
    ResidentBytes(n, p);
    AwayBytes(s, p);
    forall q | q in s.sup && q != p ensures BytesOf(n, q) == BytesOf(s, q) { BringInBytes(s, p, k, q); }
  }

  lemma AwayUser(s: State, p: Page)
    requires Mapped(s) && Away(s, p)
    ensures p.no < PHYS_BASE / PGSIZE
  {
  }

  lemma AwayBytes(s: State, p: Page)
    requires Inv(s) && Away(s, p)
    ensures s.sup[p].slot < |s.slots| && BytesOf(s, p) == SlotBytes(s, s.sup[p].slot)
  {
  }

  lemma SameButSlots(s: State, n: State)
    requires n == s.(slots := n.slots) && |n.slots| == |s.slots|
    ensures Shaped(s) ==> Shaped(n)
    ensures Framed(s) ==> Framed(n)
    ensures Mapped(s) ==> Mapped(n)
  {
  }

  lemma BringInBytes(s: State, p: Page, k: nat, q: Page)
    requires Inv(s) && FreeFrame(s, k) && Away(s, p) && q in s.sup && q != p
    requires s.sup[p].slot < |s.slots| && Inv(BringIn(s, p, k))
    ensures BytesOf(BringIn(s, p, k), q) == BytesOf(s, q)
  {
    hide Framed, Mapped, Swapped;
    if q in s.pagedir {
      MappedFrame(s, q);
    } else {
      assert Away(s, q);
    }
  }

  // ----- loads and stores -----

  function WithByte(bytes: seq<Byte>, ofs: nat, b: Byte): (r: seq<Byte>)
    requires ofs < |bytes|
    ensures |r| == |bytes|
  {
    bytes[..ofs] + [b] + bytes[ofs + 1..]
  }

  ghost function Stored(s: State, p: Page, ofs: nat, b: Byte): State
    requires Inv(s) && p in s.pagedir && ofs < PGSIZE
  {
    MappedFrame(s, p);
    var k := s.pagedir[p].kpage;
    s.(ram := s.ram[k := WithByte(s.ram[k], ofs, b)])
  }

  lemma StoreKeeps(s: State, p: Page, ofs: nat, b: Byte)
    requires Inv(s) && p in s.pagedir && ofs < PGSIZE
    ensures Inv(Stored(s, p, ofs, b)) && p in View(s)
    ensures View(Stored(s, p, ofs, b)) == View(s)[p := WithByte(View(s)[p], ofs, b)]
  {
    hide Framed, Mapped, Swapped, BytesOf;
    MappedFrame(s, p);
    var n := Stored(s, p, ofs, b);
    SameButRam(s, n);
    KnownPages(s);
    ResidentBytes(s, p);
    ResidentBytes(n, p);
    forall q | q in s.sup && q != p ensures BytesOf(n, q) == BytesOf(s, q) {
      if q in s.pagedir {
        ResidentBytes(s, q);
        ResidentBytes(n, q);
        OneFrameEach(s, p, q);
      } else {
        AwayBytes(s, q);
        AwayBytes(n, q);
      }
    }
  }

  lemma SameButRam(s: State, n: State)
    requires n == s.(ram := n.ram)
    ensures Framed(s) ==> Framed(n)
    ensures Mapped(s) ==> Mapped(n)
    ensures Swapped(s) ==> Swapped(n)
  {
    assert forall p :: Away(n, p) <==> Away(s, p);
    if Swapped(s) {
      forall j | 0 <= j < |n.slots| && n.slots[j] ensures exists q | Away(n, q) :: n.sup[q].slot == j {
        var q :| Away(s, q) && s.sup[q].slot == j;
        assert Away(n, q) && n.sup[q].slot == j;
      }
    }
  }
}
