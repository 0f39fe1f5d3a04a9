/** The pager: the frame allocator, the swap routines and the page-fault handler
    over the state whose steps `Paging` describes.  A fault is atomic, kernel
    memory for table entries is there, and a swap slot is free. */
module Pagers {
  import opened Helpers
  import opened Storage
  import opened Bitmaps
  import opened Inodes
  import opened Paging

  // ----- swap slots -----

  method WriteSlot(disk: Disk, k: nat, page: seq<Byte>)
    requires Formed(disk.sectors) && PER_SLOT * k + PER_SLOT <= |disk.sectors| && |page| == PGSIZE
    modifies disk
    ensures disk.sectors == Poke(old(disk.sectors), PER_SLOT * k, 0, page)
  {
    hide Poke;
    ghost var d := disk.sectors;
    PokeNothing(d, PER_SLOT * k, 0);
    assert page[..0] == [];
    var i := 0;
    while i < PER_SLOT
      invariant i <= PER_SLOT && disk.sectors == Poke(d, PER_SLOT * k, 0, page[..i * SECTOR])
    {
      var sector := page[i * SECTOR..i * SECTOR + SECTOR];
      ghost var before := disk.sectors[PER_SLOT * k + i];
      assert before[..0] + sector + before[SECTOR..] == sector;
      PokeChunk(d, PER_SLOT * k, 0, page, i * SECTOR, SECTOR, sector);
      disk.Write(PER_SLOT * k + i, sector);
      i := i + 1;
    }
    assert page[..PGSIZE] == page;
  }

  method ReadSlot(disk: Disk, k: nat) returns (page: seq<Byte>)
    requires Formed(disk.sectors) && PER_SLOT * k + PER_SLOT <= |disk.sectors|
    ensures page == FileBytes(disk.sectors, PER_SLOT * k, PGSIZE)
  {
    hide FileBytes;
    page := [];
    ghost var file := FileBytes(disk.sectors, PER_SLOT * k, PGSIZE);
    var i := 0;
    while i < PER_SLOT
      invariant i <= PER_SLOT && page == file[..i * SECTOR]
    {
      ChunkOfFile(disk.sectors, PER_SLOT * k, PGSIZE, i * SECTOR, SECTOR);
      var sector := disk.Read(PER_SLOT * k + i);
      assert sector[0..SECTOR] == sector;
      assert file[..i * SECTOR] + file[i * SECTOR..i * SECTOR + SECTOR] == file[..(i + 1) * SECTOR];
      page := page + sector;
      i := i + 1;
    }
  }

  ghost predicate SlotFree(slots: seq<bool>) { exists k | 0 <= k < |slots| :: !slots[k] }

  /** A frame is free, or a slot for the page that must make way. */
  ghost predicate Room(s: State) { (exists k :: FreeFrame(s, k)) || SlotFree(s.slots) }

  lemma NoFreeFrame(s: State)
    requires Room(s) && forall k | 0 <= k < |s.used| :: !AllAre(s.used, k, 1, false)
    ensures SlotFree(s.slots)
  {
    forall k: nat ensures !FreeFrame(s, k) {
      if FreeFrame(s, k) { assert AllAre(s.used, k, 1, false); }
    }
  }

  /** The state before the last frame of the table was taken. */
  ghost function Untaken(s: State, k: nat): State
    requires k < |s.used| && s.frames != []
  {
    s.(used := s.used[k := false], frames := s.frames[..|s.frames| - 1])
  }

  // ----- what an access does to flat memory -----

  datatype Op =
    | Load(pid: nat, addr: nat, esp: nat)
    | Store(pid: nat, addr: nat, b: Byte, esp: nat)
    | LoadPage(pid: nat, addr: nat, bytes: seq<Byte>, writable: bool)

  /** Addresses are words, and the loader brings whole pages of user memory. */
  ghost predicate ProperOp(op: Op) {
    if op.LoadPage? then op.addr < PHYS_BASE && |op.bytes| == PGSIZE
    else op.addr < MAX_ADDR && op.esp < MAX_ADDR
  }

  datatype Outcome = Value(b: Byte) | Done | Killed | NoRoom | Known

  function PageOf(pid: nat, addr: nat): Page { Page(pid, addr / PGSIZE) }

  /** The address is near the stack pointer and where a stack may be. */
  predicate StackGrowth(addr: nat, esp: nat) {
    addr >= (esp - 32) % MAX_ADDR && PHYS_BASE - STACK_MAX <= addr < PHYS_BASE
  }

  predicate Kills(addr: nat, esp: nat, notPresent: bool, known: bool) {
    !(StackGrowth(addr, esp) && !known) && (addr >= PHYS_BASE || !notPresent || !known)
  }

  /** The access faults and the fault brings its page in, so a frame is needed. */
  ghost predicate NeedsFrame(s: State, op: Op) {
    var p := PageOf(op.pid, op.addr);
    if op.LoadPage? then p !in s.sup
    else p !in s.pagedir && !Kills(op.addr, op.esp, true, p in s.sup)
  }

  /** `w` is `v`, with page `p` new if `v` does not have it. */
  ghost predicate Extends(v: map<Page, seq<Byte>>, p: Page, w: map<Page, seq<Byte>>) {
    p in w && |w[p]| == PGSIZE && if p in v then w == v else w == v[p := w[p]]
  }

  /** An access on flat memory: a load gives the byte there, a store changes that
      byte only, and an access that does not happen changes nothing.  A page not
      there before may have come with it.  A page loaded is new and holds its
      bytes. */
  ghost predicate Flat(v: map<Page, seq<Byte>>, op: Op, r: Outcome, w: map<Page, seq<Byte>>) {
    var p, ofs := PageOf(op.pid, op.addr), op.addr % PGSIZE;
    match r
    case Value(b) => op.Load? && Extends(v, p, w) && w[p][ofs] == b
    case Done => if op.LoadPage? then p !in v && w == v[p := op.bytes]
                 else && op.Store? && p in w && |w[p]| == PGSIZE && w[p][ofs] == op.b && w == v[p := w[p]]
                      && (p in v ==> |v[p]| == PGSIZE && w[p] == WithByte(v[p], ofs, op.b))
    case Killed => w == v
    case NoRoom => w == v
    case Known => op.LoadPage? && p in v && w == v
  }

  ghost predicate FlatRun(views: seq<map<Page, seq<Byte>>>, ops: seq<Op>, outs: seq<Outcome>) {
    && |views| == |ops| + 1 && |outs| == |ops|
    && forall i | 0 <= i < |ops| :: Flat(views[i], ops[i], outs[i], views[i + 1])
  }

  /** The operation put a byte at the address: by a store there, or with its page. */
  ghost predicate Puts(op: Op, r: Outcome, pid: nat, addr: nat) {
    && r.Done?
    && if op.LoadPage? then PageOf(op.pid, op.addr) == PageOf(pid, addr) && |op.bytes| == PGSIZE
       else op.Store? && op.pid == pid && op.addr == addr
  }

  ghost function PutByte(op: Op, r: Outcome, pid: nat, addr: nat): Byte
    requires Puts(op, r, pid, addr)
  {
    if op.LoadPage? then op.bytes[addr % PGSIZE] else op.b
  }

  /** In every run, a load gives the byte last put at its address. */
  lemma ReadsLastWrite(views: seq<map<Page, seq<Byte>>>, ops: seq<Op>, outs: seq<Outcome>, i: nat, j: nat)
    requires FlatRun(views, ops, outs) && i < j < |ops| && outs[j].Value?
    requires Puts(ops[i], outs[i], ops[j].pid, ops[j].addr)
    requires forall k | i < k < j :: !Puts(ops[k], outs[k], ops[j].pid, ops[j].addr)
    ensures outs[j].b == PutByte(ops[i], outs[i], ops[j].pid, ops[j].addr)
  {
    Remembered(views, ops, outs, i, j, ops[j].pid, ops[j].addr);
    assert Flat(views[j], ops[j], outs[j], views[j + 1]);
  }

  lemma {:induction false} Remembered(views: seq<map<Page, seq<Byte>>>, ops: seq<Op>, outs: seq<Outcome>,
                                      i: nat, j: nat, pid: nat, addr: nat)
    requires FlatRun(views, ops, outs) && i < j <= |ops| && Puts(ops[i], outs[i], pid, addr)
    requires forall k | i < k < j :: !Puts(ops[k], outs[k], pid, addr)
    ensures var p := PageOf(pid, addr);
            && p in views[j] && |views[j][p]| == PGSIZE
            && views[j][p][addr % PGSIZE] == PutByte(ops[i], outs[i], pid, addr)
    decreases j
  {
    if i + 1 < j {
      Remembered(views, ops, outs, i, j - 1, pid, addr);
      ByteStays(views[j - 1], ops[j - 1], outs[j - 1], views[j], pid, addr);
    } else {
      assert Flat(views[i], ops[i], outs[i], views[i + 1]);
    }
  }

  lemma ByteStays(v: map<Page, seq<Byte>>, op: Op, r: Outcome, w: map<Page, seq<Byte>>, pid: nat, addr: nat)
    requires Flat(v, op, r, w) && !Puts(op, r, pid, addr)
    requires var p := PageOf(pid, addr); p in v && |v[p]| == PGSIZE
    ensures var p := PageOf(pid, addr);
            p in w && |w[p]| == PGSIZE && w[p][addr % PGSIZE] == v[p][addr % PGSIZE]
  {
  }

  class Pager {
    const pool: Bitmap
    const swapDisk: Disk
    var ram: seq<seq<Byte>>
    var frameTable: seq<Frame>
    var slots: seq<bool>
    var pagedir: map<Page, Mapping>
    var sup: map<Page, Sup>

    /** Empty memory and `swap_init`: a slot for each eight sectors and for what is
        left, so that the last slot may run past the end of the disk. */
    constructor (ram: seq<seq<Byte>>, swapDisk: Disk)
      requires Formed(swapDisk.sectors) && forall k | 0 <= k < |ram| :: |ram[k]| == PGSIZE
      ensures pool.Valid() && pagedir == map[] && sup == map[] && this.ram == ram && this.swapDisk == swapDisk
      ensures Valid() <==> |swapDisk.sectors| % PER_SLOT == 0
      ensures Valid() ==> View(S()) == map[]
      ensures PER_SLOT * |slots| >= |swapDisk.sectors| > PER_SLOT * (|slots| - 1) && forall k | 0 <= k < |slots| :: !slots[k]
    {
      pool := new Bitmap(|ram|);
      this.swapDisk, this.ram, frameTable := swapDisk, ram, [];
      slots := seq((|swapDisk.sectors| + PER_SLOT - 1) / PER_SLOT, _ => false);
      pagedir, sup := map[], map[];
    }

    ghost function S(): State
      requires pool.Valid()
      reads this, pool.words, swapDisk
    {
      State(ram, pool.Bits(), frameTable, slots, swapDisk.sectors, pagedir, sup)
    }

    ghost predicate Valid()
      reads this, pool.words, swapDisk
    {
      pool.Valid() && Inv(S())
    }

    /** `swap_out` of the frame at the front of the table, to the first free slot. */
    method Evict(ghost pre: State) returns (ghost k: nat)
      requires Valid() && frameTable != [] && SlotFree(slots) && pre == S()
      modifies this, pool.words, swapDisk
      ensures Valid() && k < |pre.slots| && !pre.slots[k] && (forall j | 0 <= j < k :: pre.slots[j])
      ensures pre.frames[0].kpage < |pre.used| && S() == SwapOut(pre, k)
    {
      hide Framed, Mapped, Swapped, Poke, BitsOf;
      FrontParts(pre);
      var victim := frameTable[0];
      frameTable := frameTable[1..];
      var i := 0;
      while slots[i]
        invariant i < |slots| && forall j | 0 <= j < i :: slots[j]
        decreases |slots| - i
        modifies {}
      {
        i := i + 1;
        AnotherSlot(slots, i);
      }
      k := i;
      SwapOutKeeps(pre, k);
      WriteSlot(swapDisk, i, ram[victim.kpage]);
      slots := slots[i := true];
      sup := sup[victim.page := Sup(i, CaseSwap)];
      pagedir := pagedir - {victim.page};
      pool.Set(victim.kpage, false);
      ram := ram[victim.kpage := Poison()];
    }

    /** `frame_table_allocator`: a frame from the pool, or the oldest one after its
        page has gone to swap.  There always is one.  The frame is entered at the
        end of the table; whose page it is, is not known yet. */
    method Allocate(pid: nat, zero: bool) returns (kpage: nat)
      requires Valid() && |ram| > 0 && Room(S())
      modifies this, pool.words, swapDisk
      ensures pool.Valid() && frameTable != [] && kpage < |ram| == |old(ram)| == |pool.Bits()| && pool.Bits()[kpage]
      ensures var f := frameTable[|frameTable| - 1]; f.kpage == kpage && f.page.pid == pid
      ensures var s := Untaken(S(), kpage);
              && Inv(s) && FreeFrame(s, kpage) && View(s) == View(old(S()))
              && s.pagedir.Keys <= old(pagedir).Keys
      ensures forall p | p in old(pagedir) && p !in pagedir :: old(frameTable) != [] && p == old(frameTable)[0].page
      ensures zero ==> ram[kpage] == Zeros(PGSIZE)
    {
      hide Framed, Mapped, Swapped, SwapOut, BitsOf, View, FirstFit;
      ghost var s := S();
      FirstFitIs(pool.Bits(), 0, 1, false);
      var r := pool.ScanAndFlip(0, 1, false);
      if r.NotFound? {
        FullTable(s);
        NoFreeFrame(s);
        ghost var k := Evict(s);
        SwapOutKeeps(s, k);
        Evicted(s, k);
        s := S();
        FirstFitIs(pool.Bits(), 0, 1, false);
        r := pool.ScanAndFlip(0, 1, false);
      }
      kpage := r.index;
      TakeOne(s.used, kpage);
      ghost var t := s;
      if zero {
        ram := ram[kpage := Zeros(PGSIZE)];
        t := s.(ram := ram);
        FreeRam(s, kpage, Zeros(PGSIZE));
      }
      var junk: nat := *;
      frameTable := frameTable + [Frame(Page(pid, junk), kpage)];
      assert frameTable[..|frameTable| - 1] == s.frames;
      assert Untaken(S(), kpage) == t;
    }

    /** `pagedir_set_page`: the page is mapped and its frame's entry completed. */
    method SetPage(p: Page, kpage: nat, writable: bool)
      requires frameTable != [] && frameTable[|frameTable| - 1].kpage == kpage
      requires frameTable[|frameTable| - 1].page.pid == p.pid
      requires forall i | 0 <= i < |frameTable| - 1 :: frameTable[i].kpage != kpage
      modifies this`pagedir, this`frameTable
      ensures pagedir == old(pagedir)[p := Mapping(kpage, writable)]
      ensures frameTable == old(frameTable)[..|old(frameTable)| - 1] + [Frame(p, kpage)]
    {
      pagedir := pagedir[p := Mapping(kpage, writable)];
      var i := 0;
      while frameTable[i].kpage != kpage
        invariant i < |frameTable|
        decreases |frameTable| - i
        modifies {}
      {
        i := i + 1;
      }
      frameTable := frameTable[i := Frame(Page(frameTable[i].page.pid, p.no), kpage)];
    }

    /** A new page of the stack, holding whatever its frame held. */
    method Grow(p: Page, writable: bool)
      requires Valid() && |ram| > 0 && Room(S()) && p !in sup && p.no < PHYS_BASE / PGSIZE
      modifies this, pool.words, swapDisk
      ensures Valid() && |ram| == |old(ram)| && p in pagedir && pagedir[p].writable == writable
      ensures p in View(S()) && View(S()) == View(old(S()))[p := View(S())[p]]
    {
      hide Framed, Mapped, Swapped, BitsOf, View, Different;
      var kpage := Allocate(p.pid, false);
      ghost var s := Untaken(S(), kpage);
      FreeIsOffTable(s, kpage);
      ViewKeys(s, old(S()));
      var junk: Sup := *;
      sup := sup[p := junk];
      SetPage(p, kpage, writable);
      KnownPages(s);
      AttachKeeps(s, p, kpage, writable, ram[kpage], junk);
      assert S() == Attach(s, p, kpage, writable, s.ram[kpage], junk);
      ViewHas(S(), p);
    }

    /** `swap_in`. */
    method SwapIn(p: Page)
      requires Valid() && |ram| > 0 && Room(S()) && Away(S(), p)
      modifies this, pool.words, swapDisk
      ensures Valid() && |ram| == |old(ram)| && p in pagedir && pagedir[p].writable
      ensures View(S()) == View(old(S()))
    {
      hide Framed, Mapped, Swapped, BitsOf, View, Different;
      var kpage := Allocate(p.pid, false);
      ghost var s := Untaken(S(), kpage);
      FreeIsOffTable(s, kpage);
      ViewKeys(s, old(S()));
      BringInKeeps(s, p, kpage);
      var page := ReadSlot(swapDisk, sup[p].slot);
      ram := ram[kpage := page];
      slots := slots[sup[p].slot := false];
      sup := sup[p := sup[p].(faultCase := CaseZero)];
      SetPage(p, kpage, true);
      assert S() == BringIn(s, p, kpage);
    }

    /** A page set up by the loader: a frame filled, mapped and recorded. */
    method Install(p: Page, bytes: seq<Byte>, writable: bool)
      requires Valid() && |ram| > 0 && Room(S()) && p !in sup && p.no < PHYS_BASE / PGSIZE && |bytes| == PGSIZE
      modifies this, pool.words, swapDisk
      ensures Valid() && |ram| == |old(ram)| && p in pagedir && pagedir[p].writable == writable
      ensures View(S()) == View(old(S()))[p := bytes]
    {
      hide Framed, Mapped, Swapped, BitsOf, View, Different;
      var kpage := Allocate(p.pid, true);
      ghost var s := Untaken(S(), kpage);
      FreeIsOffTable(s, kpage);
      ViewKeys(s, old(S()));
      KnownPages(s);
      ram := ram[kpage := bytes];
      SetPage(p, kpage, writable);
      var junk: Sup := *;
      sup := sup[p := junk];
      AttachKeeps(s, p, kpage, writable, bytes, junk);
      assert S() == Attach(s, p, kpage, writable, bytes, junk);
    }

    /** `page_fault`: grow the stack, swap in, or kill. */
    method PageFault(pid: nat, addr: nat, notPresent: bool, write: bool, esp: nat) returns (killed: bool)
      requires Valid() && |ram| > 0 && addr < MAX_ADDR && esp < MAX_ADDR
      requires Room(S()) || Kills(addr, esp, notPresent, PageOf(pid, addr) in sup)
      requires addr < PHYS_BASE ==> (notPresent <==> PageOf(pid, addr) !in pagedir)
      modifies this, pool.words, swapDisk
      ensures Valid() && |ram| == |old(ram)|
      ensures killed <==> Kills(addr, esp, notPresent, PageOf(pid, addr) in old(sup))
      ensures killed ==> S() == old(S())
      ensures !killed ==> var p := PageOf(pid, addr); p in pagedir && (write ==> pagedir[p].writable)
      ensures !killed ==> Extends(View(old(S())), PageOf(pid, addr), View(S()))
    {
      hide Framed, Mapped, Swapped, BitsOf, View;
      var p := PageOf(pid, addr);
      ViewDomain(S());
      killed := false;
      var isStackGrowth := StackGrowth(addr, esp) && p !in sup;
      if isStackGrowth {
        Grow(p, write);
        ViewHas(S(), p);
        PageSize(S(), p);
      } else if addr >= PHYS_BASE || !notPresent || p !in sup {
        killed := true;
      } else {
        SwapIn(p);
        PageSize(S(), p);
      }
    }

    /** A load: a byte through the page table, after a fault if there must be one. */
    method Load(pid: nat, addr: nat, esp: nat) returns (r: Outcome)
      requires Valid() && |ram| > 0 && addr < MAX_ADDR && esp < MAX_ADDR
      requires NeedsFrame(S(), Op.Load(pid, addr, esp)) ==> Room(S())
      modifies this, pool.words, swapDisk
      ensures Valid() && |ram| == |old(ram)| && !r.Done? && !r.NoRoom?
      ensures r.Killed? <==> addr >= PHYS_BASE || (PageOf(pid, addr) !in old(sup) && !StackGrowth(addr, esp))
      ensures Flat(View(old(S())), Op.Load(pid, addr, esp), r, View(S()))
    {
      hide Framed, Mapped, Swapped, BitsOf, View;
      var p := PageOf(pid, addr);
      ViewDomain(S());
      KnownPages(S());
      UserPages(S());
      if p !in pagedir {
        var killed := PageFault(pid, addr, true, false, esp);
        if killed {
          return Killed;
        }
      }
      ViewHas(S(), p);
      PageSize(S(), p);
      r := Value(ram[pagedir[p].kpage][addr % PGSIZE]);
    }

    /** A store. */
    method Store(pid: nat, addr: nat, b: Byte, esp: nat) returns (r: Outcome)
      requires Valid() && |ram| > 0 && addr < MAX_ADDR && esp < MAX_ADDR
      requires NeedsFrame(S(), Op.Store(pid, addr, b, esp)) ==> Room(S())
      modifies this, pool.words, swapDisk
      ensures Valid() && |ram| == |old(ram)| && !r.Value? && !r.NoRoom?
      ensures r.Killed? <==> || addr >= PHYS_BASE
                             || (PageOf(pid, addr) in old(pagedir) && !old(pagedir)[PageOf(pid, addr)].writable)
                             || (PageOf(pid, addr) !in old(sup) && !StackGrowth(addr, esp))
      ensures Flat(View(old(S())), Op.Store(pid, addr, b, esp), r, View(S()))
    {
      hide Framed, Mapped, Swapped, BitsOf, View, WithByte;
      var p := PageOf(pid, addr);
      ViewDomain(S());
      KnownPages(S());
      UserPages(S());
      if p !in pagedir || !pagedir[p].writable {
        var killed := PageFault(pid, addr, p !in pagedir, true, esp);
        if killed {
          return Killed;
        }
      }
      ghost var s := S();
      ViewHas(s, p);
      PageSize(s, p);
      StoreKeeps(s, p, addr % PGSIZE, b);
      var k := pagedir[p].kpage;
      ram := ram[k := WithByte(ram[k], addr % PGSIZE, b)];
      assert S() == Stored(s, p, addr % PGSIZE, b);
      StoredFlat(View(old(S())), View(s), p, addr % PGSIZE, b);
      r := Done;
    }

    /** Every run of loads and stores, by any processes, with the evictions and
        swap-ins they cause, is a run of the flat memory. */
    method Run(ops: seq<Op>) returns (outs: seq<Outcome>, ghost views: seq<map<Page, seq<Byte>>>)
      requires Valid() && |ram| > 0 && forall i | 0 <= i < |ops| :: ProperOp(ops[i])
      modifies this, pool.words, swapDisk
      ensures Valid() && |outs| == |ops| && FlatRun(views, ops, outs)
      ensures views[0] == View(old(S())) && views[|ops|] == View(S())
    {
      hide Inv, View, Flat, BitsOf;
      outs, views := [], [View(S())];
      while |outs| < |ops|
        invariant Valid() && |ram| > 0 && |outs| <= |ops| && |views| == |outs| + 1
        invariant views[0] == View(old(S())) && views[|outs|] == View(S())
        invariant forall i | 0 <= i < |outs| :: Flat(views[i], ops[i], outs[i], views[i + 1])
      {
        var r := Step(ops[|outs|]);
        ghost var was := views;
        outs, views := outs + [r], views + [View(S())];
        assert forall i | 0 <= i < |was| :: views[i] == was[i];
      }
    }

    /** One access or one page loaded, if there is room for what it brings in. */
    method Step(op: Op) returns (r: Outcome)
      requires Valid() && |ram| > 0 && ProperOp(op)
      modifies this, pool.words, swapDisk
      ensures Valid() && |ram| == |old(ram)| && Flat(View(old(S())), op, r, View(S()))
      ensures r.NoRoom? <==> NeedsFrame(old(S()), op) && !Room(old(S()))
    {
      hide Inv, View, BitsOf;
      var p := PageOf(op.pid, op.addr);
      var room := HasRoom();
      if op.LoadPage? {
        r := StepLoad(op, room);
      } else if !room && p !in pagedir && !Kills(op.addr, op.esp, true, p in sup) {
        r := NoRoom;
      } else if op.Load? {
        r := Load(op.pid, op.addr, op.esp);
      } else {
        r := Store(op.pid, op.addr, op.b, op.esp);
      }
    }

    /** The loader's page, unless the process has it already. */
    method StepLoad(op: Op, room: bool) returns (r: Outcome)
      requires Valid() && |ram| > 0 && op.LoadPage? && ProperOp(op) && (room <==> Room(S()))
      modifies this, pool.words, swapDisk
      ensures Valid() && |ram| == |old(ram)| && Flat(View(old(S())), op, r, View(S()))
      ensures r.NoRoom? <==> NeedsFrame(old(S()), op) && !Room(old(S()))
    {
      hide Framed, Mapped, Swapped, View, BitsOf;
      var p := PageOf(op.pid, op.addr);
      ViewDomain(S());
      if p in sup {
        r := Known;
      } else if !room {
        r := NoRoom;
      } else {
        Install(p, op.bytes, op.writable);
        r := Done;
      }
    }

    method HasRoom() returns (r: bool)
      requires Valid()
      ensures r <==> Room(S())
    {
      hide Framed, Mapped, Swapped, BitsOf, FirstFit;
      FirstFitIs(pool.Bits(), 0, 1, false);
      var f := pool.Scan(0, 1, false);
      r := f.At?;
      if r {
        assert FreeFrame(S(), f.index);
      }
      var i := 0;
      while i < |slots| && !r
        invariant i <= |slots| && (f.At? ==> r) && (r ==> Room(S())) && (!r ==> forall j | 0 <= j < i :: slots[j])
        decreases |slots| - i
      {
        r := !slots[i];
        i := i + 1;
      }
      if !r {
        NoFrames(S());
      }
    }
  }

  lemma AnotherSlot(slots: seq<bool>, i: nat)
    requires SlotFree(slots) && i <= |slots| && forall j | 0 <= j < i :: slots[j]
    ensures i < |slots|
  {
  }

  lemma FullTable(s: State)
    requires Framed(s) && |s.used| > 0 && forall k | 0 <= k < |s.used| :: !AllAre(s.used, k, 1, false)
    ensures s.frames != []
  {
    assert !AllAre(s.used, 0, 1, false);
  }

  lemma Evicted(s: State, k: nat)
    requires Inv(s) && s.frames != [] && k < |s.slots| && s.frames[0].kpage < |s.used|
    ensures var n := SwapOut(s, k);
            && |n.ram| == |s.ram| && |n.used| == |s.used| && AllAre(n.used, s.frames[0].kpage, 1, false)
            && n.pagedir.Keys <= s.pagedir.Keys
            && forall p | p in s.pagedir && p !in n.pagedir :: p == s.frames[0].page
  {
    hide Poke;
  }

  lemma TakeOne(b: seq<bool>, k: nat)
    requires k + 1 <= |b| && AllAre(b, k, 1, false)
    ensures WithRange(b, k, 1, true)[k := false] == b && !b[k] && WithRange(b, k, 1, true)[k]
  {
  }

  /** What a free frame holds does not matter. */
  lemma FreeRam(s: State, k: nat, bytes: seq<Byte>)
    requires Inv(s) && FreeFrame(s, k) && |bytes| == PGSIZE
    ensures var n := s.(ram := s.ram[k := bytes]); Inv(n) && View(n) == View(s)
  {
    hide Framed, Mapped, Swapped, BytesOf;
    var n := s.(ram := s.ram[k := bytes]);
    SameButRam(s, n);
    forall q | q in s.sup ensures BytesOf(n, q) == BytesOf(s, q) {
      if q in s.pagedir {
        ResidentBytes(s, q);
        ResidentBytes(n, q);
        MappedFrame(s, q);
      } else {
        AwayBytes(s, q);
        AwayBytes(n, q);
      }
    }
  }

  lemma FreeIsOffTable(s: State, k: nat)
    requires Framed(s) && FreeFrame(s, k)
    ensures forall i | 0 <= i < |s.frames| :: s.frames[i].kpage != k
  {
  }

  lemma ViewKeys(s: State, t: State)
    requires Inv(s) && Inv(t) && View(s) == View(t)
    ensures s.sup.Keys == t.sup.Keys
  {
    hide BytesOf, Framed, Mapped, Swapped;
    assert View(s).Keys == s.sup.Keys && View(t).Keys == t.sup.Keys;
  }

  lemma ViewHas(s: State, p: Page)
    requires Inv(s) && p in s.pagedir
    ensures p in View(s) && s.pagedir[p].kpage < |s.ram| && View(s)[p] == s.ram[s.pagedir[p].kpage]
  {
    hide Framed, Mapped, Swapped;
    MappedFrame(s, p);
    KnownPages(s);
  }

  lemma ViewDomain(s: State)
    requires Inv(s)
    ensures forall p :: p in View(s) <==> p in s.sup
  {
    hide BytesOf, Framed, Mapped, Swapped;
  }

  lemma PageSize(s: State, p: Page)
    requires Inv(s) && p in View(s)
    ensures |View(s)[p]| == PGSIZE
  {
    hide Framed, Mapped, Swapped;
  }

  lemma UserPages(s: State)
    requires Mapped(s)
    ensures forall p | p in s.pagedir :: p.no < PHYS_BASE / PGSIZE
  {
  }

  lemma StoredFlat(v: map<Page, seq<Byte>>, w: map<Page, seq<Byte>>, p: Page, ofs: nat, b: Byte)
    requires Extends(v, p, w) && ofs < PGSIZE
    ensures var n := w[p := WithByte(w[p], ofs, b)];
            n[p][ofs] == b && |n[p]| == PGSIZE && n == v[p := n[p]] && (p in v ==> v[p] == w[p])
  {
  }

  lemma NoFrames(s: State)
    requires (forall k | 0 <= k < |s.used| :: !AllAre(s.used, k, 1, false)) && forall j | 0 <= j < |s.slots| :: s.slots[j]
    ensures !Room(s)
  {
    forall k: nat ensures !FreeFrame(s, k) {
      if FreeFrame(s, k) { assert AllAre(s.used, k, 1, false); }
    }
  }

  /** The pages that are away in the first `n` slots. */
  ghost function AwayBelow(s: State, n: nat): set<Page> {
    set p | p in s.sup && Away(s, p) && s.sup[p].slot < n
  }

  lemma {:induction false} FullSlots(s: State, n: nat)
    requires Swapped(s) && n <= |s.slots| && forall k | 0 <= k < n :: s.slots[k]
    ensures |AwayBelow(s, n)| >= n
  {
    hide Swapped, AwayBelow, Away;
    if n > 0 {
      FullSlots(s, n - 1);
      var p := WhoIsIn(s, n - 1);
      OneSlotMore(s, n - 1, p);
      FewerIn(AwayBelow(s, n - 1) + {p}, AwayBelow(s, n));
    }
  }

  lemma WhoIsIn(s: State, k: nat) returns (p: Page)
    requires Swapped(s) && k < |s.slots| && s.slots[k]
    ensures Away(s, p) && s.sup[p].slot == k
  {
    p :| Away(s, p) && s.sup[p].slot == k;
  }

  lemma OneSlotMore(s: State, k: nat, p: Page)
    requires Away(s, p) && s.sup[p].slot == k
    ensures p !in AwayBelow(s, k) && AwayBelow(s, k) + {p} <= AwayBelow(s, k + 1)
  {
  }

  /** Full swap space holds fewer pages than there are: one is in a frame. */
  lemma FullSwap(s: State)
    requires Inv(s) && s.frames != [] && !SlotFree(s.slots)
    ensures |s.slots| < |s.sup|
  {
    hide Mapped, Framed;
    FullSlots(s, |s.slots|);
    FrontParts(s);
    var v := s.frames[0].page;
    assert AwayBelow(s, |s.slots|) <= s.sup.Keys - {v};
    FewerIn(AwayBelow(s, |s.slots|), s.sup.Keys - {v});
    assert |s.sup.Keys| == |s.sup|;
  }

  /** With a slot for every page there is always room. */
  lemma SwapSuffices(s: State)
    requires Inv(s) && |s.ram| > 0 && |s.sup| <= |s.slots|
    ensures Room(s)
  {
    hide Mapped, Framed, Swapped;
    if forall k: nat :: !FreeFrame(s, k) {
      SomeFrame(s);
      if !SlotFree(s.slots) { FullSwap(s); }
    }
  }

  lemma SomeFrame(s: State)
    requires Framed(s) && |s.used| > 0 && forall k: nat :: !FreeFrame(s, k)
    ensures s.frames != []
  {
    assert !FreeFrame(s, 0);
  }
}
