/** When the names in the directory stay different, and when a new file takes an
    entry that is in use.  A search ends where a read fails for want of a buffer. */
module FileNames {
  import opened Storage
  import opened Bitmaps
  import opened FsLayout
  import opened FsDirectory
  import opened FileSystems
  import opened Inodes
  import opened Mounting

  ghost predicate Names(c: seq<Byte>, j: nat, name: seq<Byte>)
    requires |c| == ENTRIES * ENTRY && j < ENTRIES
  {
    EntryAt(c, j).inUse && CString(EntryAt(c, j).name) == name
  }

  /** In the directory after a creation, the entries with the name. */
  lemma NamedAfter(c: seq<Byte>, n: seq<Byte>, d: Sectors, was: map<nat, Meta>, now: map<nat, Meta>,
                   name: seq<Byte>, size: nat, mem: Memory, s: nat, i: nat)
    requires |c| == |n| == ENTRIES * ENTRY && Created(c, n, d, was, now, name, size, mem, s, i)
    ensures Names(n, i, name)
    ensures forall j | 0 <= j < ENTRIES && j != i :: Names(n, j, name) <==> Names(c, j, name)
    ensures forall j | 0 <= j < Limit(mem.lookupReads) :: !Names(c, j, name)
  {
    hide EntryAt, CString, FirstNamed, FirstFree, Contents;
    FirstNamedIs(c, name, 0, Limit(mem.lookupReads));
  }

  lemma FoundFirst(n: seq<Byte>, name: seq<Byte>, i: nat)
    requires |n| == ENTRIES * ENTRY && i < ENTRIES && Names(n, i, name)
    ensures FirstNamed(n, name, 0, ENTRIES) == At(i) <==> forall j | 0 <= j < i :: !Names(n, j, name)
  {
    hide EntryAt, CString, FirstNamed;
    FirstNamedIs(n, name, 0, ENTRIES);
    match FirstNamed(n, name, 0, ENTRIES)
    case At(k) => assert Names(n, k, name);
    case NotFound =>
  }

  lemma DistinctAfter(c: seq<Byte>, n: seq<Byte>, i: nat, name: seq<Byte>)
    requires |c| == |n| == ENTRIES * ENTRY && i < ENTRIES && NamesDistinct(c)
    requires Replaced(c, n, i, EntryAt(n, i)) && Names(n, i, name)
    ensures NamesDistinct(n) <==> forall j | 0 <= j < ENTRIES && j != i :: !Names(c, j, name)
  {
    hide EntryAt, CString;
    forall j | 0 <= j < ENTRIES && j != i && Names(c, j, name) ensures !NamesDistinct(n) {
      var k, l := if j < i then j else i, if j < i then i else j;
      assert EntryAt(n, k).inUse && EntryAt(n, l).inUse;
    }
    if forall j | 0 <= j < ENTRIES && j != i :: !Names(c, j, name) {
      forall k, l | 0 <= k < l < ENTRIES && EntryAt(n, k).inUse && EntryAt(n, l).inUse
        ensures CString(EntryAt(n, k).name) != CString(EntryAt(n, l).name)
      {
        assert k != i ==> !Names(c, k, name);
        assert l != i ==> !Names(c, l, name);
      }
    }
  }

  /** A new file is the first found under its name exactly when no entry before
      it that the search did not reach has the name.  The names stay different
      exactly when no such entry has it anywhere. */
  lemma CreatedIsFound(c: seq<Byte>, n: seq<Byte>, d: Sectors, was: map<nat, Meta>, now: map<nat, Meta>,
                       name: seq<Byte>, size: nat, mem: Memory, s: nat, i: nat)
    requires |c| == |n| == ENTRIES * ENTRY && Created(c, n, d, was, now, name, size, mem, s, i)
    ensures FirstNamed(n, name, 0, ENTRIES) == At(i) <==>
            forall j | Limit(mem.lookupReads) <= j < i :: !Names(c, j, name)
    ensures NamesDistinct(c) ==>
              (NamesDistinct(n) <==> forall j | Limit(mem.lookupReads) <= j < ENTRIES && j != i :: !Names(c, j, name))
  {
    hide EntryAt, CString, FirstNamed, FirstFree, Contents, Names, NamesDistinct, Replaced;
    NamedAfter(c, n, d, was, now, name, size, mem, s, i);
    FoundFirst(n, name, i);
    if NamesDistinct(c) { DistinctAfter(c, n, i, name); }
  }

  lemma {:induction false} FirstFreeIs(c: seq<Byte>, i: nat, limit: nat)
    requires |c| == ENTRIES * ENTRY && i <= limit <= ENTRIES
    ensures var k := FirstFree(c, i, limit);
            && (forall j | i <= j < k :: EntryAt(c, j).inUse)
            && (k < limit ==> !EntryAt(c, k).inUse)
    decreases limit - i
  {
    hide EntryAt;
    if i < limit && EntryAt(c, i).inUse {
      FirstFreeIs(c, i + 1, limit);
    }
  }

  /** The entry taken was in use exactly when the reads ended early, and every
      entry up to the one that could not be read is in use. */
  lemma TakenWasInUse(c: seq<Byte>, n: seq<Byte>, d: Sectors, was: map<nat, Meta>, now: map<nat, Meta>,
                      name: seq<Byte>, size: nat, mem: Memory, s: nat, i: nat)
    requires |c| == |n| == ENTRIES * ENTRY && Created(c, n, d, was, now, name, size, mem, s, i)
    ensures EntryAt(c, i).inUse <==>
            mem.slotReads < ENTRIES && forall j | 0 <= j <= mem.slotReads :: EntryAt(c, j).inUse
  {
    hide EntryAt, CString, FirstNamed, FirstFree, Contents;
    FirstFreeIs(c, 0, Limit(mem.slotReads));
  }

  // ----- both do happen, on every disk with room for the files -----

  const A: seq<Byte> := [65]

  const B: seq<Byte> := [66]

  /** Enough memory for everything but a search of the directory. */
  function Reads(lookup: nat, slot: nat): Memory {
    Memory(true, true, true, true, lookup, slot, true, true, true, true)
  }

  lemma EmptyRoot(c: seq<Byte>, name: seq<Byte>)
    requires c == Zeros(ENTRIES * ENTRY) && 0 < |name| <= NAME_MAX
    ensures CanEnter(c, name, Reads(ENTRIES, ENTRIES)) && FirstFree(c, 0, ENTRIES) == 0
    ensures forall j | 0 <= j < ENTRIES :: !EntryAt(c, j).inUse
  {
    hide EntryAt, CString;
    forall j | 0 <= j < ENTRIES ensures !EntryAt(c, j).inUse { NoEntries(j); }
    FirstNamedIs(c, name, 0, ENTRIES);
  }

  /** There are sectors for the inode of an empty file. */
  lemma EmptyFileFits(b: seq<bool>, p: nat, mem: Memory)
    requires UpTo(b, p) && p < |b| && MapsWritten(|b|, mem) && mem.inode
    ensures GetsSectors(b, 0, mem)
    ensures forall n :: MapAfter(b, n, 0, true) ==> |n| == |b| && UpTo(n, p + 1)
  {
    hide FirstFit;
    NextFit(b, p, 1);
    var taken := WithRange(b, p, 1, true);
    FirstFitIs(taken, 0, 0, false);
    assert AllAre(taken, 0, 0, false);
  }

  /** The directory with its first entry in use, for the file at `s`. */
  ghost predicate OneEntry(c: seq<Byte>, s: nat, name: seq<Byte>)
    requires |c| == ENTRIES * ENTRY
  {
    && EntryAt(c, 0).inUse && EntryAt(c, 0).sector == s && CString(EntryAt(c, 0).name) == name
    && forall j | 1 <= j < ENTRIES :: !EntryAt(c, j).inUse
  }

  lemma FirstEntered(c: seq<Byte>, n: seq<Byte>, d: Sectors, was: map<nat, Meta>, now: map<nat, Meta>, s: nat, i: nat)
    requires |c| == |n| == ENTRIES * ENTRY && forall j | 0 <= j < ENTRIES :: !EntryAt(c, j).inUse
    requires Created(c, n, d, was, now, A, 0, Reads(ENTRIES, ENTRIES), s, i)
    ensures OneEntry(n, s, A)
  {
    hide EntryAt, CString, FirstNamed, Contents;
  }

  /** A file system with one file. */
  method OneFile(disk: Disk) returns (fs: FileSystem, ghost s: nat)
    requires Formed(disk.sectors) && Needed(|disk.sectors|) < |disk.sectors| < MAX32
    modifies disk
    ensures fs.disk == disk && fresh(fs) && fresh(fs.freeMap.words) && fs.Valid() && OneEntry(fs.RootBytes(), s, A)
    ensures fs.open.Keys == {FREE_MAP_SECTOR} && s < fs.freeMap.bitCnt && fs.freeMap.Bits()[s]
    ensures |disk.sectors| == old(|disk.sectors|) == fs.freeMap.bitCnt
    ensures UpTo(fs.freeMap.Bits(), Needed(|disk.sectors|) + 1)
  {
    hide Good, Contents, EntryAt, CString, FirstNamed, FirstFree, CanEnter, GetsSectors, MapAfter, Needed, Zeros,
         PlacedAt, FreeMapImage, Created, OneEntry, MapWritten;
    WholeWrites(|disk.sectors|);
    var made := Format(disk, true, true, true, true);
    fs := made;
    GoodParts(disk.sectors, fs.freeMap.Bits(), fs.open, fs.files);
    ghost var c, b, f := fs.RootBytes(), fs.freeMap.Bits(), fs.files;
    EmptyRoot(c, A);
    EmptyFileFits(b, Needed(|disk.sectors|), Reads(ENTRIES, ENTRIES));
    ghost var i;
    var ok;
    ok, s, i := fs.FilesysCreate(A, 0, Reads(ENTRIES, ENTRIES), Entry(0, Zeros(NAME_MAX + 1), false));
    FirstEntered(c, fs.RootBytes(), disk.sectors, f, fs.files, s, i);
    GoodParts(disk.sectors, fs.freeMap.Bits(), fs.open, fs.files);
    InodePlace(b, Needed(|disk.sectors|), fs.files, s);
  }

  lemma WholeWrites(n: nat)
    ensures MapWritten(n, true) && MapsWritten(n, Reads(ENTRIES, ENTRIES))
    ensures MapsWritten(n, Reads(0, ENTRIES)) && MapsWritten(n, Reads(ENTRIES, 0))
  {
  }

  lemma InodePlace(b: seq<bool>, p: nat, files: map<nat, Meta>, s: nat)
    requires UpTo(b, p) && p < |b| && PlacedAt(b, files, s, 0)
    ensures s == p
  {
    hide FirstFit, DataPlace;
    NextFit(b, p, 1);
  }

  lemma SecondSlot(c: seq<Byte>, s: nat)
    requires |c| == ENTRIES * ENTRY && OneEntry(c, s, A)
    ensures CanEnter(c, A, Reads(0, ENTRIES)) && FirstFree(c, 0, ENTRIES) == 1
  {
    hide EntryAt, CString;
    assert FirstFree(c, 1, ENTRIES) == 1;
  }

  lemma NowTwice(c: seq<Byte>, n: seq<Byte>, d: Sectors, was: map<nat, Meta>, now: map<nat, Meta>, s: nat, t: nat, i: nat)
    requires |c| == |n| == ENTRIES * ENTRY && OneEntry(c, s, A)
    requires Created(c, n, d, was, now, A, 0, Reads(0, ENTRIES), t, i)
    ensures !NamesDistinct(n)
  {
    hide EntryAt, CString, FirstNamed, FirstFree, Contents;
    SecondSlot(c, s);
    CreatedIsFound(c, n, d, was, now, A, 0, Reads(0, ENTRIES), t, i);
    assert Names(c, 0, A);
  }

  /** A second file of the same name, when the search for the name gets no buffer. */
  method DuplicateName(disk: Disk) returns (fs: FileSystem)
    requires Formed(disk.sectors) && Needed(|disk.sectors|) + 1 < |disk.sectors| < MAX32
    modifies disk
    ensures fs.disk == disk && fs.Valid() && !NamesDistinct(fs.RootBytes())
  {
    hide Good, Contents, EntryAt, CString, FirstNamed, FirstFree, GetsSectors, MapAfter, Needed, UpTo, Zeros, PlacedAt,
         FreeMapImage, NamesDistinct, Created, OneEntry, CanEnter, MapWritten;
    ghost var s, t, i;
    fs, s := OneFile(disk);
    ghost var c, f := fs.RootBytes(), fs.files;
    WholeWrites(|disk.sectors|);
    EmptyFileFits(fs.freeMap.Bits(), Needed(|disk.sectors|) + 1, Reads(0, ENTRIES));
    SecondSlot(c, s);
    var ok;
    ok, t, i := fs.FilesysCreate(A, 0, Reads(0, ENTRIES), Entry(0, Zeros(NAME_MAX + 1), false));
    NowTwice(c, fs.RootBytes(), fs.disk.sectors, f, fs.files, s, t, i);
  }

  lemma FirstSlot(c: seq<Byte>, s: nat)
    requires |c| == ENTRIES * ENTRY && OneEntry(c, s, A)
    ensures CanEnter(c, B, Reads(ENTRIES, 0)) && Listed(c, s)
  {
    hide EntryAt, CString;
    FirstNamedIs(c, B, 0, ENTRIES);
  }

  lemma NowGone(c: seq<Byte>, n: seq<Byte>, d: Sectors, b: seq<bool>, open: map<nat, Inode>, was: map<nat, Meta>,
                now: map<nat, Meta>, s: nat, t: nat, i: nat)
    requires |c| == |n| == ENTRIES * ENTRY && OneEntry(c, s, A) && s in was && s >= 2
    requires Created(c, n, d, was, now, B, 0, Reads(ENTRIES, 0), t, i)
    requires Good(d, b, open, now) && n == Contents(d, now[ROOT_DIR_SECTOR]) && s !in open
    ensures EntryAt(c, i).inUse && !Listed(n, s) && s !in now
  {
    hide EntryAt, CString, FirstNamed, Contents, Layout, OpenOk, DirectoryOk;
    assert i == 0;
  }

  /** A file entered over another, when the search for a slot gets no buffer: the other
      is listed nowhere and gone, and its sector stays marked. */
  method EntryTaken(disk: Disk) returns (fs: FileSystem, ghost s: nat, ghost before: seq<Byte>)
    requires Formed(disk.sectors) && Needed(|disk.sectors|) + 1 < |disk.sectors| < MAX32
    modifies disk
    ensures fs.disk == disk && fs.Valid() && |before| == ENTRIES * ENTRY && OneEntry(before, s, A)
    ensures Listed(before, s) && !Listed(fs.RootBytes(), s) && s !in fs.files
    ensures s < fs.freeMap.bitCnt && fs.freeMap.Bits()[s]
  {
    hide Good, Contents, EntryAt, CString, FirstNamed, FirstFree, GetsSectors, Needed, UpTo, Zeros, PlacedAt,
         FreeMapImage, Created, OneEntry, CanEnter, MapWritten, Listed, DataPlace, FirstFit;
    ghost var t, i;
    fs, s := OneFile(disk);
    before := fs.RootBytes();
    ghost var f := fs.files;
    WholeWrites(|disk.sectors|);
    EmptyFileFits(fs.freeMap.Bits(), Needed(|disk.sectors|) + 1, Reads(ENTRIES, 0));
    FirstSlot(before, s);
    ListedIsFile(fs.disk.sectors, fs.freeMap.Bits(), fs.open, fs.files, s);
    var ok;
    ok, t, i := fs.FilesysCreate(B, 0, Reads(ENTRIES, 0), Entry(0, Zeros(NAME_MAX + 1), false));
    GoodParts(disk.sectors, fs.freeMap.Bits(), fs.open, fs.files);
    NowGone(before, fs.RootBytes(), disk.sectors, fs.freeMap.Bits(), fs.open, f, fs.files, s, t, i);
  }

  lemma ListedIsFile(d: Sectors, b: seq<bool>, open: map<nat, Inode>, files: map<nat, Meta>, s: nat)
    requires Good(d, b, open, files) && Listed(Contents(d, files[ROOT_DIR_SECTOR]), s)
    ensures s >= 2 && s in files
  {
    hide Layout, OpenOk;
  }
}
