/** The mounted file system: the free map and its file, the open inodes, the
    root directory, and the operations on named files.  Memory that an
    operation asks for may not be there; what happens then is part of it. */
module FileSystems {
  import opened Storage
  import opened Bitmaps
  import opened Encoding
  import opened FsLayout
  import opened FsDirectory
  import opened Inodes

  /** The outcomes of the allocations on an operation's way.  A directory search
      gets a buffer for its first reads only, `lookupReads` and `slotReads`. */
  datatype Memory = Memory(
    rootInode: bool, dir: bool, inode: bool, file: bool,
    lookupReads: nat, slotReads: nat, entryWrite: bool,
    mapWrite0: bool, mapWrite1: bool, mapWrite2: bool)

  /** The entries a search sees. */
  function Limit(n: nat): nat { if n < ENTRIES then n else ENTRIES }

  /** The first entry in use with that name, of those from `i` up to `limit`. */
  ghost function FirstNamed(c: seq<Byte>, name: seq<Byte>, i: nat, limit: nat): Found
    requires |c| == ENTRIES * ENTRY && limit <= ENTRIES
    decreases limit - i
  {
    if i >= limit then NotFound
    else if EntryAt(c, i).inUse && CString(EntryAt(c, i).name) == name then At(i)
    else FirstNamed(c, name, i + 1, limit)
  }

  lemma {:induction false} FirstNamedIs(c: seq<Byte>, name: seq<Byte>, i: nat, limit: nat)
    requires |c| == ENTRIES * ENTRY && i <= limit <= ENTRIES
    ensures match FirstNamed(c, name, i, limit)
            case NotFound => forall j | i <= j < limit :: !(EntryAt(c, j).inUse && CString(EntryAt(c, j).name) == name)
            case At(k) => i <= k < limit && EntryAt(c, k).inUse && CString(EntryAt(c, k).name) == name
                          && forall j | i <= j < k :: !(EntryAt(c, j).inUse && CString(EntryAt(c, j).name) == name)
    decreases limit - i
  {
    hide EntryAt, CString;
    if i < limit {
      FirstNamedIs(c, name, i + 1, limit);
    }
  }

  /** The first free entry of those the search sees, or where the search stopped. */
  ghost function FirstFree(c: seq<Byte>, i: nat, limit: nat): (k: nat)
    requires |c| == ENTRIES * ENTRY && i <= limit <= ENTRIES
    ensures i <= k <= limit
    decreases limit - i
  {
    if i >= limit then limit
    else if !EntryAt(c, i).inUse then i
    else FirstFree(c, i + 1, limit)
  }

  /** No two entries in use have the same name. */
  ghost predicate NamesDistinct(c: seq<Byte>)
    requires |c| == ENTRIES * ENTRY
  {
    forall i, j | 0 <= i < j < ENTRIES && EntryAt(c, i).inUse && EntryAt(c, j).inUse ::
      CString(EntryAt(c, i).name) != CString(EntryAt(c, j).name)
  }

  /** `n` is `c` with entry `i` replaced by `e`. */
  ghost predicate Replaced(c: seq<Byte>, n: seq<Byte>, i: nat, e: Entry)
    requires |c| == |n| == ENTRIES * ENTRY && i < ENTRIES
  {
    EntryAt(n, i) == e && forall j | 0 <= j < ENTRIES && j != i :: EntryAt(n, j) == EntryAt(c, j)
  }

  /** The bytes of a file are the same on two disks. */
  ghost predicate SameBytes(d: Sectors, e: Sectors, m: Meta) {
    && Formed(d) && Formed(e) && OnDisk(d, m.start, m.length) && OnDisk(e, m.start, m.length)
    && Contents(d, m) == Contents(e, m)
  }

  /** Every file there before and after, but those excepted, lies where it lay
      and holds what it held. */
  ghost predicate SameFiles(d: Sectors, e: Sectors, was: map<nat, Meta>, now: map<nat, Meta>, except: set<nat>) {
    forall g | g in was && g in now && g !in except :: was[g] == now[g] && SameBytes(d, e, was[g])
  }

  /** The file that opening a name gives: it is found, and every allocation on
      the way succeeds. */
  ghost function OpenResult(c: seq<Byte>, open: map<nat, Inode>, name: seq<Byte>, mem: Memory): Found
    requires |c| == ENTRIES * ENTRY
  {
    var found := FirstNamed(c, name, 0, Limit(mem.lookupReads));
    if (ROOT_DIR_SECTOR in open || mem.rootInode) && mem.dir && found.At? && found.index < ENTRIES
       && (EntryAt(c, found.index).sector in open || mem.inode) && mem.file
    then At(EntryAt(c, found.index).sector) else NotFound
  }

  /** An inode opened once more. */
  function Opened(open: map<nat, Inode>, s: nat, m: Meta): map<nat, Inode> {
    if s in open then open[s := open[s].(openCnt := open[s].openCnt + 1)]
    else open[s := Inode(m.start, m.length, 1, false, 0)]
  }

  /** An inode closed by one opener. */
  function Closed(open: map<nat, Inode>, s: nat): map<nat, Inode>
    requires s in open && open[s].openCnt >= 1
  {
    if open[s].openCnt == 1 then open - {s}
    else open[s := open[s].(openCnt := open[s].openCnt - 1)]
  }

  lemma OpenThenClose(open: map<nat, Inode>, s: nat, m: Meta)
    requires s in open ==> open[s].openCnt >= 1
    ensures Closed(Opened(open, s, m), s) == open
  {
  }

  /** Whether the whole free map gets written: its last chunk needs a buffer
      unless it is a whole sector. */
  ghost predicate MapWritten(bits: nat, bounceOk: bool) {
    bounceOk || ByteCnt(bits) % SECTOR == 0
  }

  lemma EntryTransfer(i: nat, bounceOk: bool)
    requires i <= ENTRIES
    ensures Transferred(ENTRIES * ENTRY, ENTRY, i * ENTRY, bounceOk) == if bounceOk && i < ENTRIES then ENTRY else 0
  {
  }

  ghost predicate MapsWritten(bits: nat, mem: Memory) {
    MapWritten(bits, mem.mapWrite0) && MapWritten(bits, mem.mapWrite1) && MapWritten(bits, mem.mapWrite2)
  }

  /** How many bits of the free map a write of it reaches. */
  ghost function Reached(bits: nat, bounceOk: bool): nat {
    if bounceOk then bits else ByteCnt(bits) / SECTOR * SECTOR * 8
  }

  /** The first `k` bits from `b`, the others from `f`. */
  ghost function Overlaid(b: seq<bool>, f: seq<bool>, k: nat): (r: seq<bool>)
    requires |b| == |f|
    ensures |r| == |b|
  {
    seq(|b|, j requires 0 <= j < |b| => if j < k then b[j] else f[j])
  }

  /** A write of the free map reaches whole words. */
  lemma WordsReached(n: nat, bounceOk: bool) returns (w: nat)
    ensures Transferred(ByteCnt(n), ByteCnt(n), 0, bounceOk) == 4 * w && w <= ElemCnt(n) && ByteCnt(n) == 4 * ElemCnt(n)
    ensures Reached(n, bounceOk) == WORD * w || (w == ElemCnt(n) && Reached(n, bounceOk) == n)
  {
    w := if bounceOk then ElemCnt(n) else ByteCnt(n) / SECTOR * (SECTOR / 4);
  }

  /** What the free-map file decodes to after a write of the free map. */
  lemma MapFileWritten(d: Sectors, words: seq<Word>, n: nat, m: Meta, bounceOk: bool)
    requires Formed(d) && OnDisk(d, m.start, m.length) && |words| == ElemCnt(n) && m.length == ByteCnt(n)
    ensures var k := Transferred(ByteCnt(n), ByteCnt(n), 0, bounceOk);
            FreeMapImage(Contents(Poke(d, m.start, 0, WordsBytes(words)[..k]), m), n) ==
            Overlaid(BitsOf(words, n), FreeMapImage(Contents(d, m), n), Reached(n, bounceOk))
  {
    hide Poke, BytesWords, WordsBytes, BitsOf, FileBytes, Transferred, Reached, ByteCnt;
    var k := Transferred(ByteCnt(n), ByteCnt(n), 0, bounceOk);
    var w := WordsReached(n, bounceOk);
    var c := Contents(d, m);
    PokedFile(d, m.start, m.length, 0, WordsBytes(words)[..k]);
    assert c[..0] + WordsBytes(words)[..k] + c[k..] == WordsBytes(words)[..k] + c[k..];
    OverlaidWords(words, c, w);
    OverlaidBits(words, BytesWords(c), n, w, Reached(n, bounceOk));
  }

  lemma OverlaidBits(words: seq<Word>, before: seq<Word>, n: nat, w: nat, k: nat)
    requires |words| == |before| == ElemCnt(n) && w <= ElemCnt(n)
    requires k == WORD * w || (w == ElemCnt(n) && k == n)
    ensures BitsOf(words[..w] + before[w..], n) == Overlaid(BitsOf(words, n), BitsOf(before, n), k)
  {
    forall j | 0 <= j < n
      ensures BitsOf(words[..w] + before[w..], n)[j] == Overlaid(BitsOf(words, n), BitsOf(before, n), k)[j]
    {
      ElemInRange(n, j);
      assert j / WORD < w <==> j < WORD * w;
    }
  }

  /** A map is overlaid on one that differs from it in a range only: they agree
      exactly when the range is reached, or empty. */
  lemma OverlaidRange(b: seq<bool>, x: nat, cnt: nat, value: bool, k: nat)
    requires x + cnt <= |b| && AllAre(b, x, cnt, !value)
    ensures var n := WithRange(b, x, cnt, value);
            && (Overlaid(n, b, k) == n <==> cnt == 0 || x + cnt <= k)
            && (Overlaid(n, b, k) == b <==> cnt == 0 || k <= x)
  {
    var n := WithRange(b, x, cnt, value);
    if cnt > 0 {
      assert n[x] != b[x] && n[x + cnt - 1] != b[x + cnt - 1];
      assert Overlaid(n, b, k)[x] == (if x < k then n[x] else b[x]);
      assert Overlaid(n, b, k)[x + cnt - 1] == (if x + cnt - 1 < k then n[x + cnt - 1] else b[x + cnt - 1]);
    }
    if cnt == 0 || x + cnt <= k { assert Overlaid(n, b, k) == n; }
    if cnt == 0 || k <= x { assert Overlaid(n, b, k) == b; }
  }

  /** Every bit set in `b` is set in `f`. */
  ghost predicate Above(f: seq<bool>, b: seq<bool>) {
    |f| == |b| && forall k | 0 <= k < |b| && b[k] :: f[k]
  }

  lemma AboveSelf(b: seq<bool>)
    ensures Above(b, b)
  {
  }

  /** Whatever part of a write gets through, the file marks what the map marks. */
  lemma OverlaidAbove(b: seq<bool>, f: seq<bool>, k: nat)
    requires Above(f, b)
    ensures Above(Overlaid(b, f, k), b)
  {
  }

  /** A map with more sectors marked is above what the old file decodes to where
      the write did not get. */
  lemma OverlaidMore(b: seq<bool>, x: nat, cnt: nat, f: seq<bool>, k: nat)
    requires Above(f, b) && x + cnt <= |b|
    ensures Above(Overlaid(WithRange(b, x, cnt, true), f, k), b)
  {
  }

  lemma OverlaidLess(b: seq<bool>, x: nat, cnt: nat, f: seq<bool>)
    requires Above(f, b) && x + cnt <= |b|
    ensures Above(f, WithRange(b, x, cnt, false))
  {
  }

  lemma OverlaidWhole(b: seq<bool>, f: seq<bool>, bounceOk: bool)
    requires |b| == |f| && MapWritten(|b|, bounceOk)
    ensures Reached(|b|, bounceOk) >= |b| && Overlaid(b, f, Reached(|b|, bounceOk)) == b
  {
  }

  /** `inode_create`'s writes: the inode, then zeros over its extent. */
  method WriteInode(disk: Disk, sector: nat, m: Meta)
    requires Formed(disk.sectors) && sector < |disk.sectors| && Storable(m)
    requires OnDisk(disk.sectors, m.start, m.length) && !InExtent(m, sector)
    modifies disk
    ensures Written(old(disk.sectors), disk.sectors, sector, m)
  {
    disk.Write(sector, InodeSector(m));
    var i, n := 0, SectorsFor(m.length);
    while i < n
      invariant i <= n
      invariant |disk.sectors| == |old(disk.sectors)| && disk.sectors[sector] == InodeSector(m)
      invariant forall k | m.start <= k < m.start + i :: disk.sectors[k] == Zeros(SECTOR)
      invariant forall k | 0 <= k < |disk.sectors| && k != sector && !(m.start <= k < m.start + i) ::
                  disk.sectors[k] == old(disk.sectors)[k]
    {
      disk.Write(m.start + i, Zeros(SECTOR));
      i := i + 1;
    }
  }

  ghost predicate Written(d: Sectors, n: Sectors, sector: nat, m: Meta)
  {
    && |n| == |d| && sector < |d| && Storable(m) && OnDisk(d, m.start, m.length) && n[sector] == InodeSector(m)
    && (forall k | InExtent(m, k) :: n[k] == Zeros(SECTOR))
    && (forall k | 0 <= k < |d| && k != sector && !InExtent(m, k) :: n[k] == d[k])
  }

  lemma WrittenIsZero(d: Sectors, n: Sectors, sector: nat, m: Meta)
    requires Formed(d) && Written(d, n, sector, m) && !InExtent(m, sector)
    ensures Formed(n) && Contents(n, m) == Zeros(m.length)
  {
    assert Formed(n);
    forall k | 0 <= k < m.length ensures Contents(n, m)[k] == 0 {
      PlaceOnDisk(n, m.start, m.length, k);
      assert InExtent(m, m.start + k / SECTOR);
    }
  }

  /** The sectors of the new file were nobody's. */
  lemma WrittenPends(d: Sectors, n: Sectors, b: seq<bool>, open: map<nat, Inode>, files: map<nat, Meta>,
                     sector: nat, m: Meta)
    requires Good(d, b, open, files) && Written(d, n, sector, m) && !InExtent(m, sector)
    requires b[sector] && Nobodys(files, sector)
    requires forall k | InExtent(m, k) :: b[k] && Nobodys(files, k)
    ensures Good(n, b, open, files) && SameFiles(d, n, files, files, {})
    ensures Pending(n, b, files, sector, m) && Contents(n, m) == Zeros(m.length)
  {
    hide OpenOk, DirectoryOk, EntryAt;
    WrittenIsZero(d, n, sector, m);
    ScribblesKeep(d, n, b, open, files);
  }

  /** What the methods need of the invariant at hand. */
  lemma GoodParts(d: Sectors, b: seq<bool>, open: map<nat, Inode>, files: map<nat, Meta>)
    requires Good(d, b, open, files)
    ensures Formed(d) && |b| == |d| < MAX32
    ensures forall s | s in files :: s < |d| && OnDisk(d, files[s].start, files[s].length)
    ensures OpenOk(open, files) && SystemFiles(d, open, files)
    ensures DirectoryOk(Contents(d, files[ROOT_DIR_SECTOR]), open, files)
  {
  }

  /** The file an inode sector describes. */
  lemma InodeOnDisk(d: Sectors, b: seq<bool>, open: map<nat, Inode>, files: map<nat, Meta>, s: nat)
    requires Good(d, b, open, files) && s in files
    ensures s < |d| && |d[s]| == SECTOR && ReadInode(d[s]) == files[s]
  {
    hide OpenOk, DirectoryOk, SystemFiles, ReadInode, InodeSector;
    assert HasFile(d, b, s, files[s]);
    InodeRoundTrip(files[s]);
  }

  /** Where the free-map file is not touched it decodes to the same map. */
  lemma SameMap(d: Sectors, e: Sectors, was: map<nat, Meta>, now: map<nat, Meta>, except: set<nat>)
    requires SameFiles(d, e, was, now, except) && FREE_MAP_SECTOR in was && FREE_MAP_SECTOR in now
    requires FREE_MAP_SECTOR !in except
    ensures var m := was[FREE_MAP_SECTOR];
            && now[FREE_MAP_SECTOR] == m
            && Formed(d) && Formed(e) && OnDisk(d, m.start, m.length) && OnDisk(e, m.start, m.length)
            && Contents(d, m) == Contents(e, m)
  {
  }

  lemma SameFilesSelf(d: Sectors, b: seq<bool>, open: map<nat, Inode>, files: map<nat, Meta>)
    requires Good(d, b, open, files)
    ensures SameFiles(d, d, files, files, {})
  {
    GoodParts(d, b, open, files);
  }

  /** What processes ask for.  Only an opener writes or closes a file. */
  datatype Op =
    | Create(name: seq<Byte>, size: nat, mem: Memory, junk: Entry)
    | Open(name: seq<Byte>, mem: Memory)
    | Remove(name: seq<Byte>, mem: Memory)
    | Write(s: nat, data: seq<Byte>, offset: nat, bounceOk: bool)
    | Close(s: nat, mapOk0: bool, mapOk1: bool)

  /** Every write of the free map on the way is a whole one. */
  ghost predicate Whole(op: Op, bits: nat) {
    match op
    case Create(_, _, mem, _) => MapsWritten(bits, mem)
    case Remove(_, mem) => MapsWritten(bits, mem)
    case Close(_, _, mapOk1) => MapWritten(bits, mapOk1)
    case _ => true
  }

  /** Where the data of a new file would go, once its inode has a place. */
  ghost function DataPlace(b: seq<bool>, size: nat): (r: Found)
    ensures r.At? ==> r.index + SectorsFor(size) <= |b|
  {
    FirstFitIs(b, 0, 1, false);
    var place := FirstFit(b, 0, 1, false);
    if place.NotFound? then NotFound
    else
      var taken := WithRange(b, place.index, 1, true);
      FirstFitIs(taken, 0, SectorsFor(size), false);
      FirstFit(taken, 0, SectorsFor(size), false)
  }

  /** A new file gets a sector for its inode, an inode and sectors for its data. */
  ghost predicate GetsSectors(b: seq<bool>, size: nat, mem: Memory) {
    && FirstFit(b, 0, 1, false).At? && MapWritten(|b|, mem.mapWrite0)
    && mem.inode && MapWritten(|b|, mem.mapWrite1) && DataPlace(b, size).At?
  }

  /** A new name can be entered. */
  ghost predicate CanEnter(c: seq<Byte>, name: seq<Byte>, mem: Memory)
    requires |c| == ENTRIES * ENTRY
  {
    && 0 < |name| <= NAME_MAX && FirstNamed(c, name, 0, Limit(mem.lookupReads)).NotFound?
    && FirstFree(c, 0, Limit(mem.slotReads)) < ENTRIES && mem.entryWrite
  }

  /** The free map after a creation that got its sectors: if it fails later, the
      inode's sector is given back, and the data's are not. */
  ghost predicate MapAfter(b: seq<bool>, n: seq<bool>, size: nat, ok: bool)
    requires FirstFit(b, 0, 1, false).At? && DataPlace(b, size).At?
  {
    var s, x := FirstFit(b, 0, 1, false).index, DataPlace(b, size).index;
    && |n| == |b|
    && forall k | 0 <= k < |b| ::
         n[k] == if k == s then ok else if x <= k < x + SectorsFor(size) then true else b[k]
  }

  /** A new file lies where it should: the sectors that were marked are its own. */
  ghost predicate PlacedAt(b: seq<bool>, files: map<nat, Meta>, s: nat, size: nat) {
    && FirstFit(b, 0, 1, false) == At(s) && DataPlace(b, size).At?
    && s in files && files[s] == Meta(DataPlace(b, size).index, size)
  }

  lemma MapAfterIs(b: seq<bool>, size: nat, ok: bool)
    requires FirstFit(b, 0, 1, false).At? && DataPlace(b, size).At?
    ensures var s, x := FirstFit(b, 0, 1, false).index, DataPlace(b, size).index;
            && s + 1 <= |b| && x + SectorsFor(size) <= |b|
            && FirstFit(WithRange(b, s, 1, true), 0, SectorsFor(size), false) == At(x)
            && var n := WithRange(WithRange(b, s, 1, true), x, SectorsFor(size), true);
               MapAfter(b, if ok then n else WithRange(n, s, 1, false), size, ok)
  {
    hide FirstFit;
    FirstFitIs(b, 0, 1, false);
    var taken := WithRange(b, FirstFit(b, 0, 1, false).index, 1, true);
    FirstFitIs(taken, 0, SectorsFor(size), false);
  }

  ghost predicate Proper(op: Op) {
    op.Create? ==> 0 !in op.name && op.size < MAX_OFF && Writable(op.junk)
  }

  class FileSystem {
    const disk: Disk
    const freeMap: Bitmap
    var open: map<nat, Inode>
    ghost var files: map<nat, Meta>

    constructor (disk: Disk, freeMap: Bitmap, open: map<nat, Inode>, ghost files: map<nat, Meta>)
      ensures this.disk == disk && this.freeMap == freeMap && this.open == open && this.files == files
    {
      this.disk, this.freeMap, this.open, this.files := disk, freeMap, open, files;
    }

    ghost predicate Valid()
      reads this, disk, freeMap.words
    {
      freeMap.Valid() && Good(disk.sectors, freeMap.Bits(), open, files)
    }

    ghost function RootBytes(): (c: seq<Byte>)
      requires Valid()
      reads this, disk, freeMap.words
      ensures |c| == ENTRIES * ENTRY
    {
      GoodParts(disk.sectors, freeMap.Bits(), open, files);
      Contents(disk.sectors, files[ROOT_DIR_SECTOR])
    }

    /** What the free-map file decodes to. */
    ghost function MapFile(): (b: seq<bool>)
      requires Valid()
      reads this, disk, freeMap.words
      ensures |b| == freeMap.bitCnt
    {
      GoodParts(disk.sectors, freeMap.Bits(), open, files);
      FreeMapImage(Contents(disk.sectors, files[FREE_MAP_SECTOR]), freeMap.bitCnt)
    }

    /** The free-map file decodes to the free map. */
    ghost predicate InSync()
      requires Valid()
      reads this, disk, freeMap.words
    {
      MapFile() == freeMap.Bits()
    }

    /** The free-map file marks at least the sectors that the free map marks. */
    ghost predicate Covers()
      requires Valid()
      reads this, disk, freeMap.words
    {
      Above(MapFile(), freeMap.Bits())
    }

    // ----- the free map -----

    /** `bitmap_write` to the free-map file. */
    method WriteFreeMap(bounceOk: bool) returns (ok: bool)
      requires Valid()
      modifies disk
      ensures Valid() && (ok <==> MapWritten(freeMap.bitCnt, bounceOk))
      ensures MapFile() == Overlaid(freeMap.Bits(), old(MapFile()), Reached(freeMap.bitCnt, bounceOk))
      ensures ok ==> InSync()
      ensures SameFiles(old(disk.sectors), disk.sectors, files, files, {FREE_MAP_SECTOR})
    {
      hide Good, Poke, WordsBytes, Contents, Reached, FreeMapImage;
      ghost var d := disk.sectors;
      GoodParts(d, freeMap.Bits(), open, files);
      var image := WordsBytes(freeMap.words[..]);
      var n := WriteAt(disk, open[FREE_MAP_SECTOR], image, |image|, 0, bounceOk);
      ok := n == |image|;
      MapWrite(d, freeMap.Bits(), open, files, image[..n]);
      MapFileWritten(d, freeMap.words[..], freeMap.bitCnt, files[FREE_MAP_SECTOR], bounceOk);
      if ok {
        OverlaidWhole(freeMap.Bits(), old(MapFile()), bounceOk);
      }
    }

    /** The first `cnt` free sectors in a row; a map that cannot be written out
        is put back, and its file is then in step if the sectors lie past what
        was written. */
    method Allocate(cnt: nat, bounceOk: bool) returns (r: Found)
      requires Valid()
      modifies disk, freeMap.words
      ensures Valid()
      ensures r == if MapWritten(freeMap.bitCnt, bounceOk) then FirstFit(old(freeMap.Bits()), 0, cnt, false)
                   else NotFound
      ensures r.At? ==> r.index + cnt <= freeMap.bitCnt && InSync()
      ensures freeMap.Bits() == if r.At? then WithRange(old(freeMap.Bits()), r.index, cnt, true)
                                else old(freeMap.Bits())
      ensures old(InSync()) ==>
                (InSync() <==>
                 || MapWritten(freeMap.bitCnt, bounceOk) || FirstFit(old(freeMap.Bits()), 0, cnt, false).NotFound?
                 || cnt == 0 || Reached(freeMap.bitCnt, bounceOk) <= FirstFit(old(freeMap.Bits()), 0, cnt, false).index)
      ensures old(Covers()) ==> Covers()
      ensures SameFiles(old(disk.sectors), disk.sectors, files, files, {FREE_MAP_SECTOR})
    {
      hide Good, FirstFit, WithRange, SameBytes, Reached, FreeMapImage, Contents, Overlaid, AllAre, Above;
      ghost var d, b := disk.sectors, freeMap.Bits();
      SameFilesSelf(d, b, open, files);
      FirstFitIs(b, 0, cnt, false);
      r := freeMap.ScanAndFlip(0, cnt, false);
      if r.At? {
        MarkKeeps(d, b, open, files, r.index, cnt);
        OverlaidRange(b, r.index, cnt, true, Reached(freeMap.bitCnt, bounceOk));
        var ok := WriteFreeMap(bounceOk);
        AboveSelf(freeMap.Bits());
        if !ok {
          if old(Covers()) { OverlaidMore(b, r.index, cnt, old(MapFile()), Reached(freeMap.bitCnt, bounceOk)); }
          freeMap.SetMultiple(r.index, cnt, false);
          MarkedThenFreed(b, r.index, cnt);
          ghost var e := disk.sectors;
          FreshRangeIsNobodys(d, b, open, files, r.index, cnt);
          ReleaseKeeps(e, WithRange(b, r.index, cnt, true), open, files, r.index, cnt);
          r := NotFound;
        }
      }
    }

    /** Sectors given back; they must all be in use. */
    method Release(sector: nat, cnt: nat, bounceOk: bool)
      requires Valid() && sector + cnt <= freeMap.bitCnt
      requires AllAre(freeMap.Bits(), sector, cnt, true)
      requires forall k | sector <= k < sector + cnt :: Nobodys(files, k)
      modifies disk, freeMap.words
      ensures Valid() && freeMap.Bits() == WithRange(old(freeMap.Bits()), sector, cnt, false)
      ensures MapWritten(freeMap.bitCnt, bounceOk) ==> InSync()
      ensures old(InSync()) ==>
                (InSync() <==>
                 || MapWritten(freeMap.bitCnt, bounceOk)
                 || cnt == 0 || sector + cnt <= Reached(freeMap.bitCnt, bounceOk))
      ensures old(Covers()) ==> Covers()
      ensures SameFiles(old(disk.sectors), disk.sectors, files, files, {FREE_MAP_SECTOR})
    {
      hide Good, WithRange, SameBytes, Reached, FreeMapImage, Contents, Overlaid, Above;
      ghost var b, f := freeMap.Bits(), MapFile();
      ReleaseKeeps(disk.sectors, freeMap.Bits(), open, files, sector, cnt);
      OverlaidRange(freeMap.Bits(), sector, cnt, false, Reached(freeMap.bitCnt, bounceOk));
      freeMap.SetMultiple(sector, cnt, false);
      if Above(f, b) {
        OverlaidLess(b, sector, cnt, f);
        OverlaidAbove(freeMap.Bits(), f, Reached(freeMap.bitCnt, bounceOk));
      }
      var _ := WriteFreeMap(bounceOk);
    }

    // ----- inodes -----

    /** A new file's inode at `sector` and zeros in its extent. */
    method InodeCreate(sector: nat, length: nat, callocOk: bool, mapOk: bool) returns (ok: bool, ghost m: Meta)
      requires Valid() && length < MAX_OFF
      requires sector < freeMap.bitCnt && freeMap.Bits()[sector] && Nobodys(files, sector)
      modifies disk, freeMap.words
      ensures Valid()
      ensures ok <==> callocOk && MapWritten(freeMap.bitCnt, mapOk)
                      && FirstFit(old(freeMap.Bits()), 0, SectorsFor(length), false).At?
      ensures freeMap.Bits()[sector]
      ensures !ok ==> freeMap.Bits() == old(freeMap.Bits())
      ensures ok ==> && FirstFit(old(freeMap.Bits()), 0, SectorsFor(length), false) == At(m.start)
                     && m.start + SectorsFor(length) <= freeMap.bitCnt
                     && freeMap.Bits() == WithRange(old(freeMap.Bits()), m.start, SectorsFor(length), true)
      ensures MapWritten(freeMap.bitCnt, mapOk) && old(InSync()) ==> InSync()
      ensures old(Covers()) ==> Covers()
      ensures ok ==> Pending(disk.sectors, freeMap.Bits(), files, sector, m) && m.length == length
                     && Contents(disk.sectors, m) == Zeros(length)
      ensures SameFiles(old(disk.sectors), disk.sectors, files, files, {FREE_MAP_SECTOR})
    {
      hide Good, SameBytes, Pending, Contents, Reached, FreeMapImage, FirstFit, WithRange, SectorsFor, MapWritten,
           Above;
      ghost var d, b := disk.sectors, freeMap.Bits();
      SameFilesSelf(d, b, open, files);
      GoodParts(d, b, open, files);
      ok := false;
      m := Meta(0, 0);
      if callocOk {
        var sectors := SectorsFor(length);
        var r := Allocate(sectors, mapOk);
        if r.At? {
          FirstFitIs(b, 0, sectors, false);
          MarkedRange(b, r.index, sectors);
          FreshRangeIsNobodys(d, b, open, files, r.index, sectors);
          var meta := Meta(r.index, length);
          ghost var e := disk.sectors;
          GoodParts(e, freeMap.Bits(), open, files);
          WriteInode(disk, sector, meta);
          WrittenPends(e, disk.sectors, freeMap.Bits(), open, files, sector, meta);
          SameFilesTrans(d, e, disk.sectors, files);
          SameMap(e, disk.sectors, files, files, {});
          m, ok := meta, true;
        }
      }
    }

    /** The inode of a file, shared by all who have it open. */
    method InodeOpen(s: nat, mallocOk: bool) returns (ok: bool)
      requires Valid() && s in files
      modifies this`open
      ensures Valid() && (ok <==> s in old(open) || mallocOk)
      ensures open == if ok then Opened(old(open), s, files[s]) else old(open)
    {
      hide Good, ReadInode;
      GoodParts(disk.sectors, freeMap.Bits(), open, files);
      ok := true;
      if s in open {
        OpenKeeps(disk.sectors, freeMap.Bits(), open, files, s, open[s].(openCnt := open[s].openCnt + 1));
        open := open[s := open[s].(openCnt := open[s].openCnt + 1)];
      } else if !mallocOk {
        ok := false;
      } else {
        InodeOnDisk(disk.sectors, freeMap.Bits(), open, files, s);
        var block := disk.Read(s);
        var m := ReadInode(block);
        OpenKeeps(disk.sectors, freeMap.Bits(), open, files, s, Inode(m.start, m.length, 1, false, 0));
        open := open[s := Inode(m.start, m.length, 1, false, 0)];
      }
    }

    /** One opener less.  The last one takes a file that is no longer listed with
        it, and gives its sectors back if it was removed. */
    method InodeClose(s: nat, mapOk0: bool, mapOk1: bool)
      requires Valid() && s in open && (s == FREE_MAP_SECTOR ==> open[s].openCnt >= 2)
      modifies this, disk, freeMap.words
      ensures Valid() && s in old(files) && old(open[s].openCnt) >= 1
      ensures open == Closed(old(open), s)
      ensures files == if old(open[s].openCnt) == 1 && s >= 2 && !Listed(old(RootBytes()), s) then old(files) - {s}
                       else old(files)
      ensures if old(open[s].openCnt) == 1 && old(open[s].removed)
              then Freed(old(freeMap.Bits()), freeMap.Bits(), s, old(files)[s])
              else disk.sectors == old(disk.sectors) && freeMap.Bits() == old(freeMap.Bits())
      ensures RootBytes() == old(RootBytes())
      ensures MapWritten(freeMap.bitCnt, mapOk1) && old(InSync()) ==> InSync()
      ensures old(Covers()) ==> Covers()
      ensures SameFiles(old(disk.sectors), disk.sectors, old(files), files, {FREE_MAP_SECTOR})
    {
      hide Good, SameBytes, WithRange, Listed, Contents, FreeMapImage, MapWritten, Above;
      ghost var d, b, o, f := disk.sectors, freeMap.Bits(), open, files;
      SameFilesSelf(d, b, open, files);
      GoodParts(d, b, open, files);
      var inode := open[s];
      if inode.removed { RemovedIsUnlisted(d, b, open, files, s); }
      if inode.openCnt > 1 {
        OpenKeeps(d, b, open, files, s, inode.(openCnt := inode.openCnt - 1));
        open := open[s := inode.(openCnt := inode.openCnt - 1)];
        return;
      }
      open := open - {s};
      if s == ROOT_DIR_SECTOR || Listed(old(RootBytes()), s) {
        CloseKeeps(d, b, o, f, s);
      } else {
        VanishKeeps(d, b, o, f, s);
        files := files - {s};
      }
      if inode.removed {
        LeftBehindNow(d, b, o, f, s);
        ReleaseFile(s, inode.start, inode.length, mapOk0, mapOk1);
        SameFilesFewer(d, disk.sectors, f, s);
      }
    }

    /** The inode sector and the extent of a file that is gone given back. */
    method ReleaseFile(s: nat, start: nat, length: nat, mapOk0: bool, mapOk1: bool)
      requires Valid() && s + 1 <= freeMap.bitCnt && start + SectorsFor(length) <= freeMap.bitCnt
      requires AllAre(freeMap.Bits(), s, 1, true) && Nobodys(files, s)
      requires AllAre(WithRange(freeMap.Bits(), s, 1, false), start, SectorsFor(length), true)
      requires forall k | start <= k < start + SectorsFor(length) :: Nobodys(files, k)
      modifies disk, freeMap.words
      ensures Valid()
      ensures freeMap.Bits() == WithRange(WithRange(old(freeMap.Bits()), s, 1, false), start, SectorsFor(length), false)
      ensures RootBytes() == old(RootBytes())
      ensures MapWritten(freeMap.bitCnt, mapOk1) ==> InSync()
      ensures old(Covers()) ==> Covers()
      ensures SameFiles(old(disk.sectors), disk.sectors, files, files, {FREE_MAP_SECTOR})
    {
      hide Good, SameBytes, WithRange, Contents, SectorsFor, FreeMapImage, Reached, MapWritten, Above;
      ghost var d, b := disk.sectors, freeMap.Bits();
      GoodParts(d, b, open, files);
      Release(s, 1, mapOk0);
      ghost var e := disk.sectors;
      Release(start, SectorsFor(length), mapOk1);
      SameFilesTrans(d, e, disk.sectors, files);
      SameRoot(d, disk.sectors, files);
    }

    // ----- the root directory -----

    /** Entry `i` through a buffer; past the last entry nothing is read. */
    method ReadEntry(i: nat, bounceOk: bool) returns (ok: bool, e: Entry)
      requires Valid() && ROOT_DIR_SECTOR in open && i <= ENTRIES
      ensures ok <==> bounceOk && i < ENTRIES
      ensures ok ==> e == EntryAt(RootBytes(), i)
    {
      hide Good, Transferred, Contents, ToEntry, DirectoryOk;
      GoodParts(disk.sectors, freeMap.Bits(), open, files);
      var buffer := new Byte[ENTRY];
      var n := ReadAt(disk, open[ROOT_DIR_SECTOR], buffer, ENTRY, i * ENTRY, bounceOk);
      EntryTransfer(i, bounceOk);
      ok := n == ENTRY;
      e := ToEntry(buffer[..]);
      if ok {
        EntryFilled(disk.sectors, files[ROOT_DIR_SECTOR], i, buffer[..]);
      }
    }

    /** The search for a name, entry by entry, as long as the reads succeed. */
    method Lookup(name: seq<Byte>, okReads: nat) returns (r: Found, e: Entry)
      requires Valid() && ROOT_DIR_SECTOR in open
      ensures r == FirstNamed(RootBytes(), name, 0, Limit(okReads))
      ensures r.At? ==> r.index < ENTRIES && e == EntryAt(RootBytes(), r.index)
    {
      hide Good, EntryAt, CString;
      var i := 0;
      var ok;
      ok, e := ReadEntry(i, i < okReads);
      while ok
        invariant i <= ENTRIES && (ok <==> i < Limit(okReads)) && (ok ==> e == EntryAt(RootBytes(), i))
        invariant FirstNamed(RootBytes(), name, 0, Limit(okReads)) == FirstNamed(RootBytes(), name, i, Limit(okReads))
        decreases ENTRIES - i
      {
        if e.inUse && CString(e.name) == name {
          return At(i), e;
        }
        i := i + 1;
        ok, e := ReadEntry(i, i < okReads);
      }
      r := NotFound;
    }

    /** The slot for a new entry: the first free one, or where the reads ended.
        The buffer holds the last entry read, or what memory held before. */
    method FindSlot(okReads: nat, junk: Entry) returns (i: nat, e: Entry)
      requires Valid() && ROOT_DIR_SECTOR in open && Writable(junk)
      ensures i == FirstFree(RootBytes(), 0, Limit(okReads)) && Writable(e)
    {
      hide Good, EntryAt;
      i, e := 0, junk;
      while true
        invariant i <= Limit(okReads) && Writable(e)
        invariant FirstFree(RootBytes(), 0, Limit(okReads)) == FirstFree(RootBytes(), i, Limit(okReads))
        decreases ENTRIES - i
      {
        var ok, next := ReadEntry(i, i < okReads);
        if !ok {
          return;
        }
        e := next;
        if !e.inUse {
          return;
        }
        i := i + 1;
      }
    }

    /** An entry written to the directory; it is written whole or not at all. */
    method WriteEntry(i: nat, e: Entry, bounceOk: bool) returns (ok: bool)
      requires Valid() && ROOT_DIR_SECTOR in open && i <= ENTRIES && Writable(e)
      modifies disk
      ensures ok <==> bounceOk && i < ENTRIES
      ensures Formed(old(disk.sectors))
      ensures disk.sectors == if ok then RootAfter(old(disk.sectors), files[ROOT_DIR_SECTOR], i, e)
                              else old(disk.sectors)
    {
      hide Good, Transferred, Contents, EntryBytes, Poke, DirectoryOk;
      GoodParts(disk.sectors, freeMap.Bits(), open, files);
      var image := EntryBytes(e);
      PokeNothing(disk.sectors, files[ROOT_DIR_SECTOR].start, i * ENTRY);
      var n := WriteAt(disk, open[ROOT_DIR_SECTOR], image, ENTRY, i * ENTRY, bounceOk);
      EntryTransfer(i, bounceOk);
      ok := n == ENTRY;
      assert image[..ENTRY] == image && image[..0] == [];
    }

    /** A file entered under a new name. */
    method DirAdd(name: seq<Byte>, s: nat, ghost m: Meta, mem: Memory, junk: Entry) returns (ok: bool, ghost i: nat)
      requires Valid() && ROOT_DIR_SECTOR in open && 0 !in name && Writable(junk)
      requires Pending(disk.sectors, freeMap.Bits(), files, s, m)
      modifies disk, this`files
      ensures Valid()
      ensures i == FirstFree(old(RootBytes()), 0, Limit(mem.slotReads))
      ensures ok <==> 0 < |name| <= NAME_MAX
                      && FirstNamed(old(RootBytes()), name, 0, Limit(mem.lookupReads)).NotFound?
                      && i < ENTRIES && mem.entryWrite
      ensures ok ==> && EntryAt(RootBytes(), i).inUse && EntryAt(RootBytes(), i).sector == s
                     && CString(EntryAt(RootBytes(), i).name) == name
                     && Replaced(old(RootBytes()), RootBytes(), i, EntryAt(RootBytes(), i))
                     && files == Entered(old(RootBytes()), open, old(files), i, s, m)
      ensures !ok ==> disk.sectors == old(disk.sectors) && files == old(files)
      ensures SameFiles(old(disk.sectors), disk.sectors, old(files), files, {ROOT_DIR_SECTOR})
      ensures SameBytes(old(disk.sectors), disk.sectors, m) && MapFile() == old(MapFile())
    {
      hide Good, Pending, Contents, EntryAt, CString, FirstNamed, FirstFree, RootAfter, SameBytes, FreeMapImage;
      ghost var d, b, c := disk.sectors, freeMap.Bits(), RootBytes();
      SameFilesSelf(d, b, open, files);
      PendingInRange(d, b, open, files, s, m);
      ok := false;
      i := FirstFree(c, 0, Limit(mem.slotReads));
      if name == [] || |name| > NAME_MAX {
        return;
      }
      var found, _ := Lookup(name, mem.lookupReads);
      if found.At? {
        return;
      }
      var slot, e := FindSlot(mem.slotReads, junk);
      e := Entry(s, NameField(name, e.name), true);
      ok := WriteEntry(slot, e, mem.entryWrite);
      if ok {
        NameFieldHolds(name, e.name);
        Enters(d, b, open, files, slot, e, m);
        GoodParts(d, b, open, files);
        files := Entered(c, open, files, slot, s, m);
        GoodParts(disk.sectors, b, open, files);
        SameMap(d, disk.sectors, old(files), files, {ROOT_DIR_SECTOR});
      }
    }

    /** `dir_open_root`: the root's inode and a handle for it. */
    method OpenRoot(mem: Memory) returns (ok: bool)
      requires Valid()
      modifies this, disk, freeMap.words
      ensures Valid() && files == old(files)
      ensures disk.sectors == old(disk.sectors) && freeMap.Bits() == old(freeMap.Bits())
      ensures ok <==> (ROOT_DIR_SECTOR in old(open) || mem.rootInode) && mem.dir
      ensures ROOT_DIR_SECTOR in files
      ensures open == if ok then Opened(old(open), ROOT_DIR_SECTOR, files[ROOT_DIR_SECTOR]) else old(open)
    {
      hide Good, SameFiles, Listed;
      GoodParts(disk.sectors, freeMap.Bits(), open, files);
      ok := InodeOpen(ROOT_DIR_SECTOR, mem.rootInode);
      if ok && !mem.dir {
        GoodParts(disk.sectors, freeMap.Bits(), open, files);
        OpenThenClose(old(open), ROOT_DIR_SECTOR, files[ROOT_DIR_SECTOR]);
        InodeClose(ROOT_DIR_SECTOR, true, true);
        ok := false;
      }
    }

    /** `dir_close` on the handle that `OpenRoot` gave. */
    method CloseRoot(ghost before: map<nat, Inode>)
      requires Valid() && ROOT_DIR_SECTOR in files
      requires ROOT_DIR_SECTOR in before ==> before[ROOT_DIR_SECTOR].openCnt >= 1
      requires open == Opened(before, ROOT_DIR_SECTOR, files[ROOT_DIR_SECTOR])
      modifies this, disk, freeMap.words
      ensures Valid() && open == before && files == old(files)
      ensures disk.sectors == old(disk.sectors) && freeMap.Bits() == old(freeMap.Bits())
    {
      hide Good, SameFiles, Listed;
      GoodParts(disk.sectors, freeMap.Bits(), open, files);
      OpenThenClose(before, ROOT_DIR_SECTOR, files[ROOT_DIR_SECTOR]);
      InodeClose(ROOT_DIR_SECTOR, true, true);
    }

    // ----- operations on named files -----

    /** `FilesysCreate` once it has a sector for the inode.  If the rest fails, that
        sector is given back, but not the extent. */
    method CreateAt(s: nat, name: seq<Byte>, size: nat, mem: Memory, junk: Entry) returns (ok: bool, ghost i: nat)
      requires Valid() && ROOT_DIR_SECTOR in open && 0 !in name && size < MAX_OFF && Writable(junk)
      requires s < freeMap.bitCnt && freeMap.Bits()[s] && Nobodys(files, s)
      modifies disk, freeMap.words, this`files
      ensures Valid() && ROOT_DIR_SECTOR in old(files)
      ensures ROOT_DIR_SECTOR in files && files[ROOT_DIR_SECTOR] == old(files[ROOT_DIR_SECTOR])
      ensures var b := old(freeMap.Bits());
              var place := FirstFit(b, 0, SectorsFor(size), false);
              var got := mem.inode && MapWritten(freeMap.bitCnt, mem.mapWrite1) && place.At?;
              && (ok <==> got && CanEnter(old(RootBytes()), name, mem))
              && (got ==> place.index + SectorsFor(size) <= |b|)
              && var n := if got then WithRange(b, place.index, SectorsFor(size), true) else b;
                 freeMap.Bits() == if ok then n else WithRange(n, s, 1, false)
      ensures ok ==> s in files && files[s] == Meta(FirstFit(old(freeMap.Bits()), 0, SectorsFor(size), false).index, size)
      ensures ok ==> Created(old(RootBytes()), RootBytes(), disk.sectors, old(files), files, name, size, mem, s, i)
      ensures ok ==> files == Entered(old(RootBytes()), open, old(files), i, s, files[s])
      ensures !ok ==> files == old(files) && RootBytes() == old(RootBytes())
      ensures MapsWritten(freeMap.bitCnt, mem) && old(InSync()) ==> InSync()
      ensures old(Covers()) ==> Covers()
      ensures SameFiles(old(disk.sectors), disk.sectors, old(files), files, {FREE_MAP_SECTOR, ROOT_DIR_SECTOR})
    {
      hide Good, Pending, Contents, EntryAt, CString, FirstNamed, FirstFree, SameBytes, Replaced, Entered, FirstFit,
           WithRange, FreeMapImage, Reached, MapWritten, SectorsFor, Above;
      ghost var d, f := disk.sectors, files;
      GoodParts(d, freeMap.Bits(), open, files);
      ghost var m;
      ok, m := InodeCreate(s, size, mem.inode, mem.mapWrite1);
      ghost var e := disk.sectors;
      SameRoot(d, e, files);
      i := 0;
      if ok {
        ok, i := DirAdd(name, s, m, mem, junk);
        SameFilesBoth(d, e, disk.sectors, f, files);
      }
      if !ok {
        ghost var e', b := disk.sectors, freeMap.Bits();
        Release(s, 1, mem.mapWrite2);
        SameFilesTrans(d, e', disk.sectors, files);
        SameRoot(d, disk.sectors, files);
      } else {
        CreatedIs(old(RootBytes()), RootBytes(), e, disk.sectors, open, f, files, name, size, mem, s, i, m);
      }
    }

    method CreateInRoot(name: seq<Byte>, size: nat, mem: Memory, junk: Entry)
        returns (ok: bool, ghost s: nat, ghost i: nat)
      requires Valid() && ROOT_DIR_SECTOR in open && 0 !in name && size < MAX_OFF && Writable(junk)
      modifies disk, freeMap.words, this`files
      ensures Valid() && ROOT_DIR_SECTOR in old(files)
      ensures ROOT_DIR_SECTOR in files && files[ROOT_DIR_SECTOR] == old(files[ROOT_DIR_SECTOR])
      ensures ok <==> GetsSectors(old(freeMap.Bits()), size, mem) && CanEnter(old(RootBytes()), name, mem)
      ensures if GetsSectors(old(freeMap.Bits()), size, mem) then MapAfter(old(freeMap.Bits()), freeMap.Bits(), size, ok)
              else freeMap.Bits() == old(freeMap.Bits())
      ensures ok ==> PlacedAt(old(freeMap.Bits()), files, s, size)
      ensures ok ==> Created(old(RootBytes()), RootBytes(), disk.sectors, old(files), files, name, size, mem, s, i)
      ensures ok ==> files == Entered(old(RootBytes()), open, old(files), i, s, files[s])
      ensures !ok ==> files == old(files) && RootBytes() == old(RootBytes())
      ensures MapsWritten(freeMap.bitCnt, mem) && old(InSync()) ==> InSync()
      ensures old(Covers()) ==> Covers()
      ensures SameFiles(old(disk.sectors), disk.sectors, old(files), files, {FREE_MAP_SECTOR, ROOT_DIR_SECTOR})
    {
      hide Good, Contents, SameFiles, Created, FirstFit, WithRange, Nobodys, CanEnter, FreeMapImage, Reached, MapWritten,
           DataPlace, MapAfter, SectorsFor, Above;
      ghost var d, b, f := disk.sectors, freeMap.Bits(), files;
      GoodParts(d, b, open, files);
      ok, s, i := false, 0, 0;
      PlaceIs(b, size);
      var r := Allocate(1, mem.mapWrite0);
      ghost var e := disk.sectors;
      GoodParts(e, freeMap.Bits(), open, files);
      SameRoot(d, e, files);
      SameFilesExcept(d, e, files, files);
      if r.At? {
        FirstFitIs(b, 0, 1, false);
        MarkedAt(b, r.index);
        MarkedThenFreed(b, r.index, 1);
        FreshRangeIsNobodys(d, b, open, files, r.index, 1);
        s := r.index;
        ok, i := CreateAt(r.index, name, size, mem, junk);
        if DataPlace(b, size).At? { MapAfterIs(b, size, ok); }
        SameFilesBoth(d, e, disk.sectors, f, files);
      }
    }

    /** A file of zeros under a new name.  On failure the files and the directory are as
        they were. */
    method FilesysCreate(name: seq<Byte>, size: nat, mem: Memory, junk: Entry)
        returns (ok: bool, ghost s: nat, ghost i: nat)
      requires Valid() && 0 !in name && size < MAX_OFF && Writable(junk)
      modifies this, disk, freeMap.words
      ensures Valid() && open == old(open)
      ensures var root := (ROOT_DIR_SECTOR in old(open) || mem.rootInode) && mem.dir;
              var b := old(freeMap.Bits());
              && (ok <==> root && GetsSectors(b, size, mem) && CanEnter(old(RootBytes()), name, mem))
              && (if root && GetsSectors(b, size, mem) then MapAfter(b, freeMap.Bits(), size, ok) else freeMap.Bits() == b)
              && (ok ==> PlacedAt(b, files, s, size))
      ensures ok ==> Created(old(RootBytes()), RootBytes(), disk.sectors, old(files), files, name, size, mem, s, i)
      ensures ok ==> files == Entered(old(RootBytes()), open, old(files), i, s, files[s])
      ensures !ok ==> files == old(files) && RootBytes() == old(RootBytes())
      ensures MapsWritten(freeMap.bitCnt, mem) && old(InSync()) ==> InSync()
      ensures old(Covers()) ==> Covers()
      ensures SameFiles(old(disk.sectors), disk.sectors, old(files), files, {FREE_MAP_SECTOR, ROOT_DIR_SECTOR})
    {
      hide Good, Contents, SameFiles, Created, FirstFit, Opened, CanEnter, GetsSectors, MapAfter, PlacedAt, FreeMapImage,
           MapsWritten, Above;
      ghost var d, b := disk.sectors, freeMap.Bits();
      GoodParts(d, b, open, files);
      SameFilesSelf(d, b, open, files);
      SameFilesExcept(d, d, files, files);
      ok, s, i := false, 0, 0;
      var rootOk := OpenRoot(mem);
      if rootOk {
        RootIsOpen(old(open), files[ROOT_DIR_SECTOR]);
        ghost var f := files;
        ok, s, i := CreateInRoot(name, size, mem, junk);
        if ok {
          CreatedParts(old(RootBytes()), RootBytes(), disk.sectors, f, files, name, size, mem, s, i);
          EnteredUnderRoot(old(RootBytes()), old(open), f, i, s, files[s], f[ROOT_DIR_SECTOR]);
        }
        CloseRoot(old(open));
      }
    }

    /** The inode of a named file. */
    method FilesysOpen(name: seq<Byte>, mem: Memory) returns (r: Found)
      requires Valid()
      modifies this, disk, freeMap.words
      ensures Valid() && files == old(files)
      ensures disk.sectors == old(disk.sectors) && freeMap.Bits() == old(freeMap.Bits())
      ensures r == OpenResult(RootBytes(), old(open), name, mem)
      ensures r.At? ==> r.index >= 2 && r.index in files && open == Opened(old(open), r.index, files[r.index])
      ensures r.NotFound? ==> open == old(open)
    {
      hide Good, Contents, SameFiles, Opened, EntryAt, FirstNamed, Listed, Freed;
      GoodParts(disk.sectors, freeMap.Bits(), open, files);
      r := NotFound;
      var rootOk := OpenRoot(mem);
      if !rootOk {
        return;
      }
      RootIsOpen(old(open), files[ROOT_DIR_SECTOR]);
      var found, e := Lookup(name, mem.lookupReads);
      var ok := false;
      if found.At? {
        FirstNamedIs(RootBytes(), name, 0, Limit(mem.lookupReads));
        GoodParts(disk.sectors, freeMap.Bits(), open, files);
        OpenedStill(old(open), e.sector, files[e.sector], files[ROOT_DIR_SECTOR]);
        ok := InodeOpen(e.sector, mem.inode);
      }
      if ok {
        CloseRoot(Opened(old(open), e.sector, files[e.sector]));
        ok := FileOpen(e.sector, found.index, old(open), mem.file);
        if ok {
          r := At(e.sector);
        }
      } else {
        CloseRoot(old(open));
      }
    }

    /** `file_open`: a handle for an opened inode, or its closing. */
    method FileOpen(s: nat, ghost i: nat, ghost before: map<nat, Inode>, fileOk: bool) returns (ok: bool)
      requires Valid() && s in files && open == Opened(before, s, files[s])
      requires s in before ==> before[s].openCnt >= 1
      requires i < ENTRIES && EntryAt(RootBytes(), i).inUse && EntryAt(RootBytes(), i).sector == s
      modifies this, disk, freeMap.words
      ensures Valid() && files == old(files) && ok == fileOk
      ensures disk.sectors == old(disk.sectors) && freeMap.Bits() == old(freeMap.Bits())
      ensures open == if ok then old(open) else before
    {
      hide Good, Contents, SameFiles, EntryAt, Freed;
      ok := fileOk;
      if !ok {
        GoodParts(disk.sectors, freeMap.Bits(), open, files);
        OpenThenClose(before, s, files[s]);
        assert Listed(RootBytes(), s);
        InodeClose(s, true, true);
      }
    }

    /** An entry erased and its file marked removed.  The file goes now, unless
        someone has it open. */
    method RemoveInRoot(name: seq<Byte>, mem: Memory) returns (ok: bool, ghost s: nat, ghost i: nat)
      requires Valid() && ROOT_DIR_SECTOR in open
      modifies this, disk, freeMap.words
      ensures Valid() && ROOT_DIR_SECTOR in old(files)
      ensures ROOT_DIR_SECTOR in files && files[ROOT_DIR_SECTOR] == old(files[ROOT_DIR_SECTOR])
      ensures ok <==> (var found := FirstNamed(old(RootBytes()), name, 0, Limit(mem.lookupReads));
                       found.At? && found.index < ENTRIES
                       && (EntryAt(old(RootBytes()), found.index).sector in old(open) || mem.inode) && mem.entryWrite)
      ensures ok ==> FirstNamed(old(RootBytes()), name, 0, Limit(mem.lookupReads)) == At(i) && s >= 2
      ensures ok ==> Removed(old(RootBytes()), RootBytes(), old(open), open, old(files), files,
                             old(freeMap.Bits()), freeMap.Bits(), s, i)
      ensures !ok ==> && open == old(open) && files == old(files)
                      && disk.sectors == old(disk.sectors) && freeMap.Bits() == old(freeMap.Bits())
      ensures MapsWritten(freeMap.bitCnt, mem) && old(InSync()) ==> InSync()
      ensures old(Covers()) ==> Covers()
      ensures SameFiles(old(disk.sectors), disk.sectors, old(files), files, {FREE_MAP_SECTOR, ROOT_DIR_SECTOR})
    {
      hide Good, Contents, SameFiles, Opened, EntryAt, FirstNamed, Freed, RootAfter, Listed, FreeMapImage, MapWritten,
           Above;
      ghost var d, b, o, f, c := disk.sectors, freeMap.Bits(), open, files, RootBytes();
      GoodParts(d, b, open, files);
      SameFilesSelf(d, b, open, files);
      SameFilesExcept(d, d, files, files);
      ok, s, i := false, 0, 0;
      var found, e := Lookup(name, mem.lookupReads);
      if found.NotFound? {
        return;
      }
      FirstNamedIs(c, name, 0, Limit(mem.lookupReads));
      s, i := e.sector, found.index;
      OpenedStill(o, s, f[s], f[ROOT_DIR_SECTOR]);
      ok := InodeOpen(e.sector, mem.inode);
      if !ok {
        return;
      }
      ok := WriteEntry(found.index, e.(inUse := false), mem.entryWrite);
      if !ok {
        var _ := FileOpen(e.sector, found.index, o, false);
        return;
      }
      Erases(d, b, open, files, found.index);
      open := open[e.sector := open[e.sector].(removed := true)];
      ghost var d', n := disk.sectors, RootBytes();
      GoodParts(d', b, open, files);
      SameMap(d, d', f, f, {ROOT_DIR_SECTOR});
      RemovedThenClosed(o, s, f[s]);
      InodeClose(e.sector, mem.mapWrite0, mem.mapWrite1);
      SameFilesAfter(d, d', disk.sectors, f, files);
    }

    /** A named file removed. */
    method FilesysRemove(name: seq<Byte>, mem: Memory) returns (ok: bool, ghost s: nat, ghost i: nat)
      requires Valid()
      modifies this, disk, freeMap.words
      ensures Valid()
      ensures ok <==> (var found := FirstNamed(old(RootBytes()), name, 0, Limit(mem.lookupReads));
                       && (ROOT_DIR_SECTOR in old(open) || mem.rootInode) && mem.dir
                       && found.At? && found.index < ENTRIES
                       && (EntryAt(old(RootBytes()), found.index).sector in old(open) || mem.inode) && mem.entryWrite)
      ensures ok ==> FirstNamed(old(RootBytes()), name, 0, Limit(mem.lookupReads)) == At(i)
      ensures ok ==> Removed(old(RootBytes()), RootBytes(), old(open), open, old(files), files,
                             old(freeMap.Bits()), freeMap.Bits(), s, i)
      ensures !ok ==> && open == old(open) && files == old(files)
                      && disk.sectors == old(disk.sectors) && freeMap.Bits() == old(freeMap.Bits())
      ensures MapsWritten(freeMap.bitCnt, mem) && old(InSync()) ==> InSync()
      ensures old(Covers()) ==> Covers()
      ensures SameFiles(old(disk.sectors), disk.sectors, old(files), files, {FREE_MAP_SECTOR, ROOT_DIR_SECTOR})
    {
      hide Good, Contents, SameFiles, Opened, EntryAt, FirstNamed, Freed, Listed, FreeMapImage, MapsWritten, Above;
      GoodParts(disk.sectors, freeMap.Bits(), open, files);
      ghost var o, root := open, files[ROOT_DIR_SECTOR];
      SameFilesSelf(disk.sectors, freeMap.Bits(), open, files);
      SameFilesExcept(disk.sectors, disk.sectors, files, files);
      ok, s, i := false, 0, 0;
      var rootOk := OpenRoot(mem);
      if !rootOk {
        return;
      }
      RootIsOpen(o, root);
      forall t | t != ROOT_DIR_SECTOR ensures t in Opened(o, ROOT_DIR_SECTOR, root) <==> t in o {
        OpenedStill(o, t, root, root);
      }
      FirstNamedIs(RootBytes(), name, 0, Limit(mem.lookupReads));
      ok, s, i := RemoveInRoot(name, mem);
      ghost var after := o;
      if ok && s in o {
        RemovedUnderRoot(o, s, root);
        after := o[s := o[s].(removed := true)];
      }
      CloseRoot(after);
    }

    /** Data written to an open file. */
    method FileWriteAt(s: nat, buffer: seq<Byte>, size: int, offset: nat, bounceOk: bool) returns (n: nat)
      requires Valid() && s in open && s >= 2 && size <= |buffer|
      modifies disk
      ensures Valid() && RootBytes() == old(RootBytes()) && s in files
      ensures n == if open[s].denyWriteCnt > 0 then 0 else Transferred(files[s].length, size, offset, bounceOk)
      ensures n > 0 ==> n <= |buffer| && offset + n <= files[s].length
      ensures n > 0 ==> && Formed(disk.sectors) && Formed(old(disk.sectors))
                        && OnDisk(disk.sectors, files[s].start, files[s].length)
                        && OnDisk(old(disk.sectors), files[s].start, files[s].length)
                        && (var c := Contents(old(disk.sectors), files[s]);
                            Contents(disk.sectors, files[s]) == c[..offset] + buffer[..n] + c[offset + n..])
      ensures n == 0 ==> disk.sectors == old(disk.sectors)
      ensures MapFile() == old(MapFile())
      ensures SameFiles(old(disk.sectors), disk.sectors, files, files, {s})
    {
      hide Good, Contents, SameFiles, Poke, Transferred, FreeMapImage;
      ghost var d := disk.sectors;
      GoodParts(d, freeMap.Bits(), open, files);
      SameFilesSelf(d, freeMap.Bits(), open, files);
      n := WriteAt(disk, open[s], buffer, size, offset, bounceOk);
      if n == 0 {
        assert buffer[..n] == [];
        PokeNothing(d, files[s].start, offset);
        SameFilesBut(d, files, s);
      } else {
        FileWritten(d, freeMap.Bits(), open, files, s, offset, buffer[..n]);
        SameMap(d, disk.sectors, files, files, {s});
      }
    }

    /** Data read from an open file. */
    method FileReadAt(s: nat, buffer: array<Byte>, size: int, offset: nat, bounceOk: bool) returns (n: nat)
      requires Valid() && s in open && size <= buffer.Length
      modifies buffer
      ensures Valid() && s in files && Formed(disk.sectors) && OnDisk(disk.sectors, files[s].start, files[s].length)
      ensures n == Transferred(files[s].length, size, offset, bounceOk)
      ensures n > 0 ==> n <= buffer.Length && offset + n <= files[s].length
      ensures buffer[..] == Filled(old(buffer[..]), Contents(disk.sectors, files[s]), offset, n)
    {
      hide Good, Transferred, FileBytes, Filled;
      GoodParts(disk.sectors, freeMap.Bits(), open, files);
      n := ReadAt(disk, open[s], buffer, size, offset, bounceOk);
    }

    /** Writes denied by one more opener. */
    method InodeDeny(s: nat)
      requires Valid() && s in open && s >= 2 && open[s].denyWriteCnt < open[s].openCnt
      modifies this`open
      ensures Valid() && open == old(open)[s := old(open)[s].(denyWriteCnt := old(open)[s].denyWriteCnt + 1)]
    {
      hide Good;
      GoodParts(disk.sectors, freeMap.Bits(), open, files);
      OpenKeeps(disk.sectors, freeMap.Bits(), open, files, s, open[s].(denyWriteCnt := open[s].denyWriteCnt + 1));
      open := open[s := open[s].(denyWriteCnt := open[s].denyWriteCnt + 1)];
    }

    /** Writes denied by one opener less. */
    method InodeAllow(s: nat)
      requires Valid() && s in open && s >= 2 && 0 < open[s].denyWriteCnt <= open[s].openCnt
      modifies this`open
      ensures Valid() && open == old(open)[s := old(open)[s].(denyWriteCnt := old(open)[s].denyWriteCnt - 1)]
    {
      hide Good;
      GoodParts(disk.sectors, freeMap.Bits(), open, files);
      OpenKeeps(disk.sectors, freeMap.Bits(), open, files, s, open[s].(denyWriteCnt := open[s].denyWriteCnt - 1));
      open := open[s := open[s].(denyWriteCnt := open[s].denyWriteCnt - 1)];
    }

    /** Every run of operations keeps the invariant; in particular the sectors
        given back are always in use and nobody's.  If each write of the free map
        is a whole one, its file stays in step. */
    method Run(ops: seq<Op>)
      requires Valid() && forall k | 0 <= k < |ops| :: Proper(ops[k])
      modifies this, disk, freeMap.words
      ensures Valid()
      ensures old(InSync()) && (forall k | 0 <= k < |ops| :: Whole(ops[k], freeMap.bitCnt)) ==> InSync()
      ensures old(Covers()) ==> Covers()
    {
      var k := 0;
      while k < |ops|
        invariant k <= |ops| && Valid()
        invariant old(InSync()) && (forall j | 0 <= j < k :: Whole(ops[j], freeMap.bitCnt)) ==> InSync()
        invariant old(Covers()) ==> Covers()
      {
        hide Good, FreeMapImage, Contents, Whole, Above;
        Do(ops[k]);
        k := k + 1;
      }
    }

    method Do(op: Op)
      requires Valid() && Proper(op)
      modifies this, disk, freeMap.words
      ensures Valid()
      ensures old(InSync()) && Whole(op, freeMap.bitCnt) ==> InSync()
      ensures old(Covers()) ==> Covers()
    {
      hide Good, Contents, SameFiles, Opened, EntryAt, FirstNamed, Freed, Listed, Created, Removed, FreeMapImage,
           MapsWritten, MapWritten, Above;
      match op
      case Create(name, size, mem, junk) => { var _, _, _ := FilesysCreate(name, size, mem, junk); }
      case Open(name, mem) => { var _ := FilesysOpen(name, mem); }
      case Remove(name, mem) => { var _, _, _ := FilesysRemove(name, mem); }
      case Write(s, data, offset, bounceOk) => {
        if s in open && s >= 2 { var _ := FileWriteAt(s, data, |data|, offset, bounceOk); }
      }
      case Close(s, mapOk0, mapOk1) => {
        if s in open && s >= 2 { InodeClose(s, mapOk0, mapOk1); }
      }
    }
  }

  lemma MapWrite(d: Sectors, b: seq<bool>, open: map<nat, Inode>, files: map<nat, Meta>, data: seq<Byte>)
    requires Good(d, b, open, files) && |data| <= files[FREE_MAP_SECTOR].length
    ensures var e := Poke(d, files[FREE_MAP_SECTOR].start, 0, data);
            Good(e, b, open, files) && SameFiles(d, e, files, files, {FREE_MAP_SECTOR})
  {
    hide Poke, OpenOk, DirectoryOk;
    WriteKeeps(d, b, open, files, FREE_MAP_SECTOR, 0, data);
    WriteKeepsLayout(d, b, files, FREE_MAP_SECTOR, 0, data);
  }

  lemma MarkedThenFreed(b: seq<bool>, x: nat, cnt: nat)
    requires x + cnt <= |b| && AllAre(b, x, cnt, false)
    ensures WithRange(WithRange(b, x, cnt, true), x, cnt, false) == b
  {
  }

  /** Free sectors are nobody's. */
  lemma FreshRangeIsNobodys(d: Sectors, b: seq<bool>, open: map<nat, Inode>, files: map<nat, Meta>, x: nat, cnt: nat)
    requires Good(d, b, open, files) && x + cnt <= |b| && AllAre(b, x, cnt, false)
    ensures forall k | x <= k < x + cnt :: Nobodys(files, k)
  {
    hide OpenOk, SystemFiles, DirectoryOk;
    forall k | x <= k < x + cnt ensures Nobodys(files, k) { FreeIsNobodys(d, b, files, k); }
  }

  lemma SameFilesTrans(d: Sectors, e: Sectors, f: Sectors, files: map<nat, Meta>)
    requires SameFiles(d, e, files, files, {FREE_MAP_SECTOR})
    requires SameFiles(e, f, files, files, {FREE_MAP_SECTOR}) || SameFiles(e, f, files, files, {})
    ensures SameFiles(d, f, files, files, {FREE_MAP_SECTOR})
  {
  }

  lemma SameFilesFewer(d: Sectors, e: Sectors, files: map<nat, Meta>, s: nat)
    requires SameFiles(d, e, files - {s}, files - {s}, {FREE_MAP_SECTOR})
    ensures SameFiles(d, e, files, files - {s}, {FREE_MAP_SECTOR})
  {
  }

  lemma SameRoot(d: Sectors, e: Sectors, files: map<nat, Meta>)
    requires SameFiles(d, e, files, files, {FREE_MAP_SECTOR}) && ROOT_DIR_SECTOR in files
    ensures SameBytes(d, e, files[ROOT_DIR_SECTOR])
    ensures var m := files[ROOT_DIR_SECTOR];
            && Formed(d) && Formed(e) && OnDisk(d, m.start, m.length) && OnDisk(e, m.start, m.length)
            && Contents(d, m) == Contents(e, m)
  {
  }

  /** The sectors of a removed file, and no others, have been marked free. */
  ghost predicate Freed(b: seq<bool>, n: seq<bool>, s: nat, m: Meta) {
    && |n| == |b|
    && forall k | 0 <= k < |b| :: n[k] == if k == s || InExtent(m, k) then false else b[k]
  }

  lemma RemovedIsUnlisted(d: Sectors, b: seq<bool>, open: map<nat, Inode>, files: map<nat, Meta>, s: nat)
    requires Good(d, b, open, files) && s in open && open[s].removed
    ensures s >= 2 && !Listed(Contents(d, files[ROOT_DIR_SECTOR]), s)
  {
    hide Layout;
  }

  lemma LeftBehindNow(d: Sectors, b: seq<bool>, open: map<nat, Inode>, files: map<nat, Meta>, s: nat)
    requires Good(d, b, open, files) && s in files
    ensures var m := files[s];
            && s + 1 <= |b| && AllAre(b, s, 1, true) && Nobodys(files - {s}, s)
            && m.start + SectorsFor(m.length) <= |b|
            && AllAre(WithRange(b, s, 1, false), m.start, SectorsFor(m.length), true)
            && (forall k | m.start <= k < m.start + SectorsFor(m.length) :: Nobodys(files - {s}, k))
            && Freed(b, WithRange(WithRange(b, s, 1, false), m.start, SectorsFor(m.length), false), s, m)
  {
    hide OpenOk, SystemFiles, DirectoryOk;
    LeftBehind(d, b, files, s);
  }

  lemma EntryFilled(d: Sectors, m: Meta, i: nat, buffer: seq<Byte>)
    requires Formed(d) && OnDisk(d, m.start, m.length) && m.length == ENTRIES * ENTRY && i < ENTRIES
    requires |buffer| == ENTRY && buffer[..ENTRY] == FileBytes(d, m.start, m.length)[i * ENTRY..i * ENTRY + ENTRY]
    ensures ToEntry(buffer) == EntryAt(Contents(d, m), i)
  {
    hide ToEntry, FileBytes;
    assert buffer[..ENTRY] == buffer;
  }

  lemma NameFieldHolds(name: seq<Byte>, field: seq<Byte>)
    requires 0 !in name && |name| <= NAME_MAX && |field| == NAME_MAX + 1
    requires field[..|name|] == name && field[|name|] == 0
    ensures CString(field) == name && 0 in field
  {
    hide CString;
    NameStored(name, field[|name| + 1..]);
    assert field == name + [0] + field[|name| + 1..];
  }

  lemma PendingInRange(d: Sectors, b: seq<bool>, open: map<nat, Inode>, files: map<nat, Meta>, s: nat, m: Meta)
    requires Good(d, b, open, files) && Pending(d, b, files, s, m)
    ensures 2 <= s < MAX32 && s !in files && SameBytes(d, d, m)
  {
    hide DirectoryOk, OpenOk;
  }

  lemma PendingUntouched(d: Sectors, b: seq<bool>, open: map<nat, Inode>, files: map<nat, Meta>,
                         i: nat, e: Entry, m: Meta)
    requires Good(d, b, open, files) && i < ENTRIES && Writable(e)
    requires Pending(d, b, files, e.sector, m)
    ensures SameBytes(d, RootAfter(d, files[ROOT_DIR_SECTOR], i, e), m)
  {
    hide Layout, RootAfter, Pending, EntryAt, OpenOk, DirectoryOk;
    PendingJoins(d, b, files, e.sector, m);
    PendingParts(d, b, files, e.sector, m);
    var with := files[e.sector := m];
    assert e.sector in with && with[e.sector] == m && with[ROOT_DIR_SECTOR] == files[ROOT_DIR_SECTOR];
    RootWritten(d, b, with, i, e);
    LayoutParts(d, b, with);
    LayoutParts(RootAfter(d, files[ROOT_DIR_SECTOR], i, e), b, with);
  }

  /** The new file is entered under its name, with nothing but zeros in it. */
  ghost predicate Created(c: seq<Byte>, n: seq<Byte>, d: Sectors, was: map<nat, Meta>, now: map<nat, Meta>,
                          name: seq<Byte>, size: nat, mem: Memory, s: nat, i: nat)
    requires |c| == |n| == ENTRIES * ENTRY
  {
    && FirstNamed(c, name, 0, Limit(mem.lookupReads)).NotFound?
    && i == FirstFree(c, 0, Limit(mem.slotReads)) && i < ENTRIES
    && EntryAt(n, i).inUse && EntryAt(n, i).sector == s && CString(EntryAt(n, i).name) == name
    && Replaced(c, n, i, EntryAt(n, i))
    && s !in was && s in now && now[s].length == size
    && Formed(d) && OnDisk(d, now[s].start, size) && Contents(d, now[s]) == Zeros(size)
  }

  lemma CreatedIs(c: seq<Byte>, n: seq<Byte>, e: Sectors, d: Sectors, open: map<nat, Inode>, was: map<nat, Meta>,
                  now: map<nat, Meta>, name: seq<Byte>, size: nat, mem: Memory, s: nat, i: nat, m: Meta)
    requires DirectoryOk(c, open, was) && |n| == |c|
    requires FirstNamed(c, name, 0, Limit(mem.lookupReads)).NotFound?
    requires i == FirstFree(c, 0, Limit(mem.slotReads)) && i < ENTRIES
    requires EntryAt(n, i).inUse && EntryAt(n, i).sector == s && CString(EntryAt(n, i).name) == name
    requires Replaced(c, n, i, EntryAt(n, i))
    requires s !in was && now == Entered(c, open, was, i, s, m)
    requires SameBytes(e, d, m) && m.length == size && Contents(e, m) == Zeros(size)
    ensures Created(c, n, d, was, now, name, size, mem, s, i) && now[s] == m
    ensures ROOT_DIR_SECTOR in was && s != ROOT_DIR_SECTOR ==>
              ROOT_DIR_SECTOR in now && now[ROOT_DIR_SECTOR] == was[ROOT_DIR_SECTOR]
  {
    hide EntryAt, CString, FirstNamed, FirstFree, Contents, Replaced;
  }

  /** The data's place is looked for once the inode's is marked. */
  lemma PlaceIs(b: seq<bool>, size: nat)
    ensures var place := FirstFit(b, 0, 1, false);
            place.At? ==> place.index + 1 <= |b|
                          && DataPlace(b, size) == FirstFit(WithRange(b, place.index, 1, true), 0, SectorsFor(size), false)
  {
    hide FirstFit, SectorsFor;
    FirstFitIs(b, 0, 1, false);
  }

  /** Sectors newly marked were free and are used now; the others are as before. */
  lemma MarkedRange(b: seq<bool>, x: nat, cnt: nat)
    requires x + cnt <= |b| && AllAre(b, x, cnt, false)
    ensures var n := WithRange(b, x, cnt, true);
            && (forall k | x <= k < x + cnt :: n[k] && !b[k])
            && (forall k | 0 <= k < |b| && b[k] :: n[k] && !(x <= k < x + cnt))
  {
  }

  lemma MarkedAt(b: seq<bool>, x: nat)
    requires x + 1 <= |b|
    ensures WithRange(b, x, 1, true)[x]
  {
  }

  lemma SameFilesBoth(d: Sectors, e: Sectors, f: Sectors, was: map<nat, Meta>, now: map<nat, Meta>)
    requires SameFiles(d, e, was, was, {FREE_MAP_SECTOR})
    requires SameFiles(e, f, was, now, {ROOT_DIR_SECTOR}) || SameFiles(e, f, was, now, {FREE_MAP_SECTOR, ROOT_DIR_SECTOR})
    ensures SameFiles(d, f, was, now, {FREE_MAP_SECTOR, ROOT_DIR_SECTOR})
  {
  }

  lemma SameFilesExcept(d: Sectors, e: Sectors, was: map<nat, Meta>, now: map<nat, Meta>)
    requires SameFiles(d, e, was, now, {}) || SameFiles(d, e, was, now, {FREE_MAP_SECTOR})
    ensures SameFiles(d, e, was, now, {FREE_MAP_SECTOR, ROOT_DIR_SECTOR})
  {
  }

  lemma CreatedParts(c: seq<Byte>, n: seq<Byte>, d: Sectors, was: map<nat, Meta>, now: map<nat, Meta>,
                     name: seq<Byte>, size: nat, mem: Memory, s: nat, i: nat)
    requires |c| == |n| == ENTRIES * ENTRY && Created(c, n, d, was, now, name, size, mem, s, i)
    ensures i < ENTRIES && s in now
  {
  }

  /** What becomes of a file whose entry is taken does not depend on the root being
      open. */
  lemma EnteredUnderRoot(c: seq<Byte>, open: map<nat, Inode>, files: map<nat, Meta>, i: nat, s: nat, m: Meta, root: Meta)
    requires DirectoryOk(c, open, files) && i < ENTRIES
    ensures Entered(c, Opened(open, ROOT_DIR_SECTOR, root), files, i, s, m) == Entered(c, open, files, i, s, m)
  {
    hide EntryAt;
  }

  lemma RootIsOpen(open: map<nat, Inode>, m: Meta)
    ensures ROOT_DIR_SECTOR in Opened(open, ROOT_DIR_SECTOR, m)
  {
  }

  /** The new entry in the directory, as the operations see it. */
  lemma Enters(d: Sectors, b: seq<bool>, open: map<nat, Inode>, files: map<nat, Meta>, i: nat, e: Entry, m: Meta)
    requires Good(d, b, open, files) && i < ENTRIES && Writable(e) && e.inUse && 0 in e.name
    requires Pending(d, b, files, e.sector, m)
    ensures var root := files[ROOT_DIR_SECTOR];
            var n := RootAfter(d, root, i, e);
            var now := Entered(Contents(d, root), open, files, i, e.sector, m);
            && Good(n, b, open, now) && now[ROOT_DIR_SECTOR] == root
            && |Contents(n, root)| == ENTRIES * ENTRY && Replaced(Contents(d, root), Contents(n, root), i, e)
            && SameFiles(d, n, files, now, {ROOT_DIR_SECTOR}) && SameBytes(d, n, m)
  {
    hide Layout, Poke, RootAfter, Pending, EntryAt, OpenOk;
    LayoutParts(d, b, files);
    PendingUntouched(d, b, open, files, i, e, m);
    EnterKeeps(d, b, open, files, i, e, m);
    RootWritten(d, b, files, i, e);
    var n := RootAfter(d, files[ROOT_DIR_SECTOR], i, e);
    LayoutParts(n, b, files);
    PendingParts(d, b, files, e.sector, m);
  }

  lemma OpenedStill(open: map<nat, Inode>, s: nat, m: Meta, root: Meta)
    requires s != ROOT_DIR_SECTOR
    ensures Opened(Opened(open, ROOT_DIR_SECTOR, root), s, m) == Opened(Opened(open, s, m), ROOT_DIR_SECTOR, root)
    ensures s in Opened(open, ROOT_DIR_SECTOR, root) <==> s in open
    ensures s in Opened(open, s, m)
    ensures ROOT_DIR_SECTOR in Opened(open, s, m) <==> ROOT_DIR_SECTOR in open
    ensures ROOT_DIR_SECTOR in open ==> Opened(open, s, m)[ROOT_DIR_SECTOR] == open[ROOT_DIR_SECTOR]
  {
  }

  lemma RemovedThenClosed(open: map<nat, Inode>, s: nat, m: Meta)
    requires s in open ==> open[s].openCnt >= 1
    ensures s in Opened(open, s, m)
    ensures var o := Opened(open, s, m);
            && o[s].openCnt >= 1 && (o[s].openCnt == 1 <==> s !in open)
            && Closed(o[s := o[s].(removed := true)], s) ==
               if s in open then open[s := open[s].(removed := true)] else open
  {
  }

  /** What a removal leaves: the entry is free, and the file is either gone with
      its sectors free again or, while others have it open, still whole. */
  ghost predicate Removed(c: seq<Byte>, n: seq<Byte>, open: map<nat, Inode>, openNow: map<nat, Inode>,
                          was: map<nat, Meta>, now: map<nat, Meta>, b: seq<bool>, bNow: seq<bool>, s: nat, i: nat)
    requires |c| == |n| == ENTRIES * ENTRY
  {
    && i < ENTRIES && EntryAt(c, i).sector == s && s in was && Replaced(c, n, i, EntryAt(c, i).(inUse := false))
    && !Listed(n, s)
    && if s in open then openNow == open[s := open[s].(removed := true)] && now == was && bNow == b
       else openNow == open && now == was - {s} && Freed(b, bNow, s, was[s])
  }

  /** The erased entry, as the operations see it. */
  lemma Erases(d: Sectors, b: seq<bool>, open: map<nat, Inode>, files: map<nat, Meta>, i: nat)
    requires Good(d, b, open, files) && i < ENTRIES
    requires var e := EntryAt(Contents(d, files[ROOT_DIR_SECTOR]), i); e.inUse && e.sector in open
    ensures var root := files[ROOT_DIR_SECTOR];
            var e := EntryAt(Contents(d, root), i);
            var n := RootAfter(d, root, i, e.(inUse := false));
            && Good(n, b, open[e.sector := open[e.sector].(removed := true)], files)
            && |Contents(n, root)| == ENTRIES * ENTRY && !Listed(Contents(n, root), e.sector)
            && Replaced(Contents(d, root), Contents(n, root), i, e.(inUse := false))
            && SameFiles(d, n, files, files, {ROOT_DIR_SECTOR})
  {
    hide Layout, Poke, RootAfter, EntryAt, OpenOk;
    LayoutParts(d, b, files);
    EraseKeeps(d, b, open, files, i);
    var e := EntryAt(Contents(d, files[ROOT_DIR_SECTOR]), i);
    RootWritten(d, b, files, i, e.(inUse := false));
    LayoutParts(RootAfter(d, files[ROOT_DIR_SECTOR], i, e.(inUse := false)), b, files);
  }

  lemma SameFilesAfter(d: Sectors, e: Sectors, f: Sectors, was: map<nat, Meta>, now: map<nat, Meta>)
    requires SameFiles(d, e, was, was, {ROOT_DIR_SECTOR}) && SameFiles(e, f, was, now, {FREE_MAP_SECTOR})
    ensures SameFiles(d, f, was, now, {FREE_MAP_SECTOR, ROOT_DIR_SECTOR})
  {
  }

  lemma RemovedUnderRoot(open: map<nat, Inode>, s: nat, root: Meta)
    requires s in open && s != ROOT_DIR_SECTOR
    ensures s in Opened(open, ROOT_DIR_SECTOR, root)
    ensures var o := Opened(open, ROOT_DIR_SECTOR, root);
            o[s := o[s].(removed := true)] == Opened(open[s := open[s].(removed := true)], ROOT_DIR_SECTOR, root)
  {
  }

  lemma SameFilesBut(d: Sectors, files: map<nat, Meta>, s: nat)
    requires SameFiles(d, d, files, files, {})
    ensures SameFiles(d, d, files, files, {s})
  {
  }

  lemma FileWritten(d: Sectors, b: seq<bool>, open: map<nat, Inode>, files: map<nat, Meta>,
                    s: nat, offset: nat, data: seq<Byte>)
    requires Good(d, b, open, files) && s in files && s >= 2 && offset + |data| <= files[s].length
    ensures var e := Poke(d, files[s].start, offset, data);
            && Good(e, b, open, files) && SameFiles(d, e, files, files, {s})
            && Contents(e, files[ROOT_DIR_SECTOR]) == Contents(d, files[ROOT_DIR_SECTOR])
            && var c := Contents(d, files[s]);
               Contents(e, files[s]) == c[..offset] + data + c[offset + |data|..]
  {
    hide Poke, OpenOk, DirectoryOk;
    WriteKeeps(d, b, open, files, s, offset, data);
    WriteKeepsLayout(d, b, files, s, offset, data);
  }

  /** The invariant read out: two files that are listed or open share no sector,
      and every sector of theirs is marked used. */
  lemma NoSharing(d: Sectors, b: seq<bool>, open: map<nat, Inode>, files: map<nat, Meta>, s: nat, t: nat)
    requires Good(d, b, open, files)
    requires s in open || Listed(Contents(d, files[ROOT_DIR_SECTOR]), s)
    requires t in open || Listed(Contents(d, files[ROOT_DIR_SECTOR]), t)
    ensures s < |d| && |d[s]| == SECTOR && t < |d| && |d[t]| == SECTOR
    ensures var m, n := ReadInode(d[s]), ReadInode(d[t]);
            && b[s] && (forall k | InExtent(m, k) :: 0 <= k < |b| && b[k])
            && !InExtent(m, t) && !InExtent(n, s)
            && (s != t ==> forall k | InExtent(m, k) :: !InExtent(n, k))
  {
    hide EntryAt, ReadInode;
    InodeOnDisk(d, b, open, files, s);
    InodeOnDisk(d, b, open, files, t);
  }
}
