/** Making a file system on a disk, mounting it, and mounting again a disk that
    has been used. */
module Mounting {
  import opened Storage
  import opened Bitmaps
  import opened Encoding
  import opened FsLayout
  import opened FsDirectory
  import opened Inodes
  import opened FileSystems

  /** `bitmap_read`: the words from the file, and the bits past the last cleared. */
  method ReadMap(disk: Disk, inode: Inode, freeMap: Bitmap, bounceOk: bool) returns (ok: bool)
    requires freeMap.Valid() && freeMap.bitCnt > 0
    requires Formed(disk.sectors) && OnDisk(disk.sectors, inode.start, inode.length)
    requires inode.length == ByteCnt(freeMap.bitCnt)
    modifies freeMap.words
    ensures ok <==> MapWritten(freeMap.bitCnt, bounceOk)
    ensures ok ==> freeMap.Bits() == FreeMapImage(FileBytes(disk.sectors, inode.start, inode.length), freeMap.bitCnt)
  {
    hide WordsBytes, BytesWords, FileBytes, BitsOf;
    var n := ByteCnt(freeMap.bitCnt);
    var image := WordsBytes(freeMap.words[..]);
    var buffer := new Byte[n](k requires 0 <= k < n => image[k]);
    var got := ReadAt(disk, inode, buffer, n, 0, bounceOk);
    ok := got == n;
    if ok {
      ghost var file := FileBytes(disk.sectors, inode.start, inode.length);
      assert buffer[..] == file[0..n] == file;
    }
    var words := BytesWords(buffer[..]);
    forall k | 0 <= k < freeMap.words.Length {
      freeMap.words[k] := words[k];
    }
    assert freeMap.words[..] == words;
    var last := ElemCnt(freeMap.bitCnt) - 1;
    MaskedLast(words, freeMap.bitCnt);
    freeMap.words[last] := Masked(words[last], freeMap.bitCnt);
    assert freeMap.words[..] == words[last := Masked(words[last], freeMap.bitCnt)];
    assert freeMap.Bits() == BitsOf(words, freeMap.bitCnt);
  }

  /** The last word under `last_mask`. */
  function Masked(w: Word, bitCnt: nat): Word {
    if bitCnt % WORD == 0 then w else seq(WORD, j requires 0 <= j < WORD => j < bitCnt % WORD && w[j])
  }

  lemma MaskedLast(words: seq<Word>, bitCnt: nat)
    requires bitCnt > 0 && |words| == ElemCnt(bitCnt)
    ensures var last := ElemCnt(bitCnt) - 1;
            BitsOf(words[last := Masked(words[last], bitCnt)], bitCnt) == BitsOf(words, bitCnt)
  {
    var last := ElemCnt(bitCnt) - 1;
    var n := words[last := Masked(words[last], bitCnt)];
    forall k | 0 <= k < bitCnt ensures BitsOf(n, bitCnt)[k] == BitsOf(words, bitCnt)[k] {
      ElemInRange(bitCnt, k);
    }
  }

  lemma MapTransfer(n: nat, bounceOk: bool)
    ensures Transferred(ByteCnt(n), ByteCnt(n), 0, bounceOk) == ByteCnt(n) <==> MapWritten(n, bounceOk)
  {
  }

  /** The disk with no file on it yet. */
  lemma Blank(d: Sectors, b: seq<bool>)
    requires Formed(d) && |b| == |d|
    ensures Layout(d, b, map[])
  {
  }

  /** A file whose sectors nobody had. */
  lemma WrittenJoins(d: Sectors, n: Sectors, b: seq<bool>, files: map<nat, Meta>, s: nat, m: Meta)
    requires Layout(d, b, files) && Written(d, n, s, m) && !InExtent(m, s)
    requires s !in files && b[s] && forall t | t in files :: !InExtent(files[t], s)
    requires forall k | InExtent(m, k) :: b[k] && Nobodys(files, k)
    ensures Layout(n, b, files[s := m]) && Contents(n, m) == Zeros(m.length)
    ensures SameFiles(d, n, files, files, {})
  {
    hide SectorsFor, InodeSector;
    WrittenIsZero(d, n, s, m);
    ScribblesKeepLayout(d, n, b, files);
    PendingJoins(n, b, files, s, m);
  }

  lemma FreshlyMade(d: Sectors, b: seq<bool>, free: Meta, root: Meta, inode: Inode)
    requires |d| < MAX32
    requires Layout(d, b, map[FREE_MAP_SECTOR := free, ROOT_DIR_SECTOR := root])
    requires OnDisk(d, root.start, root.length) && Contents(d, root) == Zeros(ENTRIES * ENTRY)
    requires free.length == ByteCnt(|d|) && root.length == ENTRIES * ENTRY
    requires inode == Inode(free.start, free.length, 1, false, 0)
    ensures Good(d, b, map[FREE_MAP_SECTOR := inode], map[FREE_MAP_SECTOR := free, ROOT_DIR_SECTOR := root])
  {
    hide Layout, EntryAt, Zeros, Contents;
    forall i | 0 <= i < ENTRIES ensures !EntryAt(Zeros(ENTRIES * ENTRY), i).inUse { NoEntries(i); }
    var open, files := map[FREE_MAP_SECTOR := inode], map[FREE_MAP_SECTOR := free, ROOT_DIR_SECTOR := root];
    LayoutParts(d, b, files);
    assert files[FREE_MAP_SECTOR] == free && files[ROOT_DIR_SECTOR] == root;
    assert OpenOk(open, files);
    assert SystemFiles(d, open, files);
  }

  /** The inode of a file with fresh sectors of its own, before the free map has
      a file: the free-map file itself. */
  method MakeFreeMapFile(disk: Disk, freeMap: Bitmap) returns (ok: bool, m: Meta)
    requires freeMap.Valid() && Formed(disk.sectors) && 2 <= freeMap.bitCnt == |disk.sectors| < MAX32
    requires freeMap.Bits()[FREE_MAP_SECTOR] && freeMap.Bits()[ROOT_DIR_SECTOR]
    modifies disk, freeMap.words
    ensures |disk.sectors| == freeMap.bitCnt
    ensures ok <==> FirstFit(old(freeMap.Bits()), 0, SectorsFor(ByteCnt(freeMap.bitCnt)), false).At?
    ensures ok ==> Layout(disk.sectors, freeMap.Bits(), map[FREE_MAP_SECTOR := m]) && m.length == ByteCnt(freeMap.bitCnt)
    ensures ok ==> && FirstFit(old(freeMap.Bits()), 0, SectorsFor(m.length), false) == At(m.start)
                   && m.start + SectorsFor(m.length) <= freeMap.bitCnt
                   && freeMap.Bits() == WithRange(old(freeMap.Bits()), m.start, SectorsFor(m.length), true)
    ensures ok ==> freeMap.Bits()[ROOT_DIR_SECTOR] && !InExtent(m, ROOT_DIR_SECTOR)
  {
    hide Layout, WithRange, Zeros, SameFiles, FirstFit;
    var sectors := SectorsFor(ByteCnt(freeMap.bitCnt));
    ghost var b, d := freeMap.Bits(), disk.sectors;
    Blank(d, b);
    FirstFitIs(b, 0, sectors, false);
    var r := freeMap.ScanAndFlip(0, sectors, false);
    ok := r.At?;
    m := Meta(0, 0);
    if ok {
      MarkedRange(b, r.index, sectors);
      Blank(d, freeMap.Bits());
      m := Meta(r.index, ByteCnt(freeMap.bitCnt));
      WriteInode(disk, FREE_MAP_SECTOR, m);
      WrittenJoins(d, disk.sectors, freeMap.Bits(), map[], FREE_MAP_SECTOR, m);
      assert map[][FREE_MAP_SECTOR := m] == map[FREE_MAP_SECTOR := m];
    }
  }

  lemma SyncedByWrite(d: Sectors, words: seq<Word>, n: nat, m: Meta)
    requires Formed(d) && OnDisk(d, m.start, m.length) && |words| == ElemCnt(n) && m.length == ByteCnt(n)
    ensures Synced(Poke(d, m.start, 0, WordsBytes(words)), BitsOf(words, n), m)
  {
    hide Poke, BytesWords, WordsBytes, BitsOf;
    MapFileWritten(d, words, n, m, true);
    assert WordsBytes(words)[..ByteCnt(n)] == WordsBytes(words);
    OverlaidWhole(BitsOf(words, n), FreeMapImage(Contents(d, m), n), true);
  }

  /** The free map's file is there and decodes to the free map. */
  ghost predicate MapKept(d: Sectors, b: seq<bool>, free: Meta) {
    Formed(d) && OnDisk(d, free.start, free.length) && free.length == ByteCnt(|b|) && Synced(d, b, free)
  }

  /** `bitmap_write` of the new free map to its new file. */
  method WriteNewMap(disk: Disk, freeMap: Bitmap, free: Meta, bounceOk: bool) returns (ok: bool)
    requires freeMap.Valid() && freeMap.bitCnt == |disk.sectors|
    requires Layout(disk.sectors, freeMap.Bits(), map[FREE_MAP_SECTOR := free]) && free.length == ByteCnt(freeMap.bitCnt)
    modifies disk
    ensures ok <==> MapWritten(freeMap.bitCnt, bounceOk)
    ensures |disk.sectors| == freeMap.bitCnt && Layout(disk.sectors, freeMap.Bits(), map[FREE_MAP_SECTOR := free])
    ensures ok ==> MapKept(disk.sectors, freeMap.Bits(), free)
  {
    hide Layout, WordsBytes, Poke, BitsOf, Synced, Transferred, MapWritten;
    ghost var files, d := map[FREE_MAP_SECTOR := free], disk.sectors;
    LayoutParts(d, freeMap.Bits(), files);
    assert files[FREE_MAP_SECTOR] == free;
    var image := WordsBytes(freeMap.words[..]);
    var n := WriteAt(disk, Inode(free.start, free.length, 1, false, 0), image, |image|, 0, bounceOk);
    MapTransfer(freeMap.bitCnt, bounceOk);
    WriteKeepsLayout(d, freeMap.Bits(), files, FREE_MAP_SECTOR, 0, image[..n]);
    LayoutParts(disk.sectors, freeMap.Bits(), files);
    ok := n == |image|;
    if ok {
      assert image[..n] == image;
      SyncedByWrite(d, freeMap.words[..], freeMap.bitCnt, free);
    }
  }

  lemma FreeRange(d: Sectors, b: seq<bool>, files: map<nat, Meta>, x: nat, cnt: nat)
    requires Layout(d, b, files) && x + cnt <= |b| && AllAre(b, x, cnt, false)
    ensures forall k | x <= k < x + cnt :: Nobodys(files, k)
  {
    hide Layout;
    forall k | x <= k < x + cnt ensures Nobodys(files, k) { FreeIsNobodys(d, b, files, k); }
  }

  /** The root directory, with the free map written out on the way. */
  method MakeRoot(disk: Disk, freeMap: Bitmap, free: Meta, bounceOk: bool) returns (ok: bool, root: Meta)
    requires freeMap.Valid() && 2 <= freeMap.bitCnt == |disk.sectors| < MAX32
    requires Layout(disk.sectors, freeMap.Bits(), map[FREE_MAP_SECTOR := free])
    requires freeMap.Bits()[ROOT_DIR_SECTOR] && !InExtent(free, ROOT_DIR_SECTOR)
    requires free.length == ByteCnt(freeMap.bitCnt)
    modifies disk, freeMap.words
    ensures |disk.sectors| == freeMap.bitCnt
    ensures ok <==> FirstFit(old(freeMap.Bits()), 0, 1, false).At? && MapWritten(freeMap.bitCnt, bounceOk)
    ensures ok ==> Layout(disk.sectors, freeMap.Bits(), map[FREE_MAP_SECTOR := free, ROOT_DIR_SECTOR := root])
    ensures ok ==> && FirstFit(old(freeMap.Bits()), 0, 1, false) == At(root.start) && root.start + 1 <= freeMap.bitCnt
                   && freeMap.Bits() == WithRange(old(freeMap.Bits()), root.start, 1, true)
    ensures ok ==> root.length == ENTRIES * ENTRY
    ensures ok ==> RootMade(disk.sectors, freeMap.Bits(), free, root)
  {
    hide Layout, WithRange, Zeros, SameFiles, FirstFit, Contents, ByteCnt, BitsOf, MapWritten, MapKept, Nobodys;
    ghost var files := map[FREE_MAP_SECTOR := free];
    ghost var b, d := freeMap.Bits(), disk.sectors;
    LayoutParts(d, b, files);
    assert files[FREE_MAP_SECTOR] == free;
    root := Meta(0, 0);
    FirstFitIs(b, 0, 1, false);
    var r := freeMap.ScanAndFlip(0, 1, false);
    ok := false;
    if r.At? {
      MarkedRange(b, r.index, 1);
      MarkKeepsLayout(d, b, files, r.index, 1);
      FreeRange(d, b, files, r.index, 1);
      ok := WriteNewMap(disk, freeMap, free, bounceOk);
      if ok {
        ghost var e := disk.sectors;
        LayoutParts(e, freeMap.Bits(), files);
        root := Meta(r.index, ENTRIES * ENTRY);
        WriteInode(disk, ROOT_DIR_SECTOR, root);
        WrittenJoins(e, disk.sectors, freeMap.Bits(), files, ROOT_DIR_SECTOR, root);
        assert files[ROOT_DIR_SECTOR := root] == map[FREE_MAP_SECTOR := free, ROOT_DIR_SECTOR := root];
        MadeInSync(e, disk.sectors, freeMap.Bits(), free, root);
      }
    }
  }

  /** The root is empty and the free map's file holds the free map. */
  ghost predicate RootMade(d: Sectors, b: seq<bool>, free: Meta, root: Meta) {
    MapKept(d, b, free) && OnDisk(d, root.start, root.length) && Contents(d, root) == Zeros(ENTRIES * ENTRY)
  }

  lemma MadeInSync(e: Sectors, d: Sectors, b: seq<bool>, free: Meta, root: Meta)
    requires Layout(d, b, map[FREE_MAP_SECTOR := free, ROOT_DIR_SECTOR := root])
    requires MapKept(e, b, free)
    requires SameFiles(e, d, map[FREE_MAP_SECTOR := free], map[FREE_MAP_SECTOR := free], {})
    requires OnDisk(d, root.start, root.length) && Formed(d) && Contents(d, root) == Zeros(ENTRIES * ENTRY)
    ensures RootMade(d, b, free, root)
  {
    hide Contents, FreeMapImage, Layout, Zeros;
    var files := map[FREE_MAP_SECTOR := free];
    assert FREE_MAP_SECTOR in files && files[FREE_MAP_SECTOR] == free;
  }

  lemma ImageIs(d: Sectors, b: seq<bool>, free: Meta)
    requires MapKept(d, b, free)
    ensures FreeMapImage(FileBytes(d, free.start, free.length), |b|) == b
  {
  }

  /** Exactly the first `p` sectors are in use. */
  ghost predicate UpTo(b: seq<bool>, p: nat) {
    forall k | 0 <= k < |b| :: b[k] <==> k < p
  }

  lemma NextFit(b: seq<bool>, p: nat, cnt: nat)
    requires UpTo(b, p) && p <= |b| && cnt > 0
    ensures FirstFit(b, 0, cnt, false) == if p + cnt <= |b| then At(p) else NotFound
    ensures p + cnt <= |b| ==> UpTo(WithRange(b, p, cnt, true), p + cnt)
  {
    hide FirstFit;
    FirstFitIs(b, 0, cnt, false);
    assert p + cnt <= |b| ==> AllAre(b, p, cnt, false);
    assert forall i | 0 <= i && i + cnt <= |b| && AllAre(b, i, cnt, false) :: !b[i];
  }

  /** The sectors a new file system needs: two inodes, the map and the root. */
  function Needed(n: nat): nat { 3 + SectorsFor(ByteCnt(n)) }

  /** There is memory, each transfer of the map is whole, and all finds room. */
  ghost predicate CanFormat(n: nat, heapOk: bool, bounceOk0: bool, bounceOk1: bool, bounceOk2: bool) {
    && heapOk && MapWritten(n, bounceOk0) && MapWritten(n, bounceOk1) && MapWritten(n, bounceOk2)
    && Needed(n) <= n
  }

  lemma MapHasSectors(n: nat)
    requires n > 0
    ensures SectorsFor(ByteCnt(n)) > 0
  {
  }

  /** Format and mount: null where the kernel would panic.  `heapOk` stands for the
      bitmap, the inodes and the file handles.  What the mount reads back is the
      free map that the format left. */
  method Format(disk: Disk, heapOk: bool, bounceOk0: bool, bounceOk1: bool, bounceOk2: bool) returns (fs: FileSystem?)
    requires Formed(disk.sectors) && |disk.sectors| < MAX32
    modifies disk
    ensures fs != null <==> CanFormat(old(|disk.sectors|), heapOk, bounceOk0, bounceOk1, bounceOk2)
    ensures fs != null ==> && fs.disk == disk && fresh(fs) && fresh(fs.freeMap.words) && fs.Valid() && fs.InSync()
                           && fs.files.Keys == {FREE_MAP_SECTOR, ROOT_DIR_SECTOR} && fs.open.Keys == {FREE_MAP_SECTOR}
                           && fs.RootBytes() == Zeros(ENTRIES * ENTRY)
                           && |disk.sectors| == old(|disk.sectors|)
                           && UpTo(fs.freeMap.Bits(), Needed(|disk.sectors|))
  {
    hide Layout, Zeros, Contents, BitsOf, Good, FileBytes, FirstFit, WithRange, MapWritten, SectorsFor, ByteCnt, UpTo;
    fs := null;
    if !heapOk || |disk.sectors| < 2 {
      return;
    }
    var n := |disk.sectors|;
    MapHasSectors(n);
    var freeMap := NewMap(n);
    NextFit(freeMap.Bits(), 2, SectorsFor(ByteCnt(n)));
    var ok, free := MakeFreeMapFile(disk, freeMap);
    if !ok {
      return;
    }
    ok := WriteNewMap(disk, freeMap, free, bounceOk0);
    if !ok {
      return;
    }
    NextFit(freeMap.Bits(), 2 + SectorsFor(ByteCnt(n)), 1);
    var root;
    ok, root := MakeRoot(disk, freeMap, free, bounceOk1);
    if !ok {
      return;
    }
    var inode := Inode(free.start, free.length, 1, false, 0);
    ghost var b := freeMap.Bits();
    ok := ReadMap(disk, inode, freeMap, bounceOk2);
    if !ok {
      return;
    }
    ImageIs(disk.sectors, b, free);
    FreshlyMade(disk.sectors, b, free, root, inode);
    fs := new FileSystem(disk, freeMap, map[FREE_MAP_SECTOR := inode],
                         map[FREE_MAP_SECTOR := free, ROOT_DIR_SECTOR := root]);
  }

  /** `free_map_init`: the inodes of the system files have their sectors. */
  method NewMap(n: nat) returns (freeMap: Bitmap)
    requires n >= 2
    ensures fresh(freeMap) && fresh(freeMap.words) && freeMap.Valid() && freeMap.bitCnt == n && UpTo(freeMap.Bits(), 2)
    ensures freeMap.Bits()[FREE_MAP_SECTOR] && freeMap.Bits()[ROOT_DIR_SECTOR]
  {
    hide BitsOf;
    freeMap := new Bitmap(n);
    freeMap.Set(FREE_MAP_SECTOR, true);
    freeMap.Set(ROOT_DIR_SECTOR, true);
  }

  // ----- a disk that has been used -----

  /** The files that outlive a shutdown: one that was only kept open is lost. */
  ghost function Kept(c: seq<Byte>, files: map<nat, Meta>): map<nat, Meta>
    requires |c| == ENTRIES * ENTRY
  {
    map s | s in files && (s < 2 || Listed(c, s)) :: files[s]
  }

  lemma FewerKeepLayout(d: Sectors, b: seq<bool>, files: map<nat, Meta>, fewer: map<nat, Meta>)
    requires Layout(d, b, files) && fewer.Keys <= files.Keys && forall s | s in fewer :: fewer[s] == files[s]
    ensures Layout(d, b, fewer)
  {
  }

  /** Only the free map is open after a mount. */
  lemma MountKeeps(d: Sectors, b: seq<bool>, open: map<nat, Inode>, files: map<nat, Meta>, inode: Inode)
    requires Good(d, b, open, files)
    requires inode == Inode(files[FREE_MAP_SECTOR].start, files[FREE_MAP_SECTOR].length, 1, false, 0)
    ensures var kept := Kept(Contents(d, files[ROOT_DIR_SECTOR]), files);
            && Good(d, b, map[FREE_MAP_SECTOR := inode], kept)
            && kept[FREE_MAP_SECTOR] == files[FREE_MAP_SECTOR] && kept[ROOT_DIR_SECTOR] == files[ROOT_DIR_SECTOR]
  {
    hide Layout, EntryAt, Contents;
    LayoutParts(d, b, files);
    var c := Contents(d, files[ROOT_DIR_SECTOR]);
    var kept := Kept(c, files);
    FewerKeepLayout(d, b, files, kept);
    forall i | 0 <= i < ENTRIES && EntryAt(c, i).inUse ensures EntryAt(c, i).sector in kept {
      assert Listed(c, EntryAt(c, i).sector);
    }
  }

  /** Every sector of the files is marked. */
  ghost predicate Marks(b: seq<bool>, files: map<nat, Meta>) {
    forall s | s in files ::
      s < |b| && b[s] && forall k | InExtent(files[s], k) :: 0 <= k < |b| && b[k]
  }

  /** The map may be any other one that marks the sectors of the files. */
  lemma OtherMap(d: Sectors, b: seq<bool>, image: seq<bool>, open: map<nat, Inode>, files: map<nat, Meta>)
    requires Good(d, b, open, files) && |image| == |b|
    ensures Good(d, image, open, files) <==> Marks(image, files)
    ensures Above(image, b) ==> Marks(image, files)
  {
    hide OpenOk, DirectoryOk, SystemFiles, Contents;
  }

  /** `filesys_init` without a format.  The free map is what its file decodes to; the
      file system is sound exactly if that marks the sectors of the files it lists,
      as it does if it marks what the map in memory marked. */
  method Mount(disk: Disk, ghost b: seq<bool>, ghost open: map<nat, Inode>, ghost files: map<nat, Meta>,
               heapOk: bool, bounceOk: bool) returns (fs: FileSystem?)
    requires Good(disk.sectors, b, open, files)
    ensures fs != null <==> heapOk && MapWritten(|disk.sectors|, bounceOk)
    ensures fs != null ==> fresh(fs) && fresh(fs.freeMap.words) && fs.disk == disk && fs.open.Keys == {FREE_MAP_SECTOR}
    ensures fs != null ==> (GoodParts(disk.sectors, b, open, files);
                            && fs.freeMap.Valid() && fs.freeMap.bitCnt == |disk.sectors|
                            && fs.freeMap.Bits() == FreeMapImage(Contents(disk.sectors, files[FREE_MAP_SECTOR]), |b|)
                            && fs.files == Kept(Contents(disk.sectors, files[ROOT_DIR_SECTOR]), files))
    ensures fs != null ==> (fs.Valid() <==> Marks(fs.freeMap.Bits(), fs.files))
    ensures fs != null && Above(fs.freeMap.Bits(), b) ==> fs.Valid()
    ensures fs != null && fs.Valid() ==>
              (GoodParts(disk.sectors, b, open, files);
               fs.InSync() && fs.RootBytes() == Contents(disk.sectors, files[ROOT_DIR_SECTOR]))
  {
    hide Good, FileBytes, ReadInode, MapWritten, UpTo, BitsOf, Above, Marks;
    GoodParts(disk.sectors, b, open, files);
    InodeOnDisk(disk.sectors, b, open, files, FREE_MAP_SECTOR);
    InodeOnDisk(disk.sectors, b, open, files, ROOT_DIR_SECTOR);
    fs := null;
    if !heapOk {
      return;
    }
    var freeMap := NewMap(|disk.sectors|);
    var block := disk.Read(FREE_MAP_SECTOR);
    var m := ReadInode(block);
    var inode := Inode(m.start, m.length, 1, false, 0);
    var ok := ReadMap(disk, inode, freeMap, bounceOk);
    if ok {
      MountKeeps(disk.sectors, b, open, files, inode);
      ghost var kept := Kept(Contents(disk.sectors, files[ROOT_DIR_SECTOR]), files);
      OtherMap(disk.sectors, b, freeMap.Bits(), map[FREE_MAP_SECTOR := inode], kept);
      fs := new FileSystem(disk, freeMap, map[FREE_MAP_SECTOR := inode], kept);
    }
  }

  /** A file system made, used in any way and mounted again, whatever memory there
      was: it is sound, with the same directory, and each listed file lies where it
      lay on the same disk.  The free map marks at least what it marked, and is
      the same if each write of it was a whole one. */
  method Survives(disk: Disk, ops: seq<Op>, heapOk: bool, bounceOk0: bool, bounceOk1: bool, bounceOk2: bool)
      returns (fs: FileSystem?, again: FileSystem?)
    requires Formed(disk.sectors) && |disk.sectors| < MAX32 && forall k | 0 <= k < |ops| :: Proper(ops[k])
    modifies disk
    ensures fs != null <==> CanFormat(old(|disk.sectors|), heapOk, bounceOk0, bounceOk1, bounceOk2)
    ensures fs != null ==>
              && again != null && fs.disk == again.disk == disk && fs.Valid() && again.Valid() && again.InSync()
              && again.RootBytes() == fs.RootBytes() && again.files == Kept(fs.RootBytes(), fs.files)
              && Above(again.freeMap.Bits(), fs.freeMap.Bits())
    ensures fs != null && (forall k | 0 <= k < |ops| :: Whole(ops[k], |disk.sectors|)) ==>
              again.freeMap.Bits() == fs.freeMap.Bits()
  {
    hide Good, Contents, Whole, FreeMapImage, MapWritten, Above, Kept, Marks, UpTo;
    again := null;
    fs := Format(disk, heapOk, bounceOk0, bounceOk1, bounceOk2);
    if fs != null {
      GoodParts(disk.sectors, fs.freeMap.Bits(), fs.open, fs.files);
      AboveSelf(fs.freeMap.Bits());
      fs.Run(ops);
      GoodParts(disk.sectors, fs.freeMap.Bits(), fs.open, fs.files);
      again := Mount(disk, fs.freeMap.Bits(), fs.open, fs.files, heapOk, bounceOk2);
    }
  }
}
