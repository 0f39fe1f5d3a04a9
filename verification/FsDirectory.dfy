/** The root directory as bytes of its file, and the invariant of the file
    system as a whole. */
module FsDirectory {
  import opened Storage
  import opened Bitmaps
  import opened Encoding
  import opened FsLayout
  import opened Inodes

  const FREE_MAP_SECTOR: nat := 0
  const ROOT_DIR_SECTOR: nat := 1
  const NAME_MAX: nat := 14
  const ENTRY: nat := 20
  const ENTRIES: nat := 16

  datatype Entry = Entry(sector: nat, name: seq<Byte>, inUse: bool)

  ghost predicate Writable(e: Entry) { e.sector < MAX32 && |e.name| == NAME_MAX + 1 }

  function EntryBytes(e: Entry): (b: seq<Byte>)
    requires e.sector < MAX32 && |e.name| == NAME_MAX + 1
    ensures |b| == ENTRY
  {
    Le32(e.sector) + e.name + [if e.inUse then 1 else 0]
  }

  function ToEntry(b: seq<Byte>): (e: Entry)
    requires |b| == ENTRY
    ensures Writable(e)
  {
    Entry(FromLe32(b[0..4]), b[4..19], b[19] != 0)
  }

  lemma EntryRoundTrip(e: Entry)
    requires Writable(e)
    ensures ToEntry(EntryBytes(e)) == e
  {
    var b := EntryBytes(e);
    assert b[0..4] == Le32(e.sector) && b[4..19] == e.name;
    Le32RoundTrip(e.sector);
  }

  /** The string in a name field: what precedes the first null byte. */
  function CString(b: seq<Byte>): seq<Byte> {
    if b == [] || b[0] == 0 then [] else [b[0]] + CString(b[1..])
  }

  /** `strlcpy` of a short string over an old field. */
  function NameField(name: seq<Byte>, before: seq<Byte>): (f: seq<Byte>)
    requires |name| <= NAME_MAX && |before| == NAME_MAX + 1
    ensures |f| == NAME_MAX + 1
  {
    name + [0] + before[|name| + 1..]
  }

  lemma {:induction false} NameStored(name: seq<Byte>, rest: seq<Byte>)
    requires 0 !in name
    ensures CString(name + [0] + rest) == name
  {
    if name == [] {
      assert (name + [0] + rest)[0] == 0;
    } else {
      assert (name + [0] + rest)[1..] == name[1..] + [0] + rest;
      NameStored(name[1..], rest);
    }
  }

  /** Entry `i` of a directory's contents. */
  function EntryAt(c: seq<Byte>, i: nat): (e: Entry)
    requires i < ENTRIES && |c| == ENTRIES * ENTRY
    ensures Writable(e)
  {
    ToEntry(c[i * ENTRY..i * ENTRY + ENTRY])
  }

  /** Replacing one entry replaces one entry. */
  lemma EntryPut(c: seq<Byte>, i: nat, e: Entry)
    requires i < ENTRIES && |c| == ENTRIES * ENTRY && Writable(e)
    ensures var n := c[..i * ENTRY] + EntryBytes(e) + c[i * ENTRY + ENTRY..];
            && |n| == |c| && EntryAt(n, i) == e
            && forall j | 0 <= j < ENTRIES && j != i :: EntryAt(n, j) == EntryAt(c, j)
  {
    var n := c[..i * ENTRY] + EntryBytes(e) + c[i * ENTRY + ENTRY..];
    assert n[i * ENTRY..i * ENTRY + ENTRY] == EntryBytes(e);
    EntryRoundTrip(e);
    forall j | 0 <= j < ENTRIES && j != i ensures EntryAt(n, j) == EntryAt(c, j) {
      assert n[j * ENTRY..j * ENTRY + ENTRY] == c[j * ENTRY..j * ENTRY + ENTRY];
    }
  }

  /** A directory of zeros has no entry in use. */
  lemma NoEntries(i: nat)
    requires i < ENTRIES
    ensures !EntryAt(Zeros(ENTRIES * ENTRY), i).inUse
  {
  }

  // ----- the invariant -----

  ghost predicate Listed(c: seq<Byte>, s: nat)
    requires |c| == ENTRIES * ENTRY
  {
    exists i | 0 <= i < ENTRIES :: EntryAt(c, i).inUse && EntryAt(c, i).sector == s
  }

  /** The entries in use have terminated names and are different files, none of
      them removed. */
  ghost predicate DirectoryOk(c: seq<Byte>, open: map<nat, Inode>, files: map<nat, Meta>) {
    && |c| == ENTRIES * ENTRY
    && (forall i | 0 <= i < ENTRIES && EntryAt(c, i).inUse ::
          var s := EntryAt(c, i).sector;
          s >= 2 && s in files && (s in open ==> !open[s].removed) && 0 in EntryAt(c, i).name)
    && (forall i, j | 0 <= i < j < ENTRIES && EntryAt(c, i).inUse && EntryAt(c, j).inUse ::
          EntryAt(c, i).sector != EntryAt(c, j).sector)
  }

  /** An open inode describes its file, and has an opener. */
  ghost predicate OpenOk(open: map<nat, Inode>, files: map<nat, Meta>) {
    forall s | s in open ::
      && s in files && Meta(open[s].start, open[s].length) == files[s]
      && open[s].openCnt >= 1 && (open[s].removed ==> s >= 2)
  }

  /** The system files are there, and the free map stays open and writable. */
  ghost predicate SystemFiles(d: Sectors, open: map<nat, Inode>, files: map<nat, Meta>) {
    && FREE_MAP_SECTOR in files && ROOT_DIR_SECTOR in files
    && files[FREE_MAP_SECTOR].length == ByteCnt(|d|)
    && files[ROOT_DIR_SECTOR].length == ENTRIES * ENTRY
    && FREE_MAP_SECTOR in open && open[FREE_MAP_SECTOR].denyWriteCnt == 0
    && (ROOT_DIR_SECTOR in open ==> open[ROOT_DIR_SECTOR].denyWriteCnt == 0)
  }

  /** `files` are the system files, the listed files and the open files, their
      sectors are marked used and disjoint, and the directory is sound. */
  ghost predicate Good(d: Sectors, b: seq<bool>, open: map<nat, Inode>, files: map<nat, Meta>) {
    && |d| < MAX32
    && Layout(d, b, files) && OpenOk(open, files) && SystemFiles(d, open, files)
    && var c := Contents(d, files[ROOT_DIR_SECTOR]);
       && DirectoryOk(c, open, files)
       && forall s | s in files :: s < 2 || s in open || Listed(c, s)
  }

  /** The free set that a disk image of the free map stands for. */
  ghost function FreeMapImage(c: seq<Byte>, n: nat): seq<bool>
    requires |c| == ByteCnt(n)
  {
    BitsOf(BytesWords(c), n)
  }

  /** The disk image of the free map decodes to the map in memory. */
  ghost predicate Synced(d: Sectors, b: seq<bool>, m: Meta)
    requires Formed(d) && OnDisk(d, m.start, m.length) && m.length == ByteCnt(|b|)
  {
    FreeMapImage(Contents(d, m), |b|) == b
  }

  // ----- how the invariant survives each kind of change -----

  /** Data written to a user's file, or a free-map image to the free-map file. */
  lemma WriteKeeps(d: Sectors, b: seq<bool>, open: map<nat, Inode>, files: map<nat, Meta>,
                   f: nat, offset: nat, data: seq<Byte>)
    requires Good(d, b, open, files) && f in files && f != ROOT_DIR_SECTOR && offset + |data| <= files[f].length
    ensures var e := Poke(d, files[f].start, offset, data);
            && Good(e, b, open, files)
            && Contents(e, files[ROOT_DIR_SECTOR]) == Contents(d, files[ROOT_DIR_SECTOR])
            && (f != FREE_MAP_SECTOR ==> Contents(e, files[FREE_MAP_SECTOR]) == Contents(d, files[FREE_MAP_SECTOR]))
  {
    hide Poke, HasFile, Apart;
    WriteKeepsLayout(d, b, files, f, offset, data);
  }

  /** Sectors marked used, as allocation does. */
  lemma MarkKeeps(d: Sectors, b: seq<bool>, open: map<nat, Inode>, files: map<nat, Meta>, x: nat, cnt: nat)
    requires Good(d, b, open, files) && x + cnt <= |b|
    ensures Good(d, WithRange(b, x, cnt, true), open, files)
  {
    MarkKeepsLayout(d, b, files, x, cnt);
  }

  ghost predicate Nobodys(files: map<nat, Meta>, x: nat) {
    x !in files && forall s | s in files :: !InExtent(files[s], x)
  }

  /** A file opened, or opened again. */
  lemma OpenKeeps(d: Sectors, b: seq<bool>, open: map<nat, Inode>, files: map<nat, Meta>, s: nat, i: Inode)
    requires Good(d, b, open, files) && s in files && Meta(i.start, i.length) == files[s] && i.openCnt >= 1
    requires i.removed == (s in open && open[s].removed)
    requires s < 2 ==> i.denyWriteCnt == 0
    ensures Good(d, b, open[s := i], files)
  {
    hide Layout;
  }

  /** The last opener of the root, or of a file that stays listed, goes. */
  lemma CloseKeeps(d: Sectors, b: seq<bool>, open: map<nat, Inode>, files: map<nat, Meta>, s: nat)
    requires Good(d, b, open, files) && s in open && s != FREE_MAP_SECTOR
    requires s == ROOT_DIR_SECTOR || Listed(Contents(d, files[ROOT_DIR_SECTOR]), s)
    ensures Good(d, b, open - {s}, files)
  {
    hide Layout;
  }

  /** The last opener of a file that is not listed goes, and the file with it. */
  lemma VanishKeeps(d: Sectors, b: seq<bool>, open: map<nat, Inode>, files: map<nat, Meta>, s: nat)
    requires Good(d, b, open, files) && s in open && s >= 2
    requires !Listed(Contents(d, files[ROOT_DIR_SECTOR]), s)
    ensures Good(d, b, open - {s}, files - {s})
  {
    ForgetKeepsLayout(d, b, files, s);
  }

  /** Sectors of no file marked free. */
  lemma ReleaseKeeps(d: Sectors, b: seq<bool>, open: map<nat, Inode>, files: map<nat, Meta>, x: nat, cnt: nat)
    requires Good(d, b, open, files) && x + cnt <= |b|
    requires forall k | x <= k < x + cnt :: Nobodys(files, k)
    ensures Good(d, WithRange(b, x, cnt, false), open, files)
  {
    ReleaseKeepsLayout(d, b, files, x, cnt);
  }

  lemma ReleaseKeepsLayout(d: Sectors, b: seq<bool>, files: map<nat, Meta>, x: nat, cnt: nat)
    requires Layout(d, b, files) && x + cnt <= |b|
    requires forall k | x <= k < x + cnt :: Nobodys(files, k)
    ensures Layout(d, WithRange(b, x, cnt, false), files)
  {
    var n := WithRange(b, x, cnt, false);
    forall s | s in files ensures HasFile(d, n, s, files[s]) {
      assert HasFile(d, b, s, files[s]);
      assert x <= s < x + cnt ==> Nobodys(files, s);
      forall k | InExtent(files[s], k) ensures n[k] {
        assert x <= k < x + cnt ==> Nobodys(files, k);
      }
    }
  }

  lemma LayoutParts(d: Sectors, b: seq<bool>, files: map<nat, Meta>)
    requires Layout(d, b, files)
    ensures Formed(d) && |b| == |d|
    ensures forall s | s in files :: OnDisk(d, files[s].start, files[s].length)
  {
  }

  /** The sectors of a file that has left are nobody's, and still marked used. */
  lemma LeftBehind(d: Sectors, b: seq<bool>, files: map<nat, Meta>, s: nat)
    requires Layout(d, b, files) && s in files
    ensures var m := files[s];
            && s + 1 <= |b| && AllAre(b, s, 1, true) && Nobodys(files - {s}, s)
            && m.start + SectorsFor(m.length) <= |b|
            && AllAre(WithRange(b, s, 1, false), m.start, SectorsFor(m.length), true)
            && forall k | m.start <= k < m.start + SectorsFor(m.length) :: Nobodys(files - {s}, k)
  {
    var m := files[s];
    forall k | m.start <= k < m.start + SectorsFor(m.length) ensures Nobodys(files - {s}, k) {
      assert InExtent(m, k);
    }
  }

  ghost function RootAfter(d: Sectors, root: Meta, i: nat, e: Entry): Sectors
    requires Formed(d) && Writable(e)
  {
    Poke(d, root.start, i * ENTRY, EntryBytes(e))
  }

  /** An entry written to the root directory's file. */
  lemma RootWritten(d: Sectors, b: seq<bool>, files: map<nat, Meta>, i: nat, e: Entry)
    requires Layout(d, b, files) && ROOT_DIR_SECTOR in files && files[ROOT_DIR_SECTOR].length == ENTRIES * ENTRY
    requires i < ENTRIES && Writable(e)
    ensures var root := files[ROOT_DIR_SECTOR];
            var n := RootAfter(d, root, i, e);
            && Layout(n, b, files)
            && (forall g | g in files && g != ROOT_DIR_SECTOR :: Contents(n, files[g]) == Contents(d, files[g]))
            && EntryAt(Contents(n, root), i) == e
            && forall j | 0 <= j < ENTRIES && j != i ::
                 EntryAt(Contents(n, root), j) == EntryAt(Contents(d, root), j)
  {
    hide Poke, Layout;
    LayoutParts(d, b, files);
    WriteKeepsLayout(d, b, files, ROOT_DIR_SECTOR, i * ENTRY, EntryBytes(e));
    EntryPut(Contents(d, files[ROOT_DIR_SECTOR]), i, e);
  }

  /** A listed, open file is removed: its entry is erased and it is marked. */
  lemma EraseKeeps(d: Sectors, b: seq<bool>, open: map<nat, Inode>, files: map<nat, Meta>, i: nat)
    requires Good(d, b, open, files) && i < ENTRIES
    requires var e := EntryAt(Contents(d, files[ROOT_DIR_SECTOR]), i); e.inUse && e.sector in open
    ensures var root := files[ROOT_DIR_SECTOR];
            var e := EntryAt(Contents(d, root), i);
            var n := RootAfter(d, root, i, e.(inUse := false));
            && Good(n, b, open[e.sector := open[e.sector].(removed := true)], files)
            && Contents(n, files[FREE_MAP_SECTOR]) == Contents(d, files[FREE_MAP_SECTOR])
            && !Listed(Contents(n, root), e.sector)
  {
    hide Layout, Poke, RootAfter, EntryAt;
    LayoutParts(d, b, files);
    var root := files[ROOT_DIR_SECTOR];
    var e := EntryAt(Contents(d, root), i);
    var n := RootAfter(d, root, i, e.(inUse := false));
    RootWritten(d, b, files, i, e.(inUse := false));
    LayoutParts(n, b, files);
    var c, c' := Contents(d, root), Contents(n, root);
    forall s | s in files && s >= 2 && s !in open && Listed(c, s) ensures Listed(c', s) {
      var j :| 0 <= j < ENTRIES && EntryAt(c, j).inUse && EntryAt(c, j).sector == s;
      assert EntryAt(c', j) == EntryAt(c, j);
    }
  }

  /** A file that has been written out but is not in the directory yet: its
      inode sector and its extent are marked used and nobody's. */
  ghost predicate Pending(d: Sectors, b: seq<bool>, files: map<nat, Meta>, s: nat, m: Meta) {
    && HasFile(d, b, s, m) && Nobodys(files, s) && !InExtent(m, s)
    && forall k | InExtent(m, k) :: Nobodys(files, k)
  }

  /** The files once `s` has been entered at position `i`: a file whose entry was
      there is gone, unless it is open. */
  ghost function Entered(c: seq<Byte>, open: map<nat, Inode>, files: map<nat, Meta>, i: nat, s: nat, m: Meta)
      : map<nat, Meta>
    requires i < ENTRIES && |c| == ENTRIES * ENTRY
  {
    var e := EntryAt(c, i);
    if e.inUse && e.sector !in open then files[s := m] - {e.sector} else files[s := m]
  }

  lemma PendingJoins(d: Sectors, b: seq<bool>, files: map<nat, Meta>, s: nat, m: Meta)
    requires Layout(d, b, files) && Pending(d, b, files, s, m)
    ensures Layout(d, b, files[s := m])
  {
    forall t | t in files ensures !InExtent(m, t) && !InExtent(files[t], s) {
      assert InExtent(m, t) ==> Nobodys(files, t);
    }
    forall t, k | t in files && InExtent(m, k) ensures !InExtent(files[t], k) {
      assert Nobodys(files, k);
    }
    JoinKeepsLayout(d, b, files, s, m);
  }

  /** Writing into another file does not disturb a pending one. */
  lemma PendingStays(d: Sectors, b: seq<bool>, files: map<nat, Meta>, s: nat, m: Meta,
                     f: nat, offset: nat, data: seq<Byte>)
    requires Layout(d, b, files) && Pending(d, b, files, s, m)
    requires f in files && offset + |data| <= files[f].length
    ensures Pending(Poke(d, files[f].start, offset, data), b, files, s, m)
  {
    hide Poke;
    PokedElsewhere(d, files[f].start, files[f].length, offset, data, s);
  }

  /** A pending file is entered in the directory. */
  lemma EnterKeeps(d: Sectors, b: seq<bool>, open: map<nat, Inode>, files: map<nat, Meta>, i: nat, e: Entry, m: Meta)
    requires Good(d, b, open, files) && i < ENTRIES && Writable(e) && e.inUse && 0 in e.name
    requires Pending(d, b, files, e.sector, m)
    ensures var root := files[ROOT_DIR_SECTOR];
            var n := RootAfter(d, root, i, e);
            var now := Entered(Contents(d, root), open, files, i, e.sector, m);
            && Good(n, b, open, now)
            && Contents(n, files[FREE_MAP_SECTOR]) == Contents(d, files[FREE_MAP_SECTOR])
            && now[FREE_MAP_SECTOR] == files[FREE_MAP_SECTOR]
  {
    hide Layout, Poke, RootAfter, Pending, EntryAt;
    LayoutParts(d, b, files);
    PendingParts(d, b, files, e.sector, m);
    var root := files[ROOT_DIR_SECTOR];
    var n := RootAfter(d, root, i, e);
    var c := Contents(d, root);
    var now := Entered(c, open, files, i, e.sector, m);
    RootWritten(d, b, files, i, e);
    EnterLayout(d, b, open, files, i, e, m);
    LayoutParts(n, b, files);
    EnterDirectory(c, Contents(n, root), open, files, i, e, m);
  }

  lemma PendingParts(d: Sectors, b: seq<bool>, files: map<nat, Meta>, s: nat, m: Meta)
    requires Pending(d, b, files, s, m)
    ensures s !in files
  {
  }

  lemma EnterLayout(d: Sectors, b: seq<bool>, open: map<nat, Inode>, files: map<nat, Meta>, i: nat, e: Entry, m: Meta)
    requires Good(d, b, open, files) && i < ENTRIES && Writable(e)
    requires Pending(d, b, files, e.sector, m)
    ensures var root := files[ROOT_DIR_SECTOR];
            Layout(RootAfter(d, root, i, e), b, Entered(Contents(d, root), open, files, i, e.sector, m))
  {
    hide Layout, Poke, Pending;
    LayoutParts(d, b, files);
    var root := files[ROOT_DIR_SECTOR];
    var n := RootAfter(d, root, i, e);
    RootWritten(d, b, files, i, e);
    PendingStays(d, b, files, e.sector, m, ROOT_DIR_SECTOR, i * ENTRY, EntryBytes(e));
    PendingJoins(n, b, files, e.sector, m);
    ForgetKeepsLayout(n, b, files[e.sector := m], EntryAt(Contents(d, root), i).sector);
  }

  /** The directory itself, once the entry at `i` is the new one. */
  lemma EnterDirectory(c: seq<Byte>, n: seq<Byte>, open: map<nat, Inode>, files: map<nat, Meta>,
                       i: nat, e: Entry, m: Meta)
    requires DirectoryOk(c, open, files) && OpenOk(open, files)
    requires i < ENTRIES && e.inUse && e.sector >= 2 && e.sector !in files && 0 in e.name
    requires |n| == |c| && EntryAt(n, i) == e
    requires forall j | 0 <= j < ENTRIES && j != i :: EntryAt(n, j) == EntryAt(c, j)
    requires forall s | s in files :: s < 2 || s in open || Listed(c, s)
    ensures var now := Entered(c, open, files, i, e.sector, m);
            && DirectoryOk(n, open, now) && OpenOk(open, now)
            && forall s | s in now :: s < 2 || s in open || Listed(n, s)
  {
    hide EntryAt, Listed;
    var now := Entered(c, open, files, i, e.sector, m);
    forall s | s in now && s >= 2 && s !in open ensures Listed(n, s) {
      StillListed(c, n, i, e, s);
    }
  }

  lemma StillListed(c: seq<Byte>, n: seq<Byte>, i: nat, e: Entry, s: nat)
    requires |n| == |c| == ENTRIES * ENTRY && i < ENTRIES && e.inUse && EntryAt(n, i) == e
    requires forall j | 0 <= j < ENTRIES && j != i :: EntryAt(n, j) == EntryAt(c, j)
    requires s == e.sector || (Listed(c, s) && (EntryAt(c, i).inUse ==> s != EntryAt(c, i).sector))
    ensures Listed(n, s)
  {
    hide EntryAt;
    if s == e.sector {
      assert EntryAt(n, i).inUse && EntryAt(n, i).sector == s;
    } else {
      var j :| 0 <= j < ENTRIES && EntryAt(c, j).inUse && EntryAt(c, j).sector == s;
      assert EntryAt(n, j) == EntryAt(c, j);
    }
  }

  /** Sectors that are nobody's overwritten. */
  lemma ScribblesKeep(d: Sectors, n: Sectors, b: seq<bool>, open: map<nat, Inode>, files: map<nat, Meta>)
    requires Good(d, b, open, files) && Formed(n) && |n| == |d|
    requires forall k | 0 <= k < |d| && n[k] != d[k] :: Nobodys(files, k)
    ensures Good(n, b, open, files)
    ensures forall g | g in files :: Contents(n, files[g]) == Contents(d, files[g])
  {
    hide SectorsFor, EntryAt, OpenOk;
    ScribblesKeepLayout(d, n, b, files);
  }

  lemma ScribblesKeepLayout(d: Sectors, n: Sectors, b: seq<bool>, files: map<nat, Meta>)
    requires Layout(d, b, files) && Formed(n) && |n| == |d|
    requires forall k | 0 <= k < |d| && n[k] != d[k] :: Nobodys(files, k)
    ensures Layout(n, b, files)
    ensures forall g | g in files :: Contents(n, files[g]) == Contents(d, files[g])
  {
    forall g | g in files ensures Contents(n, files[g]) == Contents(d, files[g]) {
      SameContents(d, n, files[g]);
    }
    forall g | g in files ensures HasFile(n, b, g, files[g]) {
      assert HasFile(d, b, g, files[g]);
    }
  }
}
