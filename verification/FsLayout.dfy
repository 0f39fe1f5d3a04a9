/** What lies where on a file-system disk: inode sectors, the extents they
    describe, and the map of used sectors. */
module FsLayout {
  import opened Storage
  import opened Bitmaps
  import opened Encoding

  const INODE_MAGIC: nat := 0x494e4f44

  /** Where a file's data is. */
  datatype Meta = Meta(start: nat, length: nat)

  ghost predicate Storable(m: Meta) { m.start < MAX32 && m.length < MAX32 }

  /** The sector that holds an inode. */
  function InodeSector(m: Meta): (b: seq<Byte>)
    requires Storable(m)
    ensures |b| == SECTOR
  {
    Le32(m.start) + Le32(m.length) + Le32(INODE_MAGIC) + Zeros(500)
  }

  function ReadInode(b: seq<Byte>): Meta
    requires |b| == SECTOR
  {
    Meta(FromLe32(b[0..4]), FromLe32(b[4..8]))
  }

  lemma InodeRoundTrip(m: Meta)
    requires Storable(m)
    ensures ReadInode(InodeSector(m)) == m
  {
    var b := InodeSector(m);
    assert b[0..4] == Le32(m.start) && b[4..8] == Le32(m.length);
    Le32RoundTrip(m.start);
    Le32RoundTrip(m.length);
  }

  ghost predicate InExtent(m: Meta, k: int) {
    m.start <= k < m.start + SectorsFor(m.length)
  }

  /** Inode sector `s` describes a file that is on the disk and marked used. */
  ghost predicate HasFile(d: Sectors, b: seq<bool>, s: nat, m: Meta) {
    && s < |d| == |b| && Storable(m) && OnDisk(d, m.start, m.length)
    && d[s] == InodeSector(m)
    && b[s] && forall k | InExtent(m, k) :: b[k]
  }

  /** No extent contains an inode sector, and no two extents overlap. */
  ghost predicate Apart(files: map<nat, Meta>) {
    && (forall s, t | s in files && t in files :: !InExtent(files[s], t))
    && (forall s, t, k | s in files && t in files && s != t && InExtent(files[s], k) :: !InExtent(files[t], k))
  }

  ghost predicate Layout(d: Sectors, b: seq<bool>, files: map<nat, Meta>) {
    && Formed(d) && |b| == |d|
    && (forall s | s in files :: HasFile(d, b, s, files[s]))
    && Apart(files)
  }

  ghost function Contents(d: Sectors, m: Meta): seq<Byte>
    requires Formed(d) && OnDisk(d, m.start, m.length)
  {
    FileBytes(d, m.start, m.length)
  }

  /** A file's contents depend on the sectors of its extent only. */
  lemma SameContents(d: Sectors, e: Sectors, m: Meta)
    requires Formed(d) && Formed(e) && |d| == |e| && OnDisk(d, m.start, m.length)
    requires forall k | InExtent(m, k) :: e[k] == d[k]
    ensures Contents(e, m) == Contents(d, m)
  {
    forall k | 0 <= k < m.length ensures Contents(e, m)[k] == Contents(d, m)[k] {
      PlaceOnDisk(d, m.start, m.length, k);
      assert InExtent(m, m.start + k / SECTOR);
    }
  }

  /** Writing into one file leaves every inode and every other file alone. */
  lemma WriteKeepsLayout(d: Sectors, b: seq<bool>, files: map<nat, Meta>, f: nat, offset: nat, data: seq<Byte>)
    requires Layout(d, b, files) && f in files && offset + |data| <= files[f].length
    ensures var e := Poke(d, files[f].start, offset, data);
            && Layout(e, b, files)
            && (forall g | g in files && g != f :: Contents(e, files[g]) == Contents(d, files[g]))
            && var c := Contents(d, files[f]);
               Contents(e, files[f]) == c[..offset] + data + c[offset + |data|..]
  {
    hide Poke;
    var m := files[f];
    var e := Poke(d, m.start, offset, data);
    forall k | 0 <= k < |d| && !InExtent(m, k) ensures e[k] == d[k] {
      PokedElsewhere(d, m.start, m.length, offset, data, k);
    }
    forall g | g in files && g != f ensures Contents(e, files[g]) == Contents(d, files[g]) {
      SameContents(d, e, files[g]);
    }
    PokedFile(d, m.start, m.length, offset, data);
  }

  /** Every sector of `files` is marked used, so a free one belongs to nobody. */
  lemma FreeIsNobodys(d: Sectors, b: seq<bool>, files: map<nat, Meta>, x: nat)
    requires Layout(d, b, files) && x < |b| && !b[x]
    ensures x !in files && forall s | s in files :: !InExtent(files[s], x)
  {
  }

  /** Marking more sectors as used changes nothing. */
  lemma MarkKeepsLayout(d: Sectors, b: seq<bool>, files: map<nat, Meta>, x: nat, cnt: nat)
    requires Layout(d, b, files) && x + cnt <= |b|
    ensures Layout(d, WithRange(b, x, cnt, true), files)
  {
  }

  /** A file with fresh sectors joins. */
  lemma JoinKeepsLayout(d: Sectors, b: seq<bool>, files: map<nat, Meta>, s: nat, m: Meta)
    requires Layout(d, b, files) && s !in files && HasFile(d, b, s, m) && !InExtent(m, s)
    requires forall t | t in files :: !InExtent(m, t) && !InExtent(files[t], s)
    requires forall t, k | t in files && InExtent(m, k) :: !InExtent(files[t], k)
    ensures Layout(d, b, files[s := m])
  {
  }

  lemma ForgetKeepsLayout(d: Sectors, b: seq<bool>, files: map<nat, Meta>, s: nat)
    requires Layout(d, b, files)
    ensures Layout(d, b, files - {s})
  {
  }
}
