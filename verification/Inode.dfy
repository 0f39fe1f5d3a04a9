/** Reading and writing files sector by sector.  The loops clip each chunk to
    the sector and to the end of the file, and go through a bounce buffer when
    a chunk is not a whole sector; `bounceOk` says whether the allocation of
    that buffer succeeds. */
module Inodes {
  import opened Storage

  /** The disk.  Sector transfers are whole. */
  class Disk {
    var sectors: Sectors

    constructor (initial: Sectors)
      ensures sectors == initial
    {
      sectors := initial;
    }

    method Read(s: nat) returns (data: seq<Byte>)
      requires s < |sectors|
      ensures data == sectors[s]
    {
      data := sectors[s];
    }

    method Write(s: nat, data: seq<Byte>)
      requires s < |sectors|
      modifies this
      ensures sectors == old(sectors)[s := data]
    {
      sectors := sectors[s := data];
    }
  }

  /** An inode in memory: where its file lies, and the counters of its openers. */
  datatype Inode = Inode(start: nat, length: nat, openCnt: nat, removed: bool, denyWriteCnt: nat)

  function Min(a: int, b: int): int { if a < b then a else b }

  /** The request clipped at the end of the file. */
  function Clipped(length: nat, size: int, offset: nat): nat {
    var n := Min(size, length - offset);
    if n <= 0 then 0 else n
  }

  /** How much is transferred: everything asked for up to the end of the file,
      or, without a bounce buffer, the whole sectors at the front of it. */
  function Transferred(length: nat, size: int, offset: nat, bounceOk: bool): (n: nat)
    ensures n <= Clipped(length, size, offset)
  {
    var n := Clipped(length, size, offset);
    if bounceOk then n
    else if offset % SECTOR != 0 then 0
    else n / SECTOR * SECTOR
  }

  /** The size of the next chunk. */
  function Chunk(length: nat, size: int, offset: nat): int {
    Min(size, Min(length - offset, SECTOR - offset % SECTOR))
  }

  lemma ChunkBounds(length: nat, size: int, offset: nat)
    ensures var c := Chunk(length, size, offset);
            c <= size && offset + c <= length && offset % SECTOR + c <= SECTOR
  {
  }

  /** Taking one chunk off the front of a request. */
  lemma ChunkStep(length: nat, size: int, offset: nat, bounceOk: bool)
    requires size > 0
    ensures var c := Chunk(length, size, offset);
            var whole := offset % SECTOR == 0 && c == SECTOR;
            if c <= 0 || (!whole && !bounceOk) then Transferred(length, size, offset, bounceOk) == 0
            else Transferred(length, size, offset, bounceOk) ==
                 c + Transferred(length, size - c, offset + c, bounceOk)
  {
  }

  /** A chunk within a sector is a stretch of the file. */
  lemma ChunkOfFile(d: Sectors, start: nat, length: nat, offset: nat, c: nat)
    requires Formed(d) && OnDisk(d, start, length)
    requires offset < length && offset + c <= length && offset % SECTOR + c <= SECTOR
    ensures start + offset / SECTOR < |d|
    ensures d[start + offset / SECTOR][offset % SECTOR..offset % SECTOR + c]
            == FileBytes(d, start, length)[offset..offset + c]
  {
    PlaceOnDisk(d, start, length, offset);
    var a, b := d[start + offset / SECTOR][offset % SECTOR..offset % SECTOR + c],
                FileBytes(d, start, length)[offset..offset + c];
    forall k | 0 <= k < c ensures a[k] == b[k] {
      assert (offset + k) / SECTOR == offset / SECTOR && (offset + k) % SECTOR == offset % SECTOR + k;
    }
  }

  /** `memcpy` into the caller's buffer. */
  method CopyInto(buffer: array<Byte>, at: nat, data: seq<Byte>)
    requires at + |data| <= buffer.Length
    modifies buffer
    ensures buffer[..] == old(buffer[..])[..at] + data + old(buffer[..])[at + |data|..]
  {
    forall k | 0 <= k < |data| {
      buffer[at + k] := data[k];
    }
  }

  /** Copy `size` bytes from `ofs` on of one sector into the buffer, through the
      bounce buffer unless that is the whole sector. */
  method GetChunk(disk: Disk, sectorIdx: nat, ofs: nat, size: nat, bounceOk: bool, buffer: array<Byte>, at: nat)
      returns (ok: bool)
    requires Formed(disk.sectors) && sectorIdx < |disk.sectors| && ofs + size <= SECTOR
    requires at + size <= buffer.Length
    modifies buffer
    ensures ok <==> bounceOk || (ofs == 0 && size == SECTOR)
    ensures var b := old(buffer[..]);
            buffer[..] == if ok then b[..at] + disk.sectors[sectorIdx][ofs..ofs + size] + b[at + size..] else b
  {
    ok := true;
    if ofs == 0 && size == SECTOR {
      var whole := disk.Read(sectorIdx);
      assert whole == whole[ofs..ofs + size];
      CopyInto(buffer, at, whole);
    } else {
      if !bounceOk {
        ok := false;
        return;
      }
      var bounce := disk.Read(sectorIdx);
      CopyInto(buffer, at, bounce[ofs..ofs + size]);
    }
  }

  /** The buffer with the first `n` bytes replaced by the file's from `offset`. */
  ghost function Filled(before: seq<Byte>, file: seq<Byte>, offset: nat, n: nat): seq<Byte>
    requires n > 0 ==> n <= |before| && offset + n <= |file|
  {
    if n == 0 then before else file[offset..offset + n] + before[n..]
  }

  lemma FilledMore(before: seq<Byte>, file: seq<Byte>, offset: nat, n: nat, c: nat)
    requires 0 < c && n + c <= |before| && offset + n + c <= |file|
    ensures var b := Filled(before, file, offset, n);
            |b| == |before| &&
            Filled(before, file, offset, n + c) == b[..n] + file[offset + n..offset + n + c] + b[n + c..]
  {
  }

  /** One more chunk of the file in the buffer. */
  lemma ChunkFills(d: Sectors, start: nat, length: nat, before: seq<Byte>, offset: nat, n: nat, c: nat)
    requires Formed(d) && OnDisk(d, start, length)
    requires 0 < c && n + c <= |before| && offset + n + c <= length && (offset + n) % SECTOR + c <= SECTOR
    ensures start + (offset + n) / SECTOR < |d|
    ensures var file := FileBytes(d, start, length);
            var b := Filled(before, file, offset, n);
            var s, ofs := start + (offset + n) / SECTOR, (offset + n) % SECTOR;
            |b| == |before| && Filled(before, file, offset, n + c) == b[..n] + d[s][ofs..ofs + c] + b[n + c..]
  {
    ChunkOfFile(d, start, length, offset + n, c);
    FilledMore(before, FileBytes(d, start, length), offset, n, c);
  }

  method ReadAt(disk: Disk, inode: Inode, buffer: array<Byte>, size0: int, offset0: nat, bounceOk: bool)
      returns (bytesRead: nat)
    requires Formed(disk.sectors) && OnDisk(disk.sectors, inode.start, inode.length)
    requires size0 <= buffer.Length
    modifies buffer
    ensures bytesRead == Transferred(inode.length, size0, offset0, bounceOk)
    ensures bytesRead > 0 ==> bytesRead <= buffer.Length && offset0 + bytesRead <= inode.length
    ensures buffer[..] ==
            Filled(old(buffer[..]), FileBytes(disk.sectors, inode.start, inode.length), offset0, bytesRead)
  {
    hide Transferred, FileBytes, Filled, Chunk, Formed;
    var size, offset := size0, offset0;
    bytesRead := 0;
    ghost var file := FileBytes(disk.sectors, inode.start, inode.length);
    ghost var before := buffer[..];
    FilledNothing(before, file, offset0);
    while size > 0
      invariant bytesRead + size == size0 && offset == offset0 + bytesRead
      invariant bytesRead + Transferred(inode.length, size, offset, bounceOk)
                == Transferred(inode.length, size0, offset0, bounceOk)
      invariant bytesRead > 0 ==> offset <= inode.length && bytesRead <= buffer.Length
      invariant buffer[..] == Filled(before, file, offset0, bytesRead)
      decreases size
    {
      ChunkStep(inode.length, size, offset, bounceOk);
      var sectorOfs := offset % SECTOR;
      var chunkSize := Chunk(inode.length, size, offset);
      if chunkSize <= 0 {
        break;
      }
      ChunkBounds(inode.length, size, offset);
      ChunkFills(disk.sectors, inode.start, inode.length, before, offset0, bytesRead, chunkSize);
      var ok := GetChunk(disk, inode.start + offset / SECTOR, sectorOfs, chunkSize, bounceOk, buffer, bytesRead);
      if !ok {
        break;
      }
      size := size - chunkSize;
      offset := offset + chunkSize;
      bytesRead := bytesRead + chunkSize;
    }
    NothingLeft(inode.length, size, offset, bounceOk);
  }

  lemma FilledNothing(before: seq<Byte>, file: seq<Byte>, offset: nat)
    ensures Filled(before, file, offset, 0) == before
  {
  }

  lemma NothingLeft(length: nat, size: int, offset: nat, bounceOk: bool)
    ensures size <= 0 ==> Transferred(length, size, offset, bounceOk) == 0
  {
  }

  /** Put `chunk` at `ofs` within one sector, through the bounce buffer unless it
      is the whole sector.  A chunk that is not whole always leaves something of
      the sector to keep, so the sector is always read first. */
  method PutChunk(disk: Disk, sectorIdx: nat, ofs: nat, chunk: seq<Byte>, bounceOk: bool) returns (ok: bool)
    requires Formed(disk.sectors) && sectorIdx < |disk.sectors| && chunk != [] && ofs + |chunk| <= SECTOR
    modifies disk
    ensures ok <==> bounceOk || (ofs == 0 && |chunk| == SECTOR)
    ensures var was := old(disk.sectors)[sectorIdx];
            disk.sectors == if ok then old(disk.sectors)[sectorIdx := was[..ofs] + chunk + was[ofs + |chunk|..]]
                            else old(disk.sectors)
  {
    ok := true;
    if ofs == 0 && |chunk| == SECTOR {
      ghost var was := disk.sectors[sectorIdx];
      assert was[..ofs] + chunk + was[ofs + |chunk|..] == chunk;
      disk.Write(sectorIdx, chunk);
    } else {
      if !bounceOk {
        ok := false;
        return;
      }
      var bounce := [];
      if ofs > 0 || |chunk| < SECTOR - ofs {
        bounce := disk.Read(sectorIdx);
      } else {
        assert false;
      }
      bounce := bounce[..ofs] + chunk + bounce[ofs + |chunk|..];
      disk.Write(sectorIdx, bounce);
    }
  }

  method WriteAt(disk: Disk, inode: Inode, buffer: seq<Byte>, size0: int, offset0: nat, bounceOk: bool)
      returns (bytesWritten: nat)
    requires Formed(disk.sectors) && OnDisk(disk.sectors, inode.start, inode.length)
    requires size0 <= |buffer|
    modifies disk
    ensures bytesWritten == if inode.denyWriteCnt > 0 then 0
                            else Transferred(inode.length, size0, offset0, bounceOk)
    ensures bytesWritten > 0 ==> bytesWritten <= |buffer| && offset0 + bytesWritten <= inode.length
    ensures disk.sectors == Poke(old(disk.sectors), inode.start, offset0, buffer[..bytesWritten])
  {
    hide Transferred, Poke, Chunk;
    var size, offset := size0, offset0;
    bytesWritten := 0;
    ghost var d := disk.sectors;
    PokeNothing(d, inode.start, offset0);
    assert buffer[..0] == [];
    if inode.denyWriteCnt > 0 {
      return;
    }
    while size > 0
      invariant bytesWritten + size == size0 && offset == offset0 + bytesWritten
      invariant bytesWritten + Transferred(inode.length, size, offset, bounceOk)
                == Transferred(inode.length, size0, offset0, bounceOk)
      invariant bytesWritten > 0 ==> offset <= inode.length && bytesWritten <= |buffer|
      invariant disk.sectors == Poke(d, inode.start, offset0, buffer[..bytesWritten])
      decreases size
    {
      ChunkStep(inode.length, size, offset, bounceOk);
      var chunkSize := Chunk(inode.length, size, offset);
      if chunkSize <= 0 {
        break;
      }
      ChunkBounds(inode.length, size, offset);
      PlaceOnDisk(d, inode.start, inode.length, offset);
      var sectorIdx, ofs := inode.start + offset / SECTOR, offset % SECTOR;
      ghost var was := disk.sectors[sectorIdx];
      var chunk := buffer[bytesWritten..bytesWritten + chunkSize];
      var ok := PutChunk(disk, sectorIdx, ofs, chunk, bounceOk);
      if !ok {
        break;
      }
      PokeChunk(d, inode.start, offset0, buffer, bytesWritten, chunkSize, was[..ofs] + chunk + was[ofs + chunkSize..]);
      size := size - chunkSize;
      offset := offset + chunkSize;
      bytesWritten := bytesWritten + chunkSize;
    }
    NothingLeft(inode.length, size, offset, bounceOk);
  }

  /** What was written reads back, for any request and any later read within it,
      and the rest of the file and the disk is as before: the two flat views of
      one write. */
  lemma WriteThenRead(d: Sectors, start: nat, length: nat, offset: nat, data: seq<Byte>)
    requires Formed(d) && OnDisk(d, start, length) && offset + |data| <= length
    ensures var n := Poke(d, start, offset, data);
            && FileBytes(n, start, length)[offset..offset + |data|] == data
            && FileBytes(n, start, length)[..offset] == FileBytes(d, start, length)[..offset]
            && FileBytes(n, start, length)[offset + |data|..] == FileBytes(d, start, length)[offset + |data|..]
            && forall s | 0 <= s < |d| && (s < start || start + SectorsFor(length) <= s) :: n[s] == d[s]
  {
    PokedFile(d, start, length, offset, data);
    forall s | 0 <= s < |d| && (s < start || start + SectorsFor(length) <= s)
      ensures Poke(d, start, offset, data)[s] == d[s]
    {
      PokedElsewhere(d, start, length, offset, data, s);
    }
  }
}
