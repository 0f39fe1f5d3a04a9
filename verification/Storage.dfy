/** A disk of 512-byte sectors, and files as flat byte sequences laid over a
    contiguous extent of sectors. */
module Storage {

  const SECTOR: nat := 512

  type Byte = x: nat | x < 256

  type Sectors = seq<seq<Byte>>

  /** The numbers of sectors and bytes are 32-bit words, file offsets signed ones. */
  const MAX32: nat := 0x1_0000_0000
  const MAX_OFF: nat := 0x8000_0000

  function Zeros(n: nat): (z: seq<Byte>)
    ensures |z| == n
  {
    seq(n, _ => 0)
  }

  ghost predicate Formed(d: Sectors) {
    forall s | 0 <= s < |d| :: |d[s]| == SECTOR
  }

  function SectorsFor(length: nat): nat {
    (length + SECTOR - 1) / SECTOR
  }

  /** The extent of `length` bytes from sector `start` lies on the disk. */
  ghost predicate OnDisk(d: Sectors, start: nat, length: nat) {
    start + SectorsFor(length) <= |d|
  }

  /** Every byte of a file has its place in the file's extent. */
  lemma PlaceOnDisk(d: Sectors, start: nat, length: nat, k: nat)
    requires OnDisk(d, start, length) && k < length
    ensures start + k / SECTOR < start + SectorsFor(length) <= |d|
  {
  }

  /** The flat contents of the file laid over that extent. */
  ghost function FileBytes(d: Sectors, start: nat, length: nat): (b: seq<Byte>)
    requires Formed(d) && OnDisk(d, start, length)
    ensures |b| == length
  {
    seq(length, k requires 0 <= k < length => PlaceOnDisk(d, start, length, k); d[start + k / SECTOR][k % SECTOR])
  }

  /** The file offset of byte `j` of sector `s`. */
  function Offset(start: nat, s: int, j: int): int {
    (s - start) * SECTOR + j
  }

  /** The disk after `data` has been put at byte `offset` of the extent that
      starts at sector `start`: those bytes and no others are replaced. */
  ghost function Poke(d: Sectors, start: nat, offset: nat, data: seq<Byte>): (r: Sectors)
    requires Formed(d)
    ensures |r| == |d| && Formed(r)
  {
    seq(|d|, s requires 0 <= s < |d| =>
      seq(SECTOR, j requires 0 <= j < SECTOR =>
        if offset <= Offset(start, s, j) < offset + |data| then data[Offset(start, s, j) - offset] else d[s][j]))
  }

  lemma PokeAt(d: Sectors, start: nat, offset: nat, data: seq<Byte>, s: nat, j: nat)
    requires Formed(d) && s < |d| && j < SECTOR
    ensures Poke(d, start, offset, data)[s][j] ==
            if offset <= Offset(start, s, j) < offset + |data| then data[Offset(start, s, j) - offset] else d[s][j]
  {
  }

  lemma PokeNothing(d: Sectors, start: nat, offset: nat)
    requires Formed(d)
    ensures Poke(d, start, offset, []) == d
  {
    var r := Poke(d, start, offset, []);
    forall s | 0 <= s < |d| ensures r[s] == d[s] {
      assert forall j | 0 <= j < SECTOR :: r[s][j] == d[s][j];
    }
  }

  /** Written bytes read back, and the file's other bytes are unchanged. */
  lemma PokedFile(d: Sectors, start: nat, length: nat, offset: nat, data: seq<Byte>)
    requires Formed(d) && OnDisk(d, start, length) && offset + |data| <= length
    ensures var f := FileBytes(d, start, length);
            FileBytes(Poke(d, start, offset, data), start, length) == f[..offset] + data + f[offset + |data|..]
  {
    var p := Poke(d, start, offset, data);
    var f, g := FileBytes(d, start, length), FileBytes(p, start, length);
    forall k | 0 <= k < length ensures g[k] == (f[..offset] + data + f[offset + |data|..])[k] {
      PlaceOnDisk(d, start, length, k);
      PokeAt(d, start, offset, data, start + k / SECTOR, k % SECTOR);
      assert Offset(start, start + k / SECTOR, k % SECTOR) == k;
    }
  }

  /** No sector outside the extent changes. */
  lemma PokedElsewhere(d: Sectors, start: nat, length: nat, offset: nat, data: seq<Byte>, s: nat)
    requires Formed(d) && offset + |data| <= length && s < |d|
    requires s < start || start + SectorsFor(length) <= s
    ensures Poke(d, start, offset, data)[s] == d[s]
  {
    var p := Poke(d, start, offset, data);
    forall j | 0 <= j < SECTOR ensures p[s][j] == d[s][j] { PokeAt(d, start, offset, data, s, j); }
  }

  /** One more chunk, inside one sector. */
  lemma PokeChunk(d: Sectors, start: nat, offset: nat, data: seq<Byte>, w: nat, c: nat, sector: seq<Byte>)
    requires Formed(d) && w + c <= |data|
    requires start + (offset + w) / SECTOR < |d| && (offset + w) % SECTOR + c <= SECTOR
    requires var before := Poke(d, start, offset, data[..w])[start + (offset + w) / SECTOR];
             var ofs := (offset + w) % SECTOR;
             sector == before[..ofs] + data[w..w + c] + before[ofs + c..]
    ensures var s := start + (offset + w) / SECTOR;
            Poke(d, start, offset, data[..w])[s := sector] == Poke(d, start, offset, data[..w + c])
  {
    var o := offset + w;
    var s := start + o / SECTOR;
    var p, q := Poke(d, start, offset, data[..w])[s := sector], Poke(d, start, offset, data[..w + c]);
    forall t | 0 <= t < |d| ensures p[t] == q[t] {
      forall j | 0 <= j < SECTOR ensures p[t][j] == q[t][j] {
        PokeAt(d, start, offset, data[..w], t, j);
        PokeAt(d, start, offset, data[..w + c], t, j);
      }
    }
  }
}
