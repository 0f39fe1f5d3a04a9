/** Loading a program segment: which headers are accepted, what is computed from
    them in 32-bit arithmetic, and what the loading loop leaves in memory. */
module Segments {
  import opened Helpers
  import opened Storage
  import opened Inodes


  /** The fields of a program header that count, each a 32-bit word. */
  datatype Phdr = Phdr(offset: nat, vaddr: nat, filesz: nat, memsz: nat)

  ghost predicate Words(h: Phdr) { h.offset < MAX32 && h.vaddr < MAX32 && h.filesz < MAX32 && h.memsz < MAX32 }

  function Add32(a: nat, b: nat): nat { (a + b) % MAX32 }

  function Sub32(a: nat, b: nat): nat { (a - b) % MAX32 }

  predicate IsUserVaddr(a: nat) { a < PHYS_BASE }

  /** `validate_segment`, with the sums wrapping as they do. */
  predicate Validate(h: Phdr, fileLength: nat) {
    && h.offset % PGSIZE == h.vaddr % PGSIZE
    && h.offset <= fileLength
    && h.memsz >= h.filesz
    && h.memsz != 0
    && IsUserVaddr(h.vaddr)
    && IsUserVaddr(Add32(h.vaddr, h.memsz))
    && Add32(h.vaddr, h.memsz) >= h.vaddr
    && h.vaddr >= PGSIZE
  }

  /** A header is accepted exactly when the segment, without wrapping, lies in user
      memory above the first page and agrees with the file. */
  lemma ValidateIs(h: Phdr, fileLength: nat)
    requires Words(h)
    ensures Validate(h, fileLength) <==>
            && PGSIZE <= h.vaddr && h.vaddr + h.memsz < PHYS_BASE && 0 < h.memsz && h.filesz <= h.memsz
            && h.offset <= fileLength && h.offset % PGSIZE == h.vaddr % PGSIZE
  {
  }

  function RoundUp32(x: nat): nat { Add32(x, PGSIZE - 1) / PGSIZE * PGSIZE }

  /** What `load` passes on: first page, bytes to read and bytes to zero. */
  datatype Plan = Plan(filePage: nat, memPage: nat, readBytes: nat, zeroBytes: nat)

  function PlanOf(h: Phdr): Plan {
    var pageOffset := h.vaddr % PGSIZE;
    var readBytes := if h.filesz > 0 then Add32(pageOffset, h.filesz) else 0;
    Plan(h.offset - h.offset % PGSIZE, h.vaddr - h.vaddr % PGSIZE, readBytes,
         Sub32(RoundUp32(Add32(pageOffset, h.memsz)), readBytes))
  }

  /** For an accepted header nothing wraps: the plan covers whole pages, all of them
      user pages above the first, from the page of the first byte to that of the
      last, and reads exactly the file's part. */
  lemma PlanIsSound(h: Phdr, fileLength: nat)
    requires Words(h) && Validate(h, fileLength) && fileLength < MAX_OFF
    ensures var p := PlanOf(h);
            && (p.readBytes + p.zeroBytes) % PGSIZE == 0 && p.memPage % PGSIZE == 0 && p.filePage % PGSIZE == 0
            && PGSIZE <= p.memPage <= h.vaddr && h.vaddr + h.memsz <= p.memPage + p.readBytes + p.zeroBytes <= PHYS_BASE
            && p.memPage + p.readBytes + p.zeroBytes < h.vaddr + h.memsz + PGSIZE
            && (h.filesz > 0 ==> && p.memPage + p.readBytes == h.vaddr + h.filesz
                                 && p.filePage + p.readBytes == h.offset + h.filesz)
            && (h.filesz == 0 ==> p.readBytes == 0)
  {
    hide Add32, Sub32, RoundUp32, Validate;
    ValidateIs(h, fileLength);
    var o := h.vaddr % PGSIZE;
    PageParts(h.vaddr);
    PageParts(h.offset);
    NoWrap(o, h.filesz);
    NoWrap(o, h.memsz);
    RoundUpIs(o + h.memsz);
    var up := RoundUp32(o + h.memsz);
    BelowBase(h.vaddr - o, up, o + h.memsz);
    NoBorrow(up, if h.filesz > 0 then o + h.filesz else 0);
  }

  lemma PageParts(x: nat)
    ensures 0 <= x % PGSIZE < PGSIZE && (x - x % PGSIZE) % PGSIZE == 0
    ensures x >= PGSIZE ==> x - x % PGSIZE >= PGSIZE
  {
  }

  lemma NoWrap(a: nat, b: nat)
    ensures a + b < MAX32 ==> Add32(a, b) == a + b
  {
  }

  lemma NoBorrow(a: nat, b: nat)
    ensures b <= a < MAX32 ==> Sub32(a, b) == a - b
  {
  }

  lemma RoundUpIs(x: nat)
    requires x + PGSIZE < MAX32
    ensures var up := RoundUp32(x); x <= up < x + PGSIZE && up % PGSIZE == 0
  {
  }

  lemma BelowBase(v: nat, up: nat, end: nat)
    requires v % PGSIZE == 0 && up % PGSIZE == 0 && up < end + PGSIZE && v + end < PHYS_BASE
    ensures v + up <= PHYS_BASE && (v + up) % PGSIZE == 0
  {
  }

  // ----- the loading loop -----

  datatype Mapped = Mapped(bytes: seq<Byte>, writable: bool)

  /** The user pages of a process, by page number. */
  class AddressSpace {
    var pages: map<nat, Mapped>

    constructor ()
      ensures pages == map[]
    {
      pages := map[];
    }
  }

  /** The file has all the bytes to be read. */
  ghost predicate FileHas(file: seq<Byte>, ofs: nat, readBytes: nat) { readBytes == 0 || ofs + readBytes <= |file| }

  /** Byte `k` of the segment: from the file, then zero. */
  ghost function SegmentByte(file: seq<Byte>, ofs: nat, readBytes: nat, k: nat): Byte {
    if k < readBytes && ofs + k < |file| then file[ofs + k] else 0
  }

  ghost function PageBytes(file: seq<Byte>, ofs: nat, readBytes: nat, j: nat): (b: seq<Byte>)
    ensures |b| == PGSIZE && forall k | 0 <= k < PGSIZE :: b[k] == SegmentByte(file, ofs, readBytes, j * PGSIZE + k)
  {
    seq<Byte>(PGSIZE, k requires 0 <= k < PGSIZE => SegmentByte(file, ofs, readBytes, j * PGSIZE + k))
  }

  /** `file_read`: what a read of `n` bytes from a position on transfers. */
  function FileRead(file: seq<Byte>, pos: nat, n: nat, bounceOk: bool): (data: seq<Byte>)
    ensures |data| == Transferred(|file|, n, pos, bounceOk)
    ensures data != [] ==> pos + |data| <= |file| && data == file[pos..pos + |data|]
  {
    var t := Transferred(|file|, n, pos, bounceOk);
    if t == 0 then [] else file[pos..pos + t]
  }

  /** How much of a last sector is asked for. */
  function Part(n: nat): nat { n % SECTOR }

  /** A read from the start of a sector gives all it should if the file has it, and
      a buffer can be had for a last part of a sector. */
  lemma ReadsAll(length: nat, pos: nat, n: nat, bounceOk: bool)
    requires n == 0 || Part(pos) == 0
    ensures Transferred(length, n, pos, bounceOk) == n <==>
            n == 0 || (pos + n <= length && (bounceOk || Part(n) == 0))
  {
  }

  /** None of `n` pages is mapped. */
  ghost predicate Unmapped(pages: map<nat, Mapped>, first: nat, n: nat) {
    forall p | first <= p < first + n :: p !in pages
  }

  /** The first `n` pages of the segment are in place and nothing else has changed. */
  ghost predicate LoadedTo(was: map<nat, Mapped>, now: map<nat, Mapped>, first: nat, n: nat,
                           file: seq<Byte>, ofs: nat, readBytes: nat, writable: bool) {
    && Unmapped(was, first, n)
    && (forall p | p < first || first + n <= p :: (p in now <==> p in was) && (p in now ==> now[p] == was[p]))
    && (forall p | first <= p < first + n ::
          p in now && now[p] == Mapped(PageBytes(file, ofs, readBytes, p - first), writable))
  }

  lemma LoadedMore(was: map<nat, Mapped>, now: map<nat, Mapped>, first: nat, n: nat,
                   file: seq<Byte>, ofs: nat, readBytes: nat, writable: bool)
    requires LoadedTo(was, now, first, n, file, ofs, readBytes, writable) && first + n !in now
    ensures LoadedTo(was, now[first + n := Mapped(PageBytes(file, ofs, readBytes, n), writable)],
                     first, n + 1, file, ofs, readBytes, writable)
  {
    hide PageBytes;
  }

  lemma LoadBlocked(was: map<nat, Mapped>, now: map<nat, Mapped>, first: nat, n: nat, total: nat,
                    file: seq<Byte>, ofs: nat, readBytes: nat, writable: bool)
    requires LoadedTo(was, now, first, n, file, ofs, readBytes, writable) && first + n in now && n < total
    ensures !Unmapped(was, first, total)
  {
    assert first + n in was;
  }

  /** The bytes of one page. */
  lemma OnePage(file: seq<Byte>, ofs: nat, readBytes: nat, j: nat, data: seq<Byte>)
    requires var done := Min(j * PGSIZE, readBytes);
             var n := Min(readBytes - done, PGSIZE);
             |data| == n && (n > 0 ==> ofs + done + n <= |file| && data == file[ofs + done..ofs + done + n])
    ensures data + Zeros(PGSIZE - |data|) == PageBytes(file, ofs, readBytes, j)
  {
    var b := data + Zeros(PGSIZE - |data|);
    var c := PageBytes(file, ofs, readBytes, j);
    forall k | 0 <= k < PGSIZE ensures b[k] == c[k] {
    }
  }

  /** All bytes to be read can be: the file has them, and there is a buffer for a
      last part of a sector. */
  ghost predicate Readable(file: seq<Byte>, ofs: nat, readBytes: nat, bounceOk: bool) {
    FileHas(file, ofs, readBytes) && (bounceOk || Part(readBytes) == 0)
  }

  /** Whole sectors in front change nothing. */
  lemma AddWhole(k: nat, n: nat)
    ensures Part(SECTOR * k + n) == Part(n)
  {
    assert SECTOR * k + n == SECTOR * (k + n / SECTOR) + n % SECTOR;
  }

  lemma WholeSectors(ofs: nat, j: nat, done: nat, n: nat, readBytes: nat)
    requires ofs % PGSIZE == 0 && done == Min(j * PGSIZE, readBytes) && n == Min(readBytes - done, PGSIZE)
    ensures n > 0 ==> Part(ofs + done) == 0 && Part(done + n) == Part(n)
    ensures Part(n) != 0 ==> done + n == readBytes
  {
    if n > 0 {
      assert done == SECTOR * (8 * j) && ofs == SECTOR * (8 * (ofs / PGSIZE));
      AddWhole(8 * j, n);
      AddWhole(8 * (ofs / PGSIZE) + 8 * j, 0);
    }
  }

  lemma NothingToRead(file: seq<Byte>, ofs: nat, bounceOk: bool)
    ensures Readable(file, ofs, 0, bounceOk)
  {
  }

  /** The read for page `j` succeeds exactly if all can be read up to its end. */
  lemma ReadStep(file: seq<Byte>, ofs: nat, readBytes: nat, j: nat, bounceOk: bool)
    requires ofs % PGSIZE == 0 && Readable(file, ofs, Min(j * PGSIZE, readBytes), bounceOk)
    ensures var done := Min(j * PGSIZE, readBytes);
            var n := Min(readBytes - done, PGSIZE);
            && (Transferred(|file|, n, ofs + done, bounceOk) == n <==> Readable(file, ofs, done + n, bounceOk))
            && done + n == Min((j + 1) * PGSIZE, readBytes)
            && (!Readable(file, ofs, done + n, bounceOk) ==> !Readable(file, ofs, readBytes, bounceOk))
  {
    hide Transferred, Part;
    var done := Min(j * PGSIZE, readBytes);
    var n := Min(readBytes - done, PGSIZE);
    WholeSectors(ofs, j, done, n, readBytes);
    ReadsAll(|file|, ofs + done, n, bounceOk);
    assert done + n == Min((j + 1) * PGSIZE, readBytes);
  }

  /** There are frames, the bytes can be read, and no page is taken. */
  ghost predicate CanLoad(pages: map<nat, Mapped>, file: seq<Byte>, ofs: nat, upage: nat, readBytes: nat, zeroBytes: nat,
                          okPages: nat, bounceOk: bool) {
    && okPages * PGSIZE >= readBytes + zeroBytes && Readable(file, ofs, readBytes, bounceOk)
    && Unmapped(pages, upage / PGSIZE, (readBytes + zeroBytes) / PGSIZE)
  }

  /** Page after page: a frame, the file's bytes, zeros, a mapping.  `okPages` is how
      many pages there is memory for. */
  method LoadSegment(space: AddressSpace, file: seq<Byte>, ofs: nat, upage0: nat, readBytes0: nat, zeroBytes0: nat,
                     writable: bool, okPages: nat, bounceOk: bool) returns (ok: bool, ghost loaded: nat)
    requires (readBytes0 + zeroBytes0) % PGSIZE == 0 && upage0 % PGSIZE == 0 && ofs % PGSIZE == 0
    modifies space
    ensures loaded * PGSIZE <= readBytes0 + zeroBytes0
    ensures ok ==> loaded * PGSIZE == readBytes0 + zeroBytes0
    ensures LoadedTo(old(space.pages), space.pages, upage0 / PGSIZE, loaded, file, ofs, readBytes0, writable)
    ensures ok <==> CanLoad(old(space.pages), file, ofs, upage0, readBytes0, zeroBytes0, okPages, bounceOk)
  {
    hide LoadedTo, PageBytes, Transferred, Readable;
    var readBytes, zeroBytes, upage, pos, j := readBytes0, zeroBytes0, upage0, ofs, 0;
    loaded := 0;
    NothingToRead(file, ofs, bounceOk);
    NothingLoaded(space.pages, upage0 / PGSIZE, file, ofs, readBytes0, writable);
    while readBytes > 0 || zeroBytes > 0
      invariant loaded == j && j * PGSIZE <= readBytes0 + zeroBytes0
      invariant upage == upage0 + j * PGSIZE && pos == ofs + Min(j * PGSIZE, readBytes0)
      invariant readBytes == readBytes0 - Min(j * PGSIZE, readBytes0)
      invariant readBytes + zeroBytes == readBytes0 + zeroBytes0 - j * PGSIZE
      invariant j <= okPages && Readable(file, ofs, Min(j * PGSIZE, readBytes0), bounceOk)
      invariant LoadedTo(old(space.pages), space.pages, upage0 / PGSIZE, j, file, ofs, readBytes0, writable)
      decreases readBytes + zeroBytes
    {
      var pageReadBytes := Min(readBytes, PGSIZE);
      var pageZeroBytes := PGSIZE - pageReadBytes;
      assert pageZeroBytes <= zeroBytes;
      if j == okPages {
        return false, j;
      }
      var data := FileRead(file, pos, pageReadBytes, bounceOk);
      ReadStep(file, ofs, readBytes0, j, bounceOk);
      if |data| != pageReadBytes {
        return false, j;
      }
      var page := data + Zeros(pageZeroBytes);
      if upage / PGSIZE in space.pages {
        LoadBlocked(old(space.pages), space.pages, upage0 / PGSIZE, j, (readBytes0 + zeroBytes0) / PGSIZE,
                    file, ofs, readBytes0, writable);
        return false, j;
      }
      OnePage(file, ofs, readBytes0, j, data);
      LoadedMore(old(space.pages), space.pages, upage0 / PGSIZE, j, file, ofs, readBytes0, writable);
      space.pages := space.pages[upage / PGSIZE := Mapped(page, writable)];
      readBytes := readBytes - pageReadBytes;
      zeroBytes := zeroBytes - pageZeroBytes;
      upage := upage + PGSIZE;
      pos := pos + pageReadBytes;
      j := j + 1;
      loaded := j;
    }
    LoadedFree(old(space.pages), space.pages, upage0 / PGSIZE, j, file, ofs, readBytes0, writable);
    ok := true;
  }

  lemma LoadedFree(was: map<nat, Mapped>, now: map<nat, Mapped>, first: nat, n: nat,
                   file: seq<Byte>, ofs: nat, readBytes: nat, writable: bool)
    requires LoadedTo(was, now, first, n, file, ofs, readBytes, writable)
    ensures Unmapped(was, first, n)
  {
  }

  lemma NothingLoaded(was: map<nat, Mapped>, first: nat, file: seq<Byte>, ofs: nat, readBytes: nat, writable: bool)
    ensures LoadedTo(was, was, first, 0, file, ofs, readBytes, writable)
  {
  }

  /** A segment in place, byte by byte: the file's bytes, then zeros. */
  lemma LoadedBytes(was: map<nat, Mapped>, now: map<nat, Mapped>, upage: nat, total: nat,
                    file: seq<Byte>, ofs: nat, readBytes: nat, writable: bool, k: nat)
    requires upage % PGSIZE == 0 && total % PGSIZE == 0 && k < total && FileHas(file, ofs, readBytes)
    requires LoadedTo(was, now, upage / PGSIZE, total / PGSIZE, file, ofs, readBytes, writable)
    ensures var a := upage + k;
            && a / PGSIZE in now && now[a / PGSIZE].writable == writable && |now[a / PGSIZE].bytes| == PGSIZE
            && now[a / PGSIZE].bytes[a % PGSIZE] == if k < readBytes then file[ofs + k] else 0
  {
    hide PageBytes;
    var p := (upage + k) / PGSIZE;
    assert upage / PGSIZE <= p < upage / PGSIZE + total / PGSIZE;
    assert (upage + k) % PGSIZE == k % PGSIZE && p - upage / PGSIZE == k / PGSIZE;
  }

  /** `load`'s treatment of one loadable segment. */
  method Load(space: AddressSpace, h: Phdr, file: seq<Byte>, writable: bool, okPages: nat, bounceOk: bool) returns (ok: bool)
    requires Words(h) && |file| < MAX_OFF
    modifies space
    ensures ok <==> && Validate(h, |file|)
                    && (PlanIsSound(h, |file|);
                        var p := PlanOf(h);
                        CanLoad(old(space.pages), file, p.filePage, p.memPage, p.readBytes, p.zeroBytes, okPages, bounceOk))
    ensures ok ==> Validate(h, |file|) && h.offset + h.filesz <= |file|
    ensures ok ==> forall k | 0 <= k < h.memsz :: SegmentIs(space.pages, h, file, writable, k)
    ensures forall p | p < 1 || PHYS_BASE / PGSIZE <= p :: p in space.pages <==> p in old(space.pages)
    ensures forall p | p in old(space.pages) :: p in space.pages && space.pages[p] == old(space.pages)[p]
  {
    hide LoadedTo, Validate, PlanOf;
    ok := false;
    if Validate(h, |file|) {
      PlanIsSound(h, |file|);
      ValidateIs(h, |file|);
      var p := PlanOf(h);
      ghost var n;
      ok, n := LoadSegment(space, file, p.filePage, p.memPage, p.readBytes, p.zeroBytes, writable, okPages, bounceOk);
      LoadedWithin(old(space.pages), space.pages, p.memPage, n, file, p.filePage, p.readBytes, writable);
      if ok {
        forall k | 0 <= k < h.memsz ensures SegmentIs(space.pages, h, file, writable, k) {
          LoadedBytes(old(space.pages), space.pages, p.memPage, p.readBytes + p.zeroBytes, file, p.filePage, p.readBytes,
                      writable, h.vaddr - p.memPage + k);
        }
      }
    }
  }

  /** Byte `k` of the segment is where the header puts it. */
  ghost predicate SegmentIs(pages: map<nat, Mapped>, h: Phdr, file: seq<Byte>, writable: bool, k: nat)
    requires h.offset + h.filesz <= |file|
  {
    var a := h.vaddr + k;
    && a / PGSIZE in pages && pages[a / PGSIZE].writable == writable && |pages[a / PGSIZE].bytes| == PGSIZE
    && pages[a / PGSIZE].bytes[a % PGSIZE] == if k < h.filesz then file[h.offset + k] else 0
  }

  lemma LoadedWithin(was: map<nat, Mapped>, now: map<nat, Mapped>, upage: nat, n: nat,
                     file: seq<Byte>, ofs: nat, readBytes: nat, writable: bool)
    requires upage % PGSIZE == 0 && PGSIZE <= upage && upage + n * PGSIZE <= PHYS_BASE
    requires LoadedTo(was, now, upage / PGSIZE, n, file, ofs, readBytes, writable)
    ensures forall p | p < 1 || PHYS_BASE / PGSIZE <= p :: p in now <==> p in was
    ensures forall p | p in was :: p in now && now[p] == was[p]
  {
    hide PageBytes;
  }
}
