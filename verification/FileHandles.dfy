/** Open files: handles with a position and a denial of their own, over inodes
    that count their openers and deniers. */
module FileHandles {
  import opened Helpers
  import opened Storage
  import opened FsLayout
  import opened FsDirectory
  import opened FileSystems
  import opened FlatFiles
  import opened Inodes

  /** An inode has as many openers as handles, and as many deniers as handles that
      deny.  Between operations the root is not open. */
  ghost predicate Counted(open: map<nat, Inode>, handles: Handles) {
    && ROOT_DIR_SECTOR !in open
    && (forall h | h in handles :: handles[h].s >= 2 && handles[h].s in open)
    && (forall s | s in open && s >= 2 ::
          open[s].openCnt == |Holders(handles, s)| && open[s].denyWriteCnt == |Deniers(handles, s)|)
  }

  lemma FewerDeniers(handles: Handles, s: nat)
    ensures Deniers(handles, s) <= Holders(handles, s)
    ensures |Deniers(handles, s)| <= |Holders(handles, s)|
  {
    FewerIn(Deniers(handles, s), Holders(handles, s));
  }

  /** Handles for other files are the same. */
  ghost predicate Elsewhere(handles: Handles, n: Handles, s: nat) {
    forall t | t != s :: Holders(n, t) == Holders(handles, t) && Deniers(n, t) == Deniers(handles, t)
  }

  lemma HandleAdded(handles: Handles, h: nat, s: nat)
    requires h !in handles
    ensures var n := handles[h := Handle(s, 0, false)];
            && Elsewhere(handles, n, s)
            && |Holders(n, s)| == |Holders(handles, s)| + 1 && |Deniers(n, s)| == |Deniers(handles, s)|
  {
    var n := handles[h := Handle(s, 0, false)];
    assert Holders(n, s) == Holders(handles, s) + {h};
    assert Deniers(n, s) == Deniers(handles, s);
    forall t | t != s ensures Holders(n, t) == Holders(handles, t) {}
    forall t | t != s ensures Deniers(n, t) == Deniers(handles, t) {}
  }

  lemma NoHandles(handles: Handles, s: nat)
    requires forall h | h in handles :: handles[h].s != s
    ensures |Holders(handles, s)| == 0 && |Deniers(handles, s)| == 0
  {
  }

  lemma OpenCounted(open: map<nat, Inode>, handles: Handles, h: nat, s: nat, m: Meta)
    requires Counted(open, handles) && h !in handles && s >= 2
    ensures Counted(Opened(open, s, m), handles[h := Handle(s, 0, false)])
  {
    hide Holders, Deniers;
    HandleAdded(handles, h, s);
    if s !in open { NoHandles(handles, s); }
  }

  lemma HandleDropped(handles: Handles, h: nat)
    requires h in handles && !handles[h].denyWrite
    ensures var n, s := handles - {h}, handles[h].s;
            && Elsewhere(handles, n, s)
            && |Holders(n, s)| == |Holders(handles, s)| - 1 && |Deniers(n, s)| == |Deniers(handles, s)|
            && (|Holders(n, s)| == 0 ==> forall g | g in n :: n[g].s != s)
  {
    var n, s := handles - {h}, handles[h].s;
    assert h in Holders(handles, s) && Holders(n, s) == Holders(handles, s) - {h};
    assert Deniers(n, s) == Deniers(handles, s);
    forall t | t != s ensures Holders(n, t) == Holders(handles, t) {}
    forall t | t != s ensures Deniers(n, t) == Deniers(handles, t) {}
    assert forall g | g in n && n[g].s == s :: g in Holders(n, s);
  }

  lemma CloseCounted(open: map<nat, Inode>, handles: Handles, h: nat)
    requires Counted(open, handles) && h in handles && !handles[h].denyWrite
    ensures open[handles[h].s].openCnt >= 1 && Counted(Closed(open, handles[h].s), handles - {h})
  {
    hide Holders, Deniers;
    HandleDropped(handles, h);
  }

  lemma LastHolder(open: map<nat, Inode>, handles: Handles, h: nat)
    requires Counted(open, handles) && h in handles && !handles[h].denyWrite
    ensures open[handles[h].s].openCnt == 1 ==> Holders(handles - {h}, handles[h].s) == {}
  {
    HandleDropped(handles, h);
  }

  lemma HandleDenies(handles: Handles, h: nat, deny: bool)
    requires h in handles && handles[h].denyWrite != deny
    ensures var n, s := handles[h := handles[h].(denyWrite := deny)], handles[h].s;
            && Elsewhere(handles, n, s) && Holders(n, s) == Holders(handles, s)
            && |Deniers(n, s)| == |Deniers(handles, s)| + (if deny then 1 else -1)
            && |Deniers(n, s)| <= |Holders(n, s)| && |Deniers(handles, s)| <= |Holders(handles, s)|
  {
    var n, s := handles[h := handles[h].(denyWrite := deny)], handles[h].s;
    if deny {
      assert Deniers(n, s) == Deniers(handles, s) + {h};
    } else {
      assert h in Deniers(handles, s) && Deniers(n, s) == Deniers(handles, s) - {h};
    }
    assert Holders(n, s) == Holders(handles, s);
    forall t | t != s ensures Holders(n, t) == Holders(handles, t) {}
    forall t | t != s ensures Deniers(n, t) == Deniers(handles, t) {}
    FewerDeniers(n, s);
    FewerDeniers(handles, s);
  }

  lemma DenyCounted(open: map<nat, Inode>, handles: Handles, h: nat)
    requires Counted(open, handles) && h in handles && !handles[h].denyWrite
    ensures var s := handles[h].s;
            && open[s].denyWriteCnt < open[s].openCnt
            && Counted(open[s := open[s].(denyWriteCnt := open[s].denyWriteCnt + 1)],
                       handles[h := handles[h].(denyWrite := true)])
  {
    hide Holders, Deniers;
    HandleDenies(handles, h, true);
  }

  lemma AllowCounted(open: map<nat, Inode>, handles: Handles, h: nat)
    requires Counted(open, handles) && h in handles && handles[h].denyWrite
    ensures var s := handles[h].s;
            && 0 < open[s].denyWriteCnt <= open[s].openCnt
            && Counted(open[s := open[s].(denyWriteCnt := open[s].denyWriteCnt - 1)],
                       handles[h := handles[h].(denyWrite := false)])
  {
    hide Holders, Deniers;
    HandleDenies(handles, h, false);
  }

  lemma MoveCounted(open: map<nat, Inode>, handles: Handles, h: nat, pos: nat)
    requires Counted(open, handles) && h in handles
    ensures Counted(open, handles[h := handles[h].(pos := pos)])
  {
    var n := handles[h := handles[h].(pos := pos)];
    forall t ensures Holders(n, t) == Holders(handles, t) && Deniers(n, t) == Deniers(handles, t) {}
  }

  lemma RemovedCounted(open: map<nat, Inode>, handles: Handles, s: nat)
    requires Counted(open, handles) && s in open
    ensures Counted(open[s := open[s].(removed := true)], handles)
  {
  }

  // ----- what the files hold -----

  /** Every file lies on the disk. */
  ghost predicate Laid(d: Sectors, files: map<nat, Meta>) {
    Formed(d) && forall s | s in files :: OnDisk(d, files[s].start, files[s].length)
  }

  /** The bytes of each file but the free map and the root. */
  ghost function BytesOf(d: Sectors, files: map<nat, Meta>): Files
    requires Laid(d, files)
  {
    map s | s in files && s >= 2 :: Contents(d, files[s])
  }

  lemma BytesKept(d: Sectors, e: Sectors, f: map<nat, Meta>, g: map<nat, Meta>)
    requires Laid(d, f) && Laid(e, g)
    requires || SameFiles(d, e, f, g, {FREE_MAP_SECTOR, ROOT_DIR_SECTOR}) || SameFiles(d, e, f, g, {FREE_MAP_SECTOR})
             || SameFiles(d, e, f, g, {})
    ensures Same(BytesOf(d, f), BytesOf(e, g))
    ensures f.Keys == g.Keys ==> BytesOf(e, g) == BytesOf(d, f)
  {
    hide Contents;
    assert f.Keys == g.Keys ==> BytesOf(e, g).Keys == BytesOf(d, f).Keys;
  }

  /** A new file appears with its zeros. */
  lemma CreatedFlat(c: seq<Byte>, n: seq<Byte>, d: Sectors, e: Sectors, open: map<nat, Inode>, f: map<nat, Meta>,
                    g: map<nat, Meta>, name: seq<Byte>, size: nat, mem: Memory, s: nat, i: nat)
    requires |c| == |n| == ENTRIES * ENTRY && Created(c, n, e, f, g, name, size, mem, s, i)
    requires g == Entered(c, open, f, i, s, g[s]) && FREE_MAP_SECTOR in f && ROOT_DIR_SECTOR in f
    requires Laid(d, f) && Laid(e, g)
    ensures OneMore(BytesOf(d, f), BytesOf(e, g), size)
  {
    hide Contents, EntryAt, FirstNamed, FirstFree, CString, Replaced;
    var v, w := BytesOf(d, f), BytesOf(e, g);
    assert s in w && s !in v && w[s] == Zeros(size);
    assert forall t | t in w && t != s :: t in v;
  }

  lemma FewerFlat(d: Sectors, e: Sectors, f: map<nat, Meta>, g: map<nat, Meta>)
    requires Laid(d, f) && Laid(e, g) && g.Keys <= f.Keys
    ensures BytesOf(e, g).Keys <= BytesOf(d, f).Keys
  {
    hide Contents;
  }

  lemma DroppedFlat(d: Sectors, e: Sectors, f: map<nat, Meta>, g: map<nat, Meta>, s: nat)
    requires Laid(d, f) && Laid(e, g) && (g == f || g == f - {s})
    ensures g == f ==> BytesOf(e, g).Keys == BytesOf(d, f).Keys
    ensures g == f - {s} ==> BytesOf(e, g).Keys == BytesOf(d, f).Keys - {s}
  {
    hide Contents;
  }

  /** A write changes the bytes of its file. */
  lemma WroteFlat(d: Sectors, e: Sectors, files: map<nat, Meta>, s: nat, offset: nat, data: seq<Byte>, n: nat)
    requires Laid(d, files) && Laid(e, files) && s in files && s >= 2 && SameFiles(d, e, files, files, {s})
    requires n == 0 ==> e == d
    requires n > 0 ==> && n <= |data| && offset + n <= files[s].length
                       && (var c := Contents(d, files[s]);
                           Contents(e, files[s]) == c[..offset] + data[..n] + c[offset + n..])
    ensures var v := BytesOf(d, files);
            BytesOf(e, files) == v[s := Put(v[s], offset, data, n)] && |v[s]| == files[s].length
  {
    var v, w := BytesOf(d, files), BytesOf(e, files);
    assert |Contents(d, files[s])| == files[s].length;
    hide Contents;
    forall t | t in v && t != s ensures w[t] == v[t] {}
  }

  lemma ReadFlat(buffer: seq<Byte>, before: seq<Byte>, c: seq<Byte>, pos: nat, n: nat)
    requires n > 0 ==> n <= |before| && pos + n <= |c|
    requires buffer == Filled(before, c, pos, n) && n <= |buffer|
    ensures buffer[..n] == if 0 < n && pos + n <= |c| then c[pos..pos + n] else []
  {
  }

  /** A handle that denies writes still does, and its file holds what it held. */
  ghost predicate Shielded(h: nat, was: Handles, now: Handles, d: Sectors, e: Sectors,
                           f: map<nat, Meta>, g: map<nat, Meta>)
    requires h in was
  {
    && h in now && now[h].denyWrite && now[h].s == was[h].s
    && was[h].s in f && was[h].s in g && g[was[h].s] == f[was[h].s] && SameBytes(d, e, f[was[h].s])
  }

  lemma ShieldedBy(h: nat, was: Handles, now: Handles, d: Sectors, e: Sectors, f: map<nat, Meta>, g: map<nat, Meta>,
                   except: set<nat>)
    requires h in was && was[h].denyWrite && h in now && now[h].denyWrite && now[h].s == was[h].s
    requires SameFiles(d, e, f, g, except) && was[h].s !in except && was[h].s in f && was[h].s in g
    ensures Shielded(h, was, now, d, e, f, g)
  {
  }

  lemma InOpen(open: map<nat, Inode>, handles: Handles, h: nat)
    requires Counted(open, handles) && h in handles
    ensures handles[h].s >= 2 && handles[h].s in open && open[handles[h].s].openCnt >= 1
    ensures open[handles[h].s].denyWriteCnt > 0 <==> Deniers(handles, handles[h].s) != {}
  {
    assert h in Holders(handles, handles[h].s);
  }

  /** The files a write may have changed. */
  ghost function Touched(n: nat, s: nat): set<nat> { if n == 0 then {} else {s} }

  lemma Denied(handles: Handles, h: nat)
    requires h in handles && handles[h].denyWrite
    ensures Deniers(handles, handles[h].s) != {}
  {
    assert h in Deniers(handles, handles[h].s);
  }

  class FileTable {
    const fs: FileSystem
    var handles: Handles
    var next: nat

    ghost predicate Valid()
      reads this, fs, fs.disk, fs.freeMap.words
    {
      fs.Valid() && Counted(fs.open, handles) && forall h | h in handles :: h < next
    }

    /** The files of a file system just mounted. */
    constructor (fs: FileSystem)
      requires fs.Valid() && fs.open.Keys == {FREE_MAP_SECTOR}
      ensures Valid() && this.fs == fs && handles == map[]
    {
      this.fs, handles, next := fs, map[], 0;
    }

    /** What the files hold, and where the handles are. */
    ghost function Now(): Flat
      requires Valid()
      reads this, fs, fs.disk, fs.freeMap.words
    {
      GoodParts(fs.disk.sectors, fs.freeMap.Bits(), fs.open, fs.files);
      Flat(handles, BytesOf(fs.disk.sectors, fs.files))
    }

    lemma NowIs()
      requires Valid()
      ensures Laid(fs.disk.sectors, fs.files) && Rooted(Now()) && FREE_MAP_SECTOR in fs.files && ROOT_DIR_SECTOR in fs.files
      ensures forall h | h in handles :: handles[h].s in fs.files && handles[h].s >= 2 && handles[h].s in Now().files
    {
      hide Contents;
      GoodParts(fs.disk.sectors, fs.freeMap.Bits(), fs.open, fs.files);
    }

    /** The files behind the handles are there. */
    lemma Opens()
      requires Valid()
      ensures forall h | h in handles :: handles[h].s in fs.open && handles[h].s in fs.files
    {
      GoodParts(fs.disk.sectors, fs.freeMap.Bits(), fs.open, fs.files);
    }

    method OpenFile(name: seq<Byte>, mem: Memory) returns (h: Option<nat>)
      requires Valid()
      modifies this, fs, fs.disk, fs.freeMap.words
      ensures Valid() && fs.files == old(fs.files) && fs.disk.sectors == old(fs.disk.sectors)
      ensures fs.freeMap.Bits() == old(fs.freeMap.Bits())
      ensures var r := OpenResult(old(fs.RootBytes()), old(fs.open), name, mem);
              && (h.Some? <==> r.At?)
              && (h.Some? ==> h.value !in old(handles) && handles == old(handles)[h.value := Handle(r.index, 0, false)])
              && (h.None? ==> handles == old(handles) && fs.open == old(fs.open))
    {
      hide Good, Contents, OpenResult, Counted, Opened;
      h := None;
      var r := fs.FilesysOpen(name, mem);
      if r.At? {
        OpenCounted(old(fs.open), handles, next, r.index, fs.files[r.index]);
        h := Some(next);
        handles := handles[next := Handle(r.index, 0, false)];
        next := next + 1;
      }
    }

    /** A second handle for the same file, at its start. */
    method ReopenFile(h: nat, fileOk: bool) returns (r: Option<nat>)
      requires Valid() && h in handles
      modifies this, fs, fs.disk, fs.freeMap.words
      ensures Valid() && fs.files == old(fs.files) && fs.disk.sectors == old(fs.disk.sectors)
      ensures fs.freeMap.Bits() == old(fs.freeMap.Bits())
      ensures r.Some? <==> fileOk
      ensures r.Some? ==> && r.value !in old(handles)
                          && handles == old(handles)[r.value := Handle(old(handles)[h].s, 0, false)]
      ensures r.None? ==> handles == old(handles) && fs.open == old(fs.open)
    {
      hide Good, Contents, Counted, SameFiles, Freed, Listed;
      Opens();
      var s := handles[h].s;
      InOpen(fs.open, handles, h);
      var _ := fs.InodeOpen(s, true);
      r := None;
      if fileOk {
        OpenCounted(old(fs.open), handles, next, s, fs.files[s]);
        r := Some(next);
        handles := handles[next := Handle(s, 0, false)];
        next := next + 1;
      } else {
        OpenThenClose(old(fs.open), s, fs.files[s]);
        fs.InodeClose(s, true, true);
      }
    }

    /** The denial is lifted and the inode closed by one opener. */
    method CloseFile(h: nat, mapOk0: bool, mapOk1: bool)
      requires Valid() && h in handles
      modifies this, fs, fs.disk, fs.freeMap.words
      ensures Valid() && handles == old(handles) - {h}
      ensures || fs.files == old(fs.files)
              || (Holders(handles, old(handles)[h].s) == {} && fs.files == old(fs.files) - {old(handles)[h].s})
      ensures SameFiles(old(fs.disk.sectors), fs.disk.sectors, old(fs.files), fs.files, {FREE_MAP_SECTOR})
    {
      hide Good, Contents, SameFiles, Freed, Listed, Closed, Counted, Holders;
      AllowFile(h);
      CloseCounted(fs.open, handles, h);
      LastHolder(fs.open, handles, h);
      InOpen(fs.open, handles, h);
      fs.InodeClose(handles[h].s, mapOk0, mapOk1);
      handles := handles - {h};
    }

    method DenyFile(h: nat)
      requires Valid() && h in handles
      modifies this, fs`open
      ensures Valid() && handles == old(handles)[h := old(handles)[h].(denyWrite := true)]
    {
      hide Good, Counted;
      if !handles[h].denyWrite {
        DenyCounted(fs.open, handles, h);
        InOpen(fs.open, handles, h);
        fs.InodeDeny(handles[h].s);
        handles := handles[h := handles[h].(denyWrite := true)];
      }
    }

    method AllowFile(h: nat)
      requires Valid() && h in handles
      modifies this, fs`open
      ensures Valid() && handles == old(handles)[h := old(handles)[h].(denyWrite := false)]
    {
      hide Good, Counted;
      if handles[h].denyWrite {
        AllowCounted(fs.open, handles, h);
        InOpen(fs.open, handles, h);
        fs.InodeAllow(handles[h].s);
        handles := handles[h := handles[h].(denyWrite := false)];
      }
    }

    method Seek(h: nat, pos: nat)
      requires Valid() && h in handles
      modifies this`handles
      ensures Valid() && handles == old(handles)[h := old(handles)[h].(pos := pos)]
    {
      hide Good, Counted;
      MoveCounted(fs.open, handles, h, pos);
      handles := handles[h := handles[h].(pos := pos)];
    }

    /** The next bytes of the file; the position moves past them. */
    method ReadFile(h: nat, buffer: array<Byte>, size: int, bounceOk: bool) returns (n: nat)
      requires Valid() && h in handles && size <= buffer.Length
      modifies this`handles, buffer
      ensures Valid() && old(handles)[h].s in fs.files
      ensures var m, pos := fs.files[old(handles)[h].s], old(handles)[h].pos;
              && Formed(fs.disk.sectors) && OnDisk(fs.disk.sectors, m.start, m.length)
              && n == Transferred(m.length, size, pos, bounceOk)
              && (n > 0 ==> n <= buffer.Length && pos + n <= m.length)
              && buffer[..] == Filled(old(buffer[..]), Contents(fs.disk.sectors, m), pos, n)
              && handles == old(handles)[h := old(handles)[h].(pos := pos + n)]
    {
      hide Good, Counted, Contents, Transferred, Filled;
      InOpen(fs.open, handles, h);
      n := fs.FileReadAt(handles[h].s, buffer, size, handles[h].pos, bounceOk);
      MoveCounted(fs.open, handles, h, handles[h].pos + n);
      handles := handles[h := handles[h].(pos := handles[h].pos + n)];
    }

    /** Bytes written at an offset, unless some handle for the file denies it. */
    method WriteFileAt(h: nat, data: seq<Byte>, offset: nat, bounceOk: bool) returns (n: nat)
      requires Valid() && h in handles
      modifies fs.disk
      ensures Valid() && handles[h].s in fs.files
      ensures var m := fs.files[handles[h].s];
              && n == (if Deniers(handles, handles[h].s) != {} then 0 else Transferred(m.length, |data|, offset, bounceOk))
              && (n > 0 ==> && n <= |data| && offset + n <= m.length
                            && Formed(fs.disk.sectors) && Formed(old(fs.disk.sectors))
                            && OnDisk(fs.disk.sectors, m.start, m.length)
                            && OnDisk(old(fs.disk.sectors), m.start, m.length)
                            && (var c := Contents(old(fs.disk.sectors), m);
                                Contents(fs.disk.sectors, m) == c[..offset] + data[..n] + c[offset + n..]))
              && (n == 0 ==> fs.disk.sectors == old(fs.disk.sectors))
      ensures SameFiles(old(fs.disk.sectors), fs.disk.sectors, fs.files, fs.files, {handles[h].s})
    {
      hide Good, Contents, Transferred, SameFiles, Counted, Deniers;
      InOpen(fs.open, handles, h);
      n := fs.FileWriteAt(handles[h].s, data, |data|, offset, bounceOk);
    }

    /** Bytes written at the position, which moves past them. */
    method WriteFile(h: nat, data: seq<Byte>, bounceOk: bool) returns (n: nat)
      requires Valid() && h in handles
      modifies this`handles, fs.disk
      ensures Valid() && handles == old(handles)[h := old(handles)[h].(pos := old(handles)[h].pos + n)]
      ensures old(handles)[h].s in fs.files
      ensures var m, pos := fs.files[old(handles)[h].s], old(handles)[h].pos;
              && n == (if Deniers(old(handles), old(handles)[h].s) != {} then 0
                       else Transferred(m.length, |data|, pos, bounceOk))
              && (n > 0 ==> && n <= |data| && pos + n <= m.length
                            && Formed(fs.disk.sectors) && Formed(old(fs.disk.sectors))
                            && OnDisk(fs.disk.sectors, m.start, m.length)
                            && OnDisk(old(fs.disk.sectors), m.start, m.length)
                            && (var c := Contents(old(fs.disk.sectors), m);
                                Contents(fs.disk.sectors, m) == c[..pos] + data[..n] + c[pos + n..]))
              && (n == 0 ==> fs.disk.sectors == old(fs.disk.sectors))
      ensures SameFiles(old(fs.disk.sectors), fs.disk.sectors, fs.files, fs.files, {old(handles)[h].s})
    {
      hide Good, Counted, Contents, Transferred, SameFiles, Deniers;
      n := WriteFileAt(h, data, handles[h].pos, bounceOk);
      MoveCounted(fs.open, handles, h, handles[h].pos + n);
      handles := handles[h := handles[h].(pos := handles[h].pos + n)];
    }

    /** Every run keeps the counts, so the assertions on them hold; it is a run of flat
        files; and as long as a handle denies writes, its file stays in place and
        does not change. */
    method Run(ops: seq<FileOp>, ghost h: nat) returns (outs: seq<Outcome>, ghost views: seq<Flat>)
      requires Valid() && forall k | 0 <= k < |ops| :: ProperOp(ops[k])
      modifies this, fs, fs.disk, fs.freeMap.words
      ensures Valid() && FlatRun(views, ops, outs) && views[0] == old(Now()) && views[|ops|] == Now()
      ensures h in old(handles) && old(handles)[h].denyWrite && (forall k | 0 <= k < |ops| :: Spares(ops[k], h)) ==>
                Shielded(h, old(handles), handles, old(fs.disk.sectors), fs.disk.sectors, old(fs.files), fs.files)
    {
      hide Good, Contents, Counted, Spares, FlatStep, BytesOf;
      Opens();
      SameFilesSelf(fs.disk.sectors, fs.freeMap.Bits(), fs.open, fs.files);
      outs, views := [], [Now()];
      while |outs| < |ops|
        invariant Valid() && |outs| <= |ops| && |views| == |outs| + 1
        invariant views[0] == old(Now()) && views[|outs|] == Now()
        invariant forall i | 0 <= i < |outs| :: FlatStep(views[i], ops[i], outs[i], views[i + 1])
        invariant h in old(handles) && old(handles)[h].denyWrite && (forall j | 0 <= j < |outs| :: Spares(ops[j], h)) ==>
                    Shielded(h, old(handles), handles, old(fs.disk.sectors), fs.disk.sectors, old(fs.files), fs.files)
      {
        var r := Do(ops[|outs|], h);
        ghost var was := views;
        outs, views := outs + [r], views + [Now()];
        assert forall i | 0 <= i < |was| :: views[i] == was[i];
      }
    }

    method Do(op: FileOp, ghost h: nat) returns (r: Outcome)
      requires Valid() && ProperOp(op)
      modifies this, fs, fs.disk, fs.freeMap.words
      ensures Valid() && FlatStep(old(Now()), op, r, Now())
      ensures h in old(handles) && old(handles)[h].denyWrite && Spares(op, h) ==>
                Shielded(h, old(handles), handles, old(fs.disk.sectors), fs.disk.sectors, old(fs.files), fs.files)
    {
      hide Good, Contents, Counted, SameFiles, SameBytes, Shielded, Deniers, BytesOf, FlatStep, Spares, ProperOp;
      ghost var was, d, f := handles, fs.disk.sectors, fs.files;
      NowIs();
      ghost var except;
      r, except := Act(op);
      if h in was && was[h].denyWrite && Spares(op, h) {
        NowIs();
        Denied(was, h);
        ShieldedBy(h, was, handles, d, fs.disk.sectors, f, fs.files, except);
      }
    }

    /** One operation; at most the files in `except` change, none of which is denied. */
    method Act(op: FileOp) returns (r: Outcome, ghost except: set<nat>)
      requires Valid() && ProperOp(op)
      modifies this, fs, fs.disk, fs.freeMap.words
      ensures Valid() && FlatStep(old(Now()), op, r, Now())
      ensures forall h | h in old(handles) && old(handles)[h].denyWrite && Spares(op, h) ::
                h in handles && handles[h].denyWrite && handles[h].s == old(handles)[h].s
      ensures SameFiles(old(fs.disk.sectors), fs.disk.sectors, old(fs.files), fs.files, except)
      ensures forall s | s >= 2 && s in except :: Deniers(old(handles), s) == {}
    {
      hide Good, Contents, Counted, SameFiles, SameBytes, Deniers, BytesOf, NameStep, HandleStep, Rooted, Spares,
           ProperOp;
      NowIs();
      SameFilesSelf(fs.disk.sectors, fs.freeMap.Bits(), fs.open, fs.files);
      r, except := Nothing, {};
      if op.Create? || op.Remove? {
        r := DoByName(op);
        except := {FREE_MAP_SECTOR, ROOT_DIR_SECTOR};
      } else if op.Open? {
        r := DoOpen(op);
      } else if op.h in handles {
        r, except := DoByHandle(op);
      }
      NowIs();
    }

    method DoOpen(op: FileOp) returns (r: Outcome)
      requires Valid() && op.Open?
      modifies this, fs, fs.disk, fs.freeMap.words
      ensures Valid() && NameStep(old(Now()), op, r, Now())
      ensures fs.files == old(fs.files) && fs.disk.sectors == old(fs.disk.sectors)
      ensures forall h | h in old(handles) :: h in handles && handles[h] == old(handles)[h]
    {
      hide Good, Contents, Counted, OpenResult;
      var h := OpenFile(op.name, op.mem);
      NowIs();
      r := if h.Some? then Handed(h.value) else Nothing;
    }

    method DoByHandle(op: FileOp) returns (r: Outcome, ghost except: set<nat>)
      requires Valid() && !ByName(op) && op.h in handles && handles[op.h].s in Now().files
      modifies this, fs, fs.disk, fs.freeMap.words
      ensures Valid() && HandleStep(old(Now()), op, r, Now())
      ensures forall h | h in old(handles) && old(handles)[h].denyWrite && Spares(op, h) ::
                h in handles && handles[h].denyWrite && handles[h].s == old(handles)[h].s
      ensures SameFiles(old(fs.disk.sectors), fs.disk.sectors, old(fs.files), fs.files, except)
      ensures forall s | s >= 2 && s in except :: Deniers(old(handles), s) == {}
    {
      hide Good, Contents, Counted, SameFiles, Transferred, Filled, Deniers, BytesOf, Put;
      SameFilesSelf(fs.disk.sectors, fs.freeMap.Bits(), fs.open, fs.files);
      NowIs();
      ghost var d, f := fs.disk.sectors, fs.files;
      r, except := Nothing, {};
      match op
      case Reopen(g, fileOk) => {
        var h := ReopenFile(g, fileOk);
        r := if h.Some? then Handed(h.value) else Nothing;
      }
      case Close(g, mapOk0, mapOk1) => {
        CloseFile(g, mapOk0, mapOk1);
        NowIs();
        BytesKept(d, fs.disk.sectors, f, fs.files);
        DroppedFlat(d, fs.disk.sectors, f, fs.files, old(handles)[g].s);
        except := {FREE_MAP_SECTOR};
      }
      case Deny(g) => { DenyFile(g); }
      case Allow(g) => { AllowFile(g); }
      case Seek(g, pos) => { Seek(g, pos); }
      case Read(_, _, _) => { r := DoRead(op); }
      case Write(_, _, _) => { r, except := DoWrite(op); }
      case WriteAt(_, _, _, _) => { r, except := DoWrite(op); }
    }

    method DoRead(op: FileOp) returns (r: Outcome)
      requires Valid() && op.Read? && op.h in handles && handles[op.h].s in Now().files
      modifies this`handles
      ensures Valid() && HandleStep(old(Now()), op, r, Now())
    {
      hide Good, Contents, Counted, Transferred, Filled;
      NowIs();
      var buffer := new Byte[op.size];
      ghost var before := buffer[..];
      var pos := handles[op.h].pos;
      var n := ReadFile(op.h, buffer, op.size, op.bounceOk);
      ReadSize(fs.disk.sectors, fs.files[old(handles)[op.h].s], op.size, pos, op.bounceOk);
      ReadFlat(buffer[..], before, Contents(fs.disk.sectors, fs.files[old(handles)[op.h].s]), pos, n);
      r := Data(buffer[..n]);
    }

    method DoWrite(op: FileOp) returns (r: Outcome, ghost except: set<nat>)
      requires Valid() && (op.Write? || op.WriteAt?) && op.h in handles && handles[op.h].s in Now().files
      modifies this`handles, fs.disk
      ensures Valid() && HandleStep(old(Now()), op, r, Now())
      ensures forall h | h in old(handles) ::
                h in handles && handles[h].denyWrite == old(handles)[h].denyWrite && handles[h].s == old(handles)[h].s
      ensures SameFiles(old(fs.disk.sectors), fs.disk.sectors, fs.files, fs.files, except)
      ensures forall s | s in except :: Deniers(old(handles), s) == {}
    {
      hide Good, Contents, Counted, Transferred, Deniers, SameFiles, BytesOf, Put, HandleStep;
      SameFilesSelf(fs.disk.sectors, fs.freeMap.Bits(), fs.open, fs.files);
      NowIs();
      ghost var v, d, s := Now(), fs.disk.sectors, handles[op.h].s;
      FileLength(d, fs.files, s);
      ghost var offset := if op.Write? then handles[op.h].pos else op.offset;
      var n;
      if op.Write? {
        n := WriteFile(op.h, op.data, op.bounceOk);
      } else {
        n := WriteFileAt(op.h, op.data, op.offset, op.bounceOk);
      }
      NowIs();
      WroteFlat(d, fs.disk.sectors, fs.files, s, offset, op.data, n);
      WriteStep(v, op, n, Now());
      except := Touched(n, s);
      r := Count(n);
    }

    method DoByName(op: FileOp) returns (r: Outcome)
      requires Valid() && ProperOp(op) && (op.Create? || op.Remove?)
      modifies this, fs, fs.disk, fs.freeMap.words
      ensures Valid() && handles == old(handles) && NameStep(old(Now()), op, r, Now())
      ensures SameFiles(old(fs.disk.sectors), fs.disk.sectors, old(fs.files), fs.files, {FREE_MAP_SECTOR, ROOT_DIR_SECTOR})
    {
      hide Good, Contents, Counted, SameFiles, Created, EntryAt, Replaced, Listed, Freed, Entered, BytesOf, OneMore, Same;
      NowIs();
      ghost var c, d, f, o := fs.RootBytes(), fs.disk.sectors, fs.files, fs.open;
      r := Nothing;
      if op.Create? {
        var ok, s, i := fs.FilesysCreate(op.name, op.size, op.mem, op.junk);
        NowIs();
        if ok {
          r := Made;
          CreatedFlat(c, fs.RootBytes(), d, fs.disk.sectors, fs.open, f, fs.files, op.name, op.size, op.mem, s, i);
        }
      } else {
        var ok, s, _ := fs.FilesysRemove(op.name, op.mem);
        if ok && s in o { RemovedCounted(o, handles, s); }
        NowIs();
        FewerFlat(d, fs.disk.sectors, f, fs.files);
      }
      BytesKept(d, fs.disk.sectors, f, fs.files);
    }
  }

  lemma WriteStep(v: Flat, op: FileOp, n: nat, w: Flat)
    requires (op.Write? || op.WriteAt?) && op.h in v.handles && v.handles[op.h].s in v.files
    requires n == Writes(v, op.h, |op.data|, FlatFiles.Offset(v, op), op.bounceOk)
    requires var s := v.handles[op.h].s;
             w.files == v.files[s := Put(v.files[s], FlatFiles.Offset(v, op), op.data, n)]
    requires w.handles == if op.Write? then Moved(v.handles, op.h, v.handles[op.h].pos + n) else v.handles
    ensures HandleStep(v, op, Count(n), w)
  {
    hide Writes, Put;
  }

  lemma ReadSize(d: Sectors, m: Meta, size: nat, pos: nat, bounceOk: bool)
    requires Formed(d) && OnDisk(d, m.start, m.length)
    ensures |Contents(d, m)| == m.length
    ensures Transferred(m.length, size, pos, bounceOk) <= size
  {
  }

  lemma FileLength(d: Sectors, files: map<nat, Meta>, s: nat)
    requires Laid(d, files) && s in files && s >= 2
    ensures |BytesOf(d, files)[s]| == files[s].length
  {
  }
}
