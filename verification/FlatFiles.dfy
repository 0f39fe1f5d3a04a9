/** Open files as flat memory: each file is its bytes, each handle a position in one
    file, and a run of operations changes nothing else. */
module FlatFiles {
  import opened Storage
  import opened FsDirectory
  import opened FileSystems
  import opened Inodes

  datatype Handle = Handle(s: nat, pos: nat, denyWrite: bool)

  type Handles = map<nat, Handle>

  ghost function Holders(handles: Handles, s: nat): set<nat> {
    set h | h in handles && handles[h].s == s
  }

  ghost function Deniers(handles: Handles, s: nat): set<nat> {
    set h | h in handles && handles[h].s == s && handles[h].denyWrite
  }

  /** What processes ask for, by handle. */
  datatype FileOp =
    | Create(name: seq<Byte>, size: nat, mem: Memory, junk: Entry)
    | Remove(name: seq<Byte>, mem: Memory)
    | Open(name: seq<Byte>, mem: Memory)
    | Reopen(h: nat, fileOk: bool)
    | Close(h: nat, mapOk0: bool, mapOk1: bool)
    | Deny(h: nat)
    | Allow(h: nat)
    | Seek(h: nat, pos: nat)
    | Read(h: nat, size: nat, bounceOk: bool)
    | Write(h: nat, data: seq<Byte>, bounceOk: bool)
    | WriteAt(h: nat, data: seq<Byte>, offset: nat, bounceOk: bool)

  ghost predicate ProperOp(op: FileOp) {
    op.Create? ==> 0 !in op.name && op.size < MAX_OFF && Writable(op.junk)
  }

  ghost predicate ByName(op: FileOp) { op.Create? || op.Remove? || op.Open? }

  /** What they get: nothing, a new file, a handle, bytes read, or how many were
      written. */
  datatype Outcome = Nothing | Made | Handed(h: nat) | Data(bytes: seq<Byte>) | Count(n: nat)

  type Files = map<nat, seq<Byte>>

  /** Files go by their inode sectors. */
  datatype Flat = Flat(handles: Handles, files: Files)

  /** A file that someone has open is there. */
  ghost predicate Rooted(v: Flat) {
    forall h | h in v.handles :: v.handles[h].s in v.files
  }

  ghost predicate Same(v: Files, w: Files) {
    forall s | s in v && s in w :: w[s] == v[s]
  }

  /** One file of zeros more; another may be gone, and no other is new. */
  ghost predicate OneMore(v: Files, w: Files, size: nat) {
    exists s :: && s in w && s !in v && w[s] == Zeros(size)
                && forall t | t in w && t != s :: t in v
  }

  /** The bytes of a file with the first `n` of `data` put at an offset. */
  ghost function Put(c: seq<Byte>, offset: nat, data: seq<Byte>, n: nat): seq<Byte> {
    if 0 < n <= |data| && offset + n <= |c| then c[..offset] + data[..n] + c[offset + n..] else c
  }

  /** How much a write through a handle changes. */
  ghost function Writes(v: Flat, h: nat, size: nat, offset: nat, bounceOk: bool): nat
    requires h in v.handles && v.handles[h].s in v.files
  {
    if Deniers(v.handles, v.handles[h].s) != {} then 0
    else Transferred(|v.files[v.handles[h].s]|, size, offset, bounceOk)
  }

  ghost function Moved(handles: Handles, h: nat, pos: nat): Handles
    requires h in handles
  {
    handles[h := handles[h].(pos := pos)]
  }

  /** An operation on a handle. */
  ghost predicate HandleStep(v: Flat, op: FileOp, r: Outcome, w: Flat) {
    !ByName(op) && op.h in v.handles && v.handles[op.h].s in v.files &&
    var x := v.handles[op.h];
    var c := v.files[x.s];
    match op
    case Reopen(_, ok) =>
      && w.files == v.files
      && if ok then r.Handed? && r.h !in v.handles && w.handles == v.handles[r.h := Handle(x.s, 0, false)]
         else r == Nothing && w.handles == v.handles
    case Close(h, _, _) =>
      && r == Nothing && w.handles == v.handles - {h} && Same(v.files, w.files)
      && (w.files.Keys == v.files.Keys || (Holders(w.handles, x.s) == {} && w.files.Keys == v.files.Keys - {x.s}))
    case Deny(h) => r == Nothing && w == Flat(v.handles[h := x.(denyWrite := true)], v.files)
    case Allow(h) => r == Nothing && w == Flat(v.handles[h := x.(denyWrite := false)], v.files)
    case Seek(h, pos) => r == Nothing && w == Flat(Moved(v.handles, h, pos), v.files)
    case Read(h, size, ok) =>
      var n := Transferred(|c|, size, x.pos, ok);
      && r == Data(if 0 < n && x.pos + n <= |c| then c[x.pos..x.pos + n] else [])
      && w == Flat(Moved(v.handles, h, x.pos + n), v.files)
    case Write(h, data, ok) =>
      var n := Writes(v, h, |data|, x.pos, ok);
      r == Count(n) && w == Flat(Moved(v.handles, h, x.pos + n), v.files[x.s := Put(c, x.pos, data, n)])
    case WriteAt(h, data, offset, ok) =>
      var n := Writes(v, h, |data|, offset, ok);
      r == Count(n) && w == Flat(v.handles, v.files[x.s := Put(c, offset, data, n)])
    case _ => false
  }

  ghost predicate NameStep(v: Flat, op: FileOp, r: Outcome, w: Flat)
    requires ByName(op)
  {
    match op
    case Create(_, size, _, _) =>
      && w.handles == v.handles && Same(v.files, w.files)
      && if r == Made then OneMore(v.files, w.files, size) else r == Nothing && w.files == v.files
    case Remove(_, _) => r == Nothing && w.handles == v.handles && Same(v.files, w.files) && w.files.Keys <= v.files.Keys
    case Open(_, _) =>
      && w.files == v.files
      && if r.Handed? then && r.h !in v.handles && r.h in w.handles && w.handles[r.h].s in v.files
                           && w.handles == v.handles[r.h := Handle(w.handles[r.h].s, 0, false)]
         else r == Nothing && w.handles == v.handles
  }

  /** An operation, on what the files hold. */
  ghost predicate FlatStep(v: Flat, op: FileOp, r: Outcome, w: Flat) {
    && Rooted(v) && Rooted(w)
    && if ByName(op) then NameStep(v, op, r, w)
       else if op.h in v.handles then HandleStep(v, op, r, w)
       else r == Nothing && w == v
  }

  ghost predicate FlatRun(views: seq<Flat>, ops: seq<FileOp>, outs: seq<Outcome>) {
    && |views| == |ops| + 1 && |outs| == |ops|
    && forall i | 0 <= i < |ops| :: FlatStep(views[i], ops[i], outs[i], views[i + 1])
  }

  // ----- a read gives the last bytes written -----

  ghost predicate Closes(op: FileOp, h: nat) { op.Close? && op.h == h }

  /** The handle is there and in the given file. */
  ghost predicate Holds(v: Flat, h: nat, s: nat) { h in v.handles && v.handles[h].s == s && s in v.files }

  lemma StepHolds(v: Flat, op: FileOp, r: Outcome, w: Flat, h: nat, s: nat)
    requires FlatStep(v, op, r, w) && Holds(v, h, s) && !Closes(op, h)
    ensures Holds(w, h, s)
  {
    hide Transferred, Put, Deniers, Holders;
  }

  /** Where a write through a handle puts its bytes. */
  ghost function Offset(v: Flat, op: FileOp): nat
    requires (op.Write? || op.WriteAt?) && op.h in v.handles
  {
    if op.Write? then v.handles[op.h].pos else op.offset
  }

  /** The operation writes byte `k` of a file. */
  ghost predicate PutsAt(v: Flat, op: FileOp, r: Outcome, s: nat, k: nat) {
    && (op.Write? || op.WriteAt?) && Holds(v, op.h, s) && r.Count?
    && Offset(v, op) <= k < Offset(v, op) + r.n
  }

  lemma PutIs(c: seq<Byte>, offset: nat, data: seq<Byte>, bounceOk: bool, n: nat, k: nat)
    requires n == 0 || n == Transferred(|c|, |data|, offset, bounceOk)
    ensures |Put(c, offset, data, n)| == |c|
    ensures offset <= k < offset + n ==> k < |c| && k - offset < |data| && Put(c, offset, data, n)[k] == data[k - offset]
    ensures k < |c| && !(offset <= k < offset + n) ==> Put(c, offset, data, n)[k] == c[k]
  {
    hide Transferred;
    TransferFits(|c|, |data|, offset, bounceOk);
  }

  lemma TransferFits(length: nat, size: nat, offset: nat, bounceOk: bool)
    ensures var n := Transferred(length, size, offset, bounceOk); n > 0 ==> n <= size && offset + n <= length
  {
  }

  lemma StepPuts(v: Flat, op: FileOp, r: Outcome, w: Flat, s: nat, k: nat)
    requires FlatStep(v, op, r, w) && PutsAt(v, op, r, s, k)
    ensures s in w.files && k < |w.files[s]| && k - Offset(v, op) < |op.data|
    ensures w.files[s][k] == op.data[k - Offset(v, op)]
  {
    hide Transferred, Put, Deniers, Rooted;
    PutIs(v.files[s], Offset(v, op), op.data, op.bounceOk, r.n, k);
  }

  /** Any other operation leaves the byte, as long as the file is there. */
  lemma StepKeepsByte(v: Flat, op: FileOp, r: Outcome, w: Flat, s: nat, k: nat)
    requires FlatStep(v, op, r, w) && !PutsAt(v, op, r, s, k)
    requires s in v.files && s in w.files && k < |v.files[s]|
    ensures k < |w.files[s]| && w.files[s][k] == v.files[s][k]
  {
    hide Transferred, Put, Deniers, Holders, Rooted;
    if (op.Write? || op.WriteAt?) && op.h in v.handles {
      WroteCount(v, op, r, w);
      PutIs(v.files[v.handles[op.h].s], Offset(v, op), op.data, op.bounceOk, r.n, k);
    }
  }

  lemma WroteCount(v: Flat, op: FileOp, r: Outcome, w: Flat)
    requires FlatStep(v, op, r, w) && (op.Write? || op.WriteAt?) && op.h in v.handles
    ensures r.Count? && v.handles[op.h].s in v.files
    ensures var c := v.files[v.handles[op.h].s];
            && (r.n == 0 || r.n == Transferred(|c|, |op.data|, Offset(v, op), op.bounceOk))
            && w.files == v.files[v.handles[op.h].s := Put(c, Offset(v, op), op.data, r.n)]
  {
    hide Transferred, Put, Deniers;
  }

  lemma {:induction false} Remembered(views: seq<Flat>, ops: seq<FileOp>, outs: seq<Outcome>, i: nat, j: nat,
                                      g: nat, s: nat, k: nat)
    requires FlatRun(views, ops, outs) && i < j <= |ops| && PutsAt(views[i], ops[i], outs[i], s, k)
    requires Holds(views[i], g, s) && forall m | i <= m < j :: !Closes(ops[m], g)
    requires forall m | i < m < j :: !PutsAt(views[m], ops[m], outs[m], s, k)
    ensures Holds(views[j], g, s) && k < |views[j].files[s]| && k - Offset(views[i], ops[i]) < |ops[i].data|
    ensures views[j].files[s][k] == ops[i].data[k - Offset(views[i], ops[i])]
    decreases j
  {
    hide FlatStep, PutsAt, Offset;
    assert FlatStep(views[j - 1], ops[j - 1], outs[j - 1], views[j]);
    if i + 1 < j {
      Remembered(views, ops, outs, i, j - 1, g, s, k);
      StepHolds(views[j - 1], ops[j - 1], outs[j - 1], views[j], g, s);
      StepKeepsByte(views[j - 1], ops[j - 1], outs[j - 1], views[j], s, k);
    } else {
      StepHolds(views[i], ops[i], outs[i], views[j], g, s);
      StepPuts(views[i], ops[i], outs[i], views[j], s, k);
    }
  }

  /** In every run, a byte read through any handle is the one last written there
      through any handle, as long as some handle keeps the file. */
  lemma ReadsLastBytes(views: seq<Flat>, ops: seq<FileOp>, outs: seq<Outcome>, i: nat, j: nat, g: nat, s: nat, k: nat)
    requires FlatRun(views, ops, outs) && i < j < |ops| && PutsAt(views[i], ops[i], outs[i], s, k)
    requires Holds(views[i], g, s) && forall m | i <= m < j :: !Closes(ops[m], g)
    requires forall m | i < m < j :: !PutsAt(views[m], ops[m], outs[m], s, k)
    requires ops[j].Read? && Holds(views[j], ops[j].h, s) && outs[j].Data?
    requires var pos := views[j].handles[ops[j].h].pos; pos <= k < pos + |outs[j].bytes|
    ensures k - Offset(views[i], ops[i]) < |ops[i].data|
    ensures outs[j].bytes[k - views[j].handles[ops[j].h].pos] == ops[i].data[k - Offset(views[i], ops[i])]
  {
    hide PutsAt, Offset, Transferred;
    Remembered(views, ops, outs, i, j, g, s, k);
    assert FlatStep(views[j], ops[j], outs[j], views[j + 1]);
  }

  // ----- a file whose writes are denied does not change -----

  /** The operation neither closes the handle nor lifts its denial. */
  ghost predicate Spares(op: FileOp, h: nat) {
    !(op.Close? && op.h == h) && !(op.Allow? && op.h == h)
  }

  ghost predicate Denies(v: Flat, h: nat, s: nat) { Holds(v, h, s) && v.handles[h].denyWrite }

  lemma StepDenied(v: Flat, op: FileOp, r: Outcome, w: Flat, h: nat, s: nat)
    requires FlatStep(v, op, r, w) && Denies(v, h, s) && Spares(op, h)
    ensures Denies(w, h, s) && w.files[s] == v.files[s]
  {
    hide Transferred, Holders;
    assert h in Deniers(v.handles, s);
  }

  lemma {:induction false} DeniedStays(views: seq<Flat>, ops: seq<FileOp>, outs: seq<Outcome>, h: nat, s: nat, j: nat)
    requires FlatRun(views, ops, outs) && j <= |ops| && Denies(views[0], h, s)
    requires forall m | 0 <= m < j :: Spares(ops[m], h)
    ensures Denies(views[j], h, s) && views[j].files[s] == views[0].files[s]
    decreases j
  {
    hide FlatStep, Denies;
    if j > 0 {
      DeniedStays(views, ops, outs, h, s, j - 1);
      assert FlatStep(views[j - 1], ops[j - 1], outs[j - 1], views[j]);
      StepDenied(views[j - 1], ops[j - 1], outs[j - 1], views[j], h, s);
    }
  }
}
