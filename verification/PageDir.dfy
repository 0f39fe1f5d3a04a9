/** Two-level page tables of 32-bit words, as a flat map from user pages to
    page-table entries (section 3.7.6 of the IA-32 Software Developer's Manual,
    volume 3A).  Addresses are kernel virtual addresses unless called physical. */
module PageDirectories {
  import opened Helpers

  type Word = bv32
  type Table = seq<Word>

  /** A page of the kernel's, by its address. */
  datatype Page = Page(addr: Word)

  const ENTRIES: nat := 1024
  const USER_PDES: nat := 768
  const PHYS_BASE: Word := 0xC000_0000

  const PTE_ADDR: Word := 0xffff_f000
  const PTE_P: Word := 0x1
  const PTE_W: Word := 0x2
  const PTE_U: Word := 0x4

  // ----- addresses -----

  function PgOfs(va: Word): Word { va & 0xfff }

  function PdNo(va: Word): (i: nat)
    ensures i < ENTRIES
  {
    assert va >> 22 < 1024;
    (va >> 22) as int
  }

  function PtNo(va: Word): (i: nat)
    ensures i < ENTRIES
  {
    assert (va & 0x3ff000) >> 12 < 1024;
    ((va & 0x3ff000) >> 12) as int
  }

  predicate IsUser(va: Word) { va < PHYS_BASE }

  lemma UserPde(va: Word)
    requires IsUser(va)
    ensures PdNo(va) < USER_PDES
  {
    assert va >> 22 < 768;
  }

  lemma SameWord(x: Word, y: Word)
    requires x as int == y as int
    ensures x == y
  {
    assert x == (x as int) as bv32;
    assert y == (y as int) as bv32;
  }

  /** Two pages with the same two indices are the same page. */
  lemma OnePlaceEach(u: Word, v: Word)
    requires PgOfs(u) == 0 && PgOfs(v) == 0 && PdNo(u) == PdNo(v) && PtNo(u) == PtNo(v)
    ensures u == v
  {
    SameWord(u >> 22, v >> 22);
    SameWord((u & 0x3ff000) >> 12, (v & 0x3ff000) >> 12);
  }

  /** Every address of a page has the page's indices. */
  lemma SamePage(va: Word)
    ensures PdNo(va) == PdNo(va & PTE_ADDR) && PtNo(va) == PtNo(va & PTE_ADDR) && PgOfs(va & PTE_ADDR) == 0
  {
    PageBits(va);
  }

  lemma PageBits(va: Word)
    ensures va >> 22 == (va & PTE_ADDR) >> 22
    ensures (va & 0x3ff000) >> 12 == ((va & PTE_ADDR) & 0x3ff000) >> 12
    ensures PgOfs(va & PTE_ADDR) == 0
  {
  }

  function Ptov(p: Word): Word { p + PHYS_BASE }

  function Vtop(v: Word): Word { v - PHYS_BASE }

  // ----- entries -----

  function PdeCreate(pt: Word): Word { Vtop(pt) | PTE_U | PTE_P | PTE_W }

  function PteCreateUser(page: Word, writable: bool): Word {
    (Vtop(page) | PTE_P | (if writable then PTE_W else 0)) | PTE_U
  }

  /** `pde_get_pt` and `pte_get_page`. */
  function GetPage(w: Word): Page { Page(Ptov(w & PTE_ADDR)) }

  predicate Present(w: Word) { w & PTE_P != 0 }

  /** An entry gives back the page it was made for, present and with the asked-for
      permission. */
  lemma EntryRoundTrip(page: Word, writable: bool)
    requires PgOfs(page) == 0
    ensures GetPage(PteCreateUser(page, writable)) == Page(page) && Present(PteCreateUser(page, writable))
    ensures (PteCreateUser(page, writable) & PTE_W != 0) == writable && PteCreateUser(page, writable) & PTE_U != 0
    ensures GetPage(PdeCreate(page)) == Page(page) && Present(PdeCreate(page))
  {
  }

  /** Setting a flag sets it and leaves every other bit. */
  lemma SetApart(w: Word, f: Word, g: Word)
    requires f & g == 0
    ensures (w | f) & f == f && (w | f) & g == w & g
  {
  }

  /** Clearing a flag clears it and leaves every other bit. */
  lemma ClearApart(w: Word, f: Word, g: Word)
    requires f & g == 0
    ensures (w & !f) & f == 0 && (w & !f) & g == w & g
  {
  }

  /** A flag is no part of the page's address. */
  lemma FlagKeepsPage(w: Word, f: Word)
    requires f & PTE_ADDR == 0
    ensures GetPage(w | f) == GetPage(w) && GetPage(w & !f) == GetPage(w)
  {
    SetApart(w, f, PTE_ADDR);
    ClearApart(w, f, PTE_ADDR);
  }

  function WithFlag(w: Word, f: Word, on: bool): Word { if on then w | f else w & !f }

  /** The address at an offset in a page. */
  function At(page: Page, ofs: Word): Word { page.addr + ofs }

  // ----- the flat view -----

  /** The user part of a directory: entries are empty or present, and lead to
      tables that no other entry leads to. */
  ghost predicate WellFormed(pd: Table, tables: map<Page, Table>) {
    && |pd| == ENTRIES && (forall a | a in tables :: |tables[a]| == ENTRIES)
    && (forall i | 0 <= i < USER_PDES :: pd[i] == 0 || (Present(pd[i]) && GetPage(pd[i]) in tables))
    && (forall i, j | 0 <= i < j < USER_PDES && pd[i] != 0 && pd[j] != 0 :: GetPage(pd[i]) != GetPage(pd[j]))
  }

  /** The entry at two indices, zero if there is no table. */
  ghost function Entry(pd: Table, tables: map<Page, Table>, i: nat, j: nat): Word
    requires WellFormed(pd, tables) && i < USER_PDES && j < ENTRIES
  {
    if pd[i] == 0 then 0 else tables[GetPage(pd[i])][j]
  }

  /** The address has a place in the user part: every user address has one. */
  ghost predicate UserPlace(va: Word) { PdNo(va) < USER_PDES }

  lemma UsersHavePlaces(va: Word)
    requires IsUser(va)
    ensures UserPlace(va)
  {
    UserPde(va);
  }

  /** The kernel address of a user address: frame plus offset, if it is mapped. */
  ghost function Translated(pd: Table, tables: map<Page, Table>, va: Word): Option<Word>
    requires WellFormed(pd, tables) && UserPlace(va)
  {
    var w := Entry(pd, tables, PdNo(va), PtNo(va));
    if Present(w) then Some(At(GetPage(w), PgOfs(va))) else None
  }

  /** `pd` and `n` differ in one entry, if at all. */
  ghost predicate OneChanged(pd: Table, t: map<Page, Table>, pd': Table, t': map<Page, Table>, i: nat, j: nat, w: Word)
    requires WellFormed(pd, t) && i < USER_PDES && j < ENTRIES
  {
    && WellFormed(pd', t') && Entry(pd', t', i, j) == w
    && forall k, l | 0 <= k < USER_PDES && 0 <= l < ENTRIES && (k != i || l != j) ::
         Entry(pd', t', k, l) == Entry(pd, t, k, l)
  }

  lemma WriteEntry(pd: Table, t: map<Page, Table>, i: nat, j: nat, w: Word)
    requires WellFormed(pd, t) && i < USER_PDES && j < ENTRIES && pd[i] != 0
    ensures OneChanged(pd, t, pd, t[GetPage(pd[i]) := t[GetPage(pd[i])][j := w]], i, j, w)
  {
    var a := GetPage(pd[i]);
    var t' := t[a := t[a][j := w]];
    assert WellFormed(pd, t');
    forall k, l | 0 <= k < USER_PDES && 0 <= l < ENTRIES && (k != i || l != j)
      ensures Entry(pd, t', k, l) == Entry(pd, t, k, l)
    {
      if k != i && pd[k] != 0 { assert GetPage(pd[k]) != a; }
    }
  }

  /** A zeroed table in an empty place changes no entry. */
  lemma NewTable(pd: Table, t: map<Page, Table>, i: nat, pt: Page, zero: Table)
    requires WellFormed(pd, t) && i < USER_PDES && pd[i] == 0 && pt !in t && PgOfs(pt.addr) == 0
    requires |zero| == ENTRIES && forall l | 0 <= l < ENTRIES :: zero[l] == 0
    ensures var pd', t' := pd[i := PdeCreate(pt.addr)], t[pt := zero];
            && WellFormed(pd', t') && pd'[i] != 0
            && forall k, l | 0 <= k < USER_PDES && 0 <= l < ENTRIES :: Entry(pd', t', k, l) == Entry(pd, t, k, l)
  {
    EntryRoundTrip(pt.addr, true);
    PdeNotZero(pt.addr);
    NewTableFlat(pd, t, i, pt, zero, PdeCreate(pt.addr));
  }

  lemma PdeNotZero(pt: Word)
    ensures PdeCreate(pt) != 0
  {
  }

  lemma NewTableFlat(pd: Table, t: map<Page, Table>, i: nat, pt: Page, zero: Table, pde: Word)
    requires WellFormed(pd, t) && i < USER_PDES && pd[i] == 0 && pt !in t
    requires GetPage(pde) == pt && Present(pde) && pde != 0
    requires |zero| == ENTRIES && forall l | 0 <= l < ENTRIES :: zero[l] == 0
    ensures var pd', t' := pd[i := pde], t[pt := zero];
            && WellFormed(pd', t')
            && forall k, l | 0 <= k < USER_PDES && 0 <= l < ENTRIES :: Entry(pd', t', k, l) == Entry(pd, t, k, l)
  {
    var pd', t' := pd[i := pde], t[pt := zero];
    assert forall k | 0 <= k < USER_PDES && k != i :: pd'[k] == pd[k];
    assert forall k | 0 <= k < USER_PDES && k != i && pd[k] != 0 :: GetPage(pd[k]) in t;
    assert WellFormed(pd', t');
  }

  // ----- operations -----

  class PageDirectory {
    const self: Page
    var pd: Table
    var tables: map<Page, Table>

    ghost predicate Valid()
      reads this
    {
      WellFormed(pd, tables)
    }

    /** A directory with the kernel's part of the base directory and no user page. */
    constructor (self: Page, basePd: Table)
      requires |basePd| == ENTRIES && forall i | 0 <= i < USER_PDES :: basePd[i] == 0
      ensures Valid() && this.self == self
      ensures forall k, l | 0 <= k < USER_PDES && 0 <= l < ENTRIES :: Entry(pd, tables, k, l) == 0
      ensures pd == basePd && tables == map[]
    {
      this.self, pd, tables := self, basePd, map[];
    }

    /** The table for an address, made of `page` if there is none and one is wanted. */
    method LookupPage(i: nat, create: bool, page: Option<Page>) returns (pt: Option<Page>)
      requires Valid() && i < USER_PDES
      requires page.Some? ==> page.value !in tables && PgOfs(page.value.addr) == 0
      modifies this
      ensures Valid() && (pt.Some? <==> old(pd)[i] != 0 || (create && page.Some?))
      ensures pt.Some? ==> pd[i] != 0 && pt.value == GetPage(pd[i]) && pt.value in tables
      ensures forall k, l | 0 <= k < USER_PDES && 0 <= l < ENTRIES ::
                Entry(pd, tables, k, l) == Entry(old(pd), old(tables), k, l)
      ensures pt.None? || old(pd)[i] != 0 ==> pd == old(pd) && tables == old(tables)
      ensures pt.Some? && old(pd)[i] == 0 ==>
                pd == old(pd)[i := PdeCreate(page.value.addr)] && tables.Keys == old(tables).Keys + {page.value}
    {
      if pd[i] == 0 {
        if !create || page.None? {
          return None;
        }
        var zero := ZeroTable();
        NewTable(pd, tables, i, page.value, zero);
        pd, tables := pd[i := PdeCreate(page.value.addr)], tables[page.value := zero];
      }
      pt := Some(GetPage(pd[i]));
    }

    /** A page mapped: its entry and no other changes. */
    method SetPage(upage: Word, kpage: Word, writable: bool, page: Option<Page>) returns (ok: bool)
      requires Valid() && PgOfs(upage) == 0 && IsUser(upage) && PgOfs(kpage) == 0 && !IsUser(kpage)
      requires UserPlace(upage) && !Present(Entry(pd, tables, PdNo(upage), PtNo(upage)))
      requires page.Some? ==> page.value !in tables && PgOfs(page.value.addr) == 0
      modifies this
      ensures Valid() && (ok <==> old(pd)[PdNo(upage)] != 0 || page.Some?)
      ensures ok ==> OneChanged(old(pd), old(tables), pd, tables, PdNo(upage), PtNo(upage), PteCreateUser(kpage, writable))
      ensures ok ==> if old(pd)[PdNo(upage)] != 0 then pd == old(pd) && tables.Keys == old(tables).Keys
                     else && pd == old(pd)[PdNo(upage) := PdeCreate(page.value.addr)]
                          && tables.Keys == old(tables).Keys + {page.value}
      ensures !ok ==> pd == old(pd) && tables == old(tables)
    {
      hide Present, PdNo, PtNo, PteCreateUser, GetPage, PgOfs, IsUser, PdeCreate;
      var pt := LookupPage(PdNo(upage), true, page);
      ok := pt.Some?;
      if ok {
        PutEntry(pt.value, PdNo(upage), PtNo(upage), PteCreateUser(kpage, writable));
      }
    }

    /** One word of a table written. */
    method PutEntry(pt: Page, i: nat, j: nat, w: Word)
      requires Valid() && i < USER_PDES && j < ENTRIES && pd[i] != 0 && pt == GetPage(pd[i]) && pt in tables
      modifies this`tables
      ensures OneChanged(pd, old(tables), pd, tables, i, j, w) && tables.Keys == old(tables).Keys
    {
      hide Present, GetPage;
      WriteEntry(pd, tables, i, j, w);
      tables := tables[pt := tables[pt][j := w]];
    }

    /** The kernel address of a user address: frame plus offset. */
    method GetPageAt(uaddr: Word) returns (r: Option<Word>)
      requires Valid() && UserPlace(uaddr)
      ensures r == Translated(pd, tables, uaddr)
    {
      hide PdNo, PtNo, GetPage, PgOfs, At, Present;
      var i, j := PdNo(uaddr), PtNo(uaddr);
      r := None;
      ZeroIsAbsent();
      if pd[i] != 0 {
        var pte := tables[GetPage(pd[i])][j];
        if Present(pte) {
          r := Some(At(GetPage(pte), PgOfs(uaddr)));
        }
      }
    }

    /** A page marked not present; the rest of its entry stays. */
    method ClearPage(upage: Word)
      requires Valid() && PgOfs(upage) == 0 && UserPlace(upage)
      modifies this
      ensures var w := Entry(old(pd), old(tables), PdNo(upage), PtNo(upage));
              OneChanged(old(pd), old(tables), pd, tables, PdNo(upage), PtNo(upage), WithFlag(w, PTE_P, false))
    {
      hide PdNo, PtNo, GetPage, PgOfs, WithFlag, Present;
      var i, j := PdNo(upage), PtNo(upage);
      ZeroIsAbsent();
      NotPresent(Entry(pd, tables, i, j));
      var pt := LookupPage(i, false, None);
      if pt.Some? {
        var pte := tables[pt.value][j];
        if Present(pte) {
          PutEntry(pt.value, i, j, WithFlag(pte, PTE_P, false));
        }
      }
    }

    /** `pagedir_set_dirty`, `_rw` and `_accessed`: one flag of an entry, if there is
        a table for it. */
    method SetFlag(vpage: Word, flag: Word, on: bool)
      requires Valid() && UserPlace(vpage)
      modifies this
      ensures var w := Entry(old(pd), old(tables), PdNo(vpage), PtNo(vpage));
              OneChanged(old(pd), old(tables), pd, tables, PdNo(vpage), PtNo(vpage),
                         if old(pd)[PdNo(vpage)] == 0 then 0 else WithFlag(w, flag, on))
    {
      hide Present, PdNo, PtNo, GetPage, PgOfs, WithFlag;
      var i, j := PdNo(vpage), PtNo(vpage);
      var pt := LookupPage(i, false, None);
      if pt.Some? {
        var pte := tables[pt.value][j];
        PutEntry(pt.value, i, j, WithFlag(pte, flag, on));
      }
    }
  }

  // ----- destruction -----

  /** The frames of the first `j` entries of a table that are present. */
  ghost function FramesIn(t: Table, j: nat): seq<Page>
    requires j <= |t|
  {
    if j == 0 then []
    else FramesIn(t, j - 1) + if Present(t[j - 1]) then [GetPage(t[j - 1])] else []
  }

  /** What the first `i` entries of a directory hold: frames and tables. */
  ghost function Held(pd: Table, tables: map<Page, Table>, i: nat): seq<Page>
    requires WellFormed(pd, tables) && i <= USER_PDES
  {
    if i == 0 then []
    else Held(pd, tables, i - 1) +
         if pd[i - 1] == 0 then [] else FramesIn(tables[GetPage(pd[i - 1])], ENTRIES) + [GetPage(pd[i - 1])]
  }

  /** `pagedir_destroy`: the pages it frees, in order. */
  method Destroy(d: PageDirectory) returns (freed: seq<Page>)
    requires d.Valid()
    ensures freed == Held(d.pd, d.tables, USER_PDES) + [d.self]
  {
    hide Present, GetPage;
    freed := [];
    var i := 0;
    while i < USER_PDES
      invariant i <= USER_PDES && freed == Held(d.pd, d.tables, i)
    {
      PresentOrEmpty(d.pd, d.tables, i);
      if Present(d.pd[i]) {
        var frames := FreeFrames(d.tables[GetPage(d.pd[i])]);
        freed := freed + (frames + [GetPage(d.pd[i])]);
      }
      i := i + 1;
    }
    freed := freed + [d.self];
  }

  lemma PresentOrEmpty(pd: Table, tables: map<Page, Table>, i: nat)
    requires WellFormed(pd, tables) && i < USER_PDES
    ensures Present(pd[i]) <==> pd[i] != 0
  {
    ZeroIsAbsent();
  }

  method FreeFrames(t: Table) returns (freed: seq<Page>)
    requires |t| == ENTRIES
    ensures freed == FramesIn(t, ENTRIES)
  {
    hide Present, GetPage;
    freed := [];
    var j := 0;
    while j < ENTRIES
      invariant j <= ENTRIES && freed == FramesIn(t, j)
    {
      if Present(t[j]) {
        freed := freed + [GetPage(t[j])];
      }
      j := j + 1;
    }
  }

  /** The frame of a present user page. */
  ghost predicate IsFrame(pd: Table, tables: map<Page, Table>, i: nat, j: nat, x: Page)
    requires WellFormed(pd, tables)
  {
    i < USER_PDES && j < ENTRIES && Present(Entry(pd, tables, i, j)) && GetPage(Entry(pd, tables, i, j)) == x
  }

  ghost predicate IsTable(pd: Table, i: nat, x: Page)
    requires |pd| == ENTRIES
  {
    i < USER_PDES && pd[i] != 0 && GetPage(pd[i]) == x
  }

  /** No frame is mapped twice, and none is a table. */
  ghost predicate Unshared(pd: Table, tables: map<Page, Table>)
    requires WellFormed(pd, tables)
  {
    && (forall i, j, k, l, x | IsFrame(pd, tables, i, j, x) && IsFrame(pd, tables, k, l, x) :: i == k && j == l)
    && (forall i, j, k, x | IsFrame(pd, tables, i, j, x) :: !IsTable(pd, k, x))
  }

  lemma {:induction false} FramesAre(t: Table, j: nat, x: Page)
    requires j <= |t|
    ensures x in FramesIn(t, j) <==> exists k | 0 <= k < j :: Present(t[k]) && GetPage(t[k]) == x
  {
    hide Present, GetPage;
    if j > 0 {
      FramesAre(t, j - 1, x);
    }
  }

  lemma {:induction false} FramesOnce(t: Table, j: nat)
    requires j <= |t|
    requires forall k, l | 0 <= k < l < j && Present(t[k]) && Present(t[l]) :: GetPage(t[k]) != GetPage(t[l])
    ensures Distinct(FramesIn(t, j))
  {
    hide Present, GetPage;
    if j > 0 {
      FramesOnce(t, j - 1);
      FramesAre(t, j - 1, GetPage(t[j - 1]));
    }
  }

  /** Destruction frees the frame of every present page and every table. */
  lemma {:induction false} HeldAre(pd: Table, tables: map<Page, Table>, i: nat, x: Page)
    requires WellFormed(pd, tables) && i <= USER_PDES
    ensures x in Held(pd, tables, i) <==>
            || (exists k: nat, j: nat :: k < i && IsFrame(pd, tables, k, j, x))
            || (exists k: nat :: k < i && IsTable(pd, k, x))
    decreases i
  {
    hide Present, GetPage, Held, Here, IsFrame, IsTable, WellFormed;
    if i == 0 {
      HeldNothing(pd, tables);
    } else {
      HeldAre(pd, tables, i - 1, x);
      HeldHere(pd, tables, i - 1, x);
      if k: nat, j: nat :| k < i && IsFrame(pd, tables, k, j, x) { assert k < i - 1 || k == i - 1; }
    }
  }

  ghost function Here(pd: Table, tables: map<Page, Table>, i: nat): seq<Page>
    requires WellFormed(pd, tables) && i < USER_PDES
  {
    if pd[i] == 0 then [] else FramesIn(tables[GetPage(pd[i])], ENTRIES) + [GetPage(pd[i])]
  }

  lemma HeldHere(pd: Table, tables: map<Page, Table>, i: nat, x: Page)
    requires WellFormed(pd, tables) && i < USER_PDES
    ensures Held(pd, tables, i + 1) == Held(pd, tables, i) + Here(pd, tables, i)
    ensures x in Here(pd, tables, i) <==> (exists j: nat :: IsFrame(pd, tables, i, j, x)) || IsTable(pd, i, x)
  {
    hide Present, GetPage, FramesIn;
    ZeroIsAbsent();
    if pd[i] != 0 {
      FramesAre(tables[GetPage(pd[i])], ENTRIES, x);
      var t := tables[GetPage(pd[i])];
      assert forall j: nat | j < ENTRIES :: Entry(pd, tables, i, j) == t[j];
      if x in FramesIn(t, ENTRIES) {
        var k :| 0 <= k < ENTRIES && Present(t[k]) && GetPage(t[k]) == x;
        assert IsFrame(pd, tables, i, k, x);
      }
      if j: nat :| IsFrame(pd, tables, i, j, x) {
        assert Present(t[j]) && GetPage(t[j]) == x;
      }
    }
  }

  /** What an entry holds is not held twice. */
  lemma HereOnce(pd: Table, tables: map<Page, Table>, i: nat)
    requires WellFormed(pd, tables) && Unshared(pd, tables) && i < USER_PDES
    ensures Distinct(Here(pd, tables, i))
  {
    hide Present, GetPage, FramesIn;
    if pd[i] != 0 {
      var t := tables[GetPage(pd[i])];
      assert forall j: nat | j < ENTRIES :: Entry(pd, tables, i, j) == t[j];
      forall k, l | 0 <= k < l < ENTRIES && Present(t[k]) && Present(t[l]) ensures GetPage(t[k]) != GetPage(t[l]) {
        assert IsFrame(pd, tables, i, k, GetPage(t[k])) && IsFrame(pd, tables, i, l, GetPage(t[l]));
      }
      FramesOnce(t, ENTRIES);
      forall k | 0 <= k < ENTRIES && Present(t[k]) ensures GetPage(t[k]) != GetPage(pd[i]) {
        assert IsFrame(pd, tables, i, k, GetPage(t[k]));
        assert !IsTable(pd, i, GetPage(t[k]));
      }
      FramesAre(t, ENTRIES, GetPage(pd[i]));
      DistinctJoin(FramesIn(t, ENTRIES), [GetPage(pd[i])]);
    }
  }

  lemma DistinctJoin(a: seq<Page>, b: seq<Page>)
    requires Distinct(a) && Distinct(b) && forall k | 0 <= k < |b| :: b[k] !in a
    ensures Distinct(a + b)
  {
    forall i, j | 0 <= i < j < |a + b| ensures (a + b)[i] != (a + b)[j] {
      if i < |a| <= j { assert b[j - |a|] !in a && a[i] in a; }
    }
  }

  /** Nothing is freed twice: of two different entries, none holds what the other
      holds. */
  lemma {:induction false} HeldOnce(pd: Table, tables: map<Page, Table>, i: nat)
    requires WellFormed(pd, tables) && Unshared(pd, tables) && i <= USER_PDES
    ensures Distinct(Held(pd, tables, i))
    decreases i
  {
    hide Present, GetPage, FramesIn, Held, Here, IsFrame, IsTable, WellFormed;
    if i == 0 {
      HeldNothing(pd, tables);
    } else {
      HeldOnce(pd, tables, i - 1);
      HereOnce(pd, tables, i - 1);
      HeldHere(pd, tables, i - 1, Page(0));
      var before, here := Held(pd, tables, i - 1), Here(pd, tables, i - 1);
      forall k | 0 <= k < |here| ensures here[k] !in before {
        HeldApart(pd, tables, i - 1, here[k]);
      }
      DistinctJoin(before, here);
    }
  }

  lemma HeldNothing(pd: Table, tables: map<Page, Table>)
    requires WellFormed(pd, tables)
    ensures Held(pd, tables, 0) == []
  {
  }

  lemma HeldApart(pd: Table, tables: map<Page, Table>, i: nat, x: Page)
    requires WellFormed(pd, tables) && Unshared(pd, tables) && i < USER_PDES
    requires x in Here(pd, tables, i)
    ensures x !in Held(pd, tables, i)
  {
    hide Present, GetPage, FramesIn, Held, Here, IsFrame;
    HeldAre(pd, tables, i, x);
    HeldHere(pd, tables, i, x);
  }

  lemma HeldAll(pd: Table, tables: map<Page, Table>, x: Page)
    requires WellFormed(pd, tables)
    ensures x in Held(pd, tables, USER_PDES) <==>
            (exists k: nat, j: nat :: IsFrame(pd, tables, k, j, x)) || (exists k: nat :: IsTable(pd, k, x))
  {
    hide Present, GetPage, FramesIn, Held, Entry;
    HeldAre(pd, tables, USER_PDES, x);
  }

  /** Destruction frees every frame, every table and the directory exactly once. */
  lemma DestroyOnce(pd: Table, tables: map<Page, Table>, self: Page)
    requires WellFormed(pd, tables) && Unshared(pd, tables)
    requires forall i: nat, j: nat :: !IsFrame(pd, tables, i, j, self)
    requires forall i: nat :: !IsTable(pd, i, self)
    ensures Distinct(Held(pd, tables, USER_PDES) + [self])
    ensures forall x :: x in Held(pd, tables, USER_PDES) + [self] <==>
              || (exists k: nat, j: nat :: IsFrame(pd, tables, k, j, x)) || (exists k: nat :: IsTable(pd, k, x)) || x == self
  {
    hide Present, GetPage, FramesIn, Held, Entry, IsFrame;
    HeldOnce(pd, tables, USER_PDES);
    var held := Held(pd, tables, USER_PDES);
    forall x ensures x in held <==>
              (exists k: nat, j: nat :: IsFrame(pd, tables, k, j, x)) || (exists k: nat :: IsTable(pd, k, x))
    {
      HeldAll(pd, tables, x);
    }
    HeldAll(pd, tables, self);
    DistinctJoin(held, [self]);
  }

  /** Addresses in different pages have different places. */
  lemma OtherPlace(u: Word, v: Word)
    requires u & PTE_ADDR != v & PTE_ADDR
    ensures PdNo(u) != PdNo(v) || PtNo(u) != PtNo(v)
  {
    hide PdNo, PtNo, PgOfs;
    SamePage(u);
    SamePage(v);
    if PdNo(u) == PdNo(v) && PtNo(u) == PtNo(v) {
      OnePlaceEach(u & PTE_ADDR, v & PTE_ADDR);
    }
  }

  lemma NotPresent(w: Word)
    ensures !Present(w) ==> WithFlag(w, PTE_P, false) == w
  {
  }

  lemma ZeroIsAbsent()
    ensures !Present(0)
  {
  }

  /** The page of an address. */
  function PageBase(va: Word): Word { va & PTE_ADDR }

  lemma SamePlace(upage: Word, va: Word)
    requires PgOfs(upage) == 0
    ensures PageBase(va) == upage <==> PdNo(va) == PdNo(upage) && PtNo(va) == PtNo(upage)
  {
    hide PdNo, PtNo;
    SamePage(va);
    assert upage & PTE_ADDR == upage;
    if PageBase(va) != upage { OtherPlace(va, upage); }
  }

  lemma ChangedEntry(pd: Table, t: map<Page, Table>, pd': Table, t': map<Page, Table>, i: nat, j: nat, w: Word,
                     k: nat, l: nat)
    requires WellFormed(pd, t) && i < USER_PDES && j < ENTRIES && OneChanged(pd, t, pd', t', i, j, w)
    requires k < USER_PDES && l < ENTRIES
    ensures WellFormed(pd', t') && Entry(pd', t', k, l) == if k == i && l == j then w else Entry(pd, t, k, l)
  {
    hide WellFormed, Entry;
  }

  /** After a page is mapped, each of its addresses gives its frame plus the offset,
      and every other user address gives what it gave. */
  lemma MapThenGet(pd: Table, t: map<Page, Table>, pd': Table, t': map<Page, Table>,
                   upage: Word, kpage: Word, writable: bool, va: Word)
    requires WellFormed(pd, t) && PgOfs(upage) == 0 && PgOfs(kpage) == 0 && IsUser(upage) && IsUser(va)
    requires UserPlace(upage)
    requires OneChanged(pd, t, pd', t', PdNo(upage), PtNo(upage), PteCreateUser(kpage, writable))
    ensures UserPlace(va)
    ensures Translated(pd', t', va) ==
            if PageBase(va) == upage then Some(At(Page(kpage), PgOfs(va))) else Translated(pd, t, va)
  {
    hide PdNo, PtNo, PgOfs, Present, GetPage, At, PteCreateUser, WellFormed, IsUser, OneChanged, Entry, PageBase;
    UsersHavePlaces(va);
    SamePlace(upage, va);
    ChangedEntry(pd, t, pd', t', PdNo(upage), PtNo(upage), PteCreateUser(kpage, writable), PdNo(va), PtNo(va));
    EntryRoundTrip(kpage, writable);
  }

  // ----- a process's pages, from the first to the last -----

  /** A page that a process is to have. */
  datatype Want = Want(upage: Word, writable: bool)

  ghost predicate ForUser(w: Want) { PgOfs(w.upage) == 0 && IsUser(w.upage) }

  /** The free pages of the kernel, none of them twice and none of them `self`. */
  ghost predicate IsPool(pool: seq<Page>, self: Page) {
    && Distinct(pool) && self !in pool
    && forall k | 0 <= k < |pool| :: PgOfs(pool[k].addr) == 0 && !IsUser(pool[k].addr)
  }

  /** The directory's frames and tables are among given pages. */
  ghost predicate Within(pd: Table, tables: map<Page, Table>, used: set<Page>)
    requires WellFormed(pd, tables)
  {
    && (forall i, j, x | IsFrame(pd, tables, i, j, x) :: x in used)
    && (forall i, x | IsTable(pd, i, x) :: x in used)
    && tables.Keys <= used
  }

  /** Mapping a new frame, with a new table if need be, shares nothing. */
  lemma StaysUnshared(pd: Table, t: map<Page, Table>, pd': Table, t': map<Page, Table>, i: nat, j: nat, w: Word,
                      frame: Page, used: set<Page>)
    requires WellFormed(pd, t) && Unshared(pd, t) && Within(pd, t, used)
    requires i < USER_PDES && j < ENTRIES && OneChanged(pd, t, pd', t', i, j, w)
    requires Present(w) && GetPage(w) == frame && frame !in used
    requires forall k, x | IsTable(pd', k, x) :: IsTable(pd, k, x) || (x != frame && x !in used)
    ensures Unshared(pd', t')
    ensures forall k, l, x | IsFrame(pd', t', k, l, x) :: x in used + {frame}
  {
    hide Present, GetPage, WellFormed, Entry;
    forall k, l, x | IsFrame(pd', t', k, l, x) ensures (k == i && l == j && x == frame) || IsFrame(pd, t, k, l, x) {}
  }

  lemma TablesAfter(pd: Table, i: nat, table: Page, k: nat, x: Page)
    requires |pd| == ENTRIES && i < USER_PDES && PgOfs(table.addr) == 0
    ensures IsTable(pd[i := PdeCreate(table.addr)], k, x) ==> IsTable(pd, k, x) || x == table
  {
    EntryRoundTrip(table.addr, true);
  }

  /** The pages of the pool given out so far. */
  ghost function Taken(pool: seq<Page>, p: nat): set<Page>
    requires p <= |pool|
  {
    set x | x in pool[..p]
  }

  lemma NextPage(pool: seq<Page>, self: Page, p: nat)
    requires IsPool(pool, self) && p < |pool|
    ensures pool[p] !in Taken(pool, p) && Taken(pool, p + 1) == Taken(pool, p) + {pool[p]} && pool[p] != self
    ensures PgOfs(pool[p].addr) == 0 && !IsUser(pool[p].addr)
  {
    hide PgOfs, IsUser;
    assert pool[..p + 1] == pool[..p] + [pool[p]];
  }

  lemma NotMapped(pd: Table, t: map<Page, Table>, va: Word)
    requires WellFormed(pd, t) && UserPlace(va)
    ensures Translated(pd, t, va).Some? <==> Present(Entry(pd, t, PdNo(va), PtNo(va)))
  {
    hide Present, Entry, PdNo, PtNo;
  }

  /** A page that destruction would free. */
  ghost predicate IsHeld(pd: Table, tables: map<Page, Table>, x: Page)
    requires WellFormed(pd, tables)
  {
    (exists k: nat, j: nat :: IsFrame(pd, tables, k, j, x)) || (exists k: nat :: IsTable(pd, k, x))
  }

  /** The directory holds exactly the given pages, none of them twice. */
  ghost predicate Owns(pd: Table, tables: map<Page, Table>, used: set<Page>)
    requires WellFormed(pd, tables)
  {
    Unshared(pd, tables) && Within(pd, tables, used) && forall x | x in used :: IsHeld(pd, tables, x)
  }

  /** One page mapped where none was, by a new frame and, in an empty place, a new
      table. */
  ghost predicate MappedNew(pd: Table, t: map<Page, Table>, pd': Table, t': map<Page, Table>, i: nat, j: nat, w: Word,
                            frame: Page, table: Page)
    requires WellFormed(pd, t)
  {
    && i < USER_PDES && j < ENTRIES && !Present(Entry(pd, t, i, j)) && OneChanged(pd, t, pd', t', i, j, w)
    && Present(w) && GetPage(w) == frame
    && if pd[i] != 0 then pd' == pd && t'.Keys == t.Keys
       else && PgOfs(table.addr) == 0 && table != frame
            && pd' == pd[i := PdeCreate(table.addr)] && t'.Keys == t.Keys + {table}
  }

  /** What mapping one page leaves. */
  lemma Installed(pd: Table, t: map<Page, Table>, pd': Table, t': map<Page, Table>, i: nat, j: nat, w: Word,
                  frame: Page, table: Page, used: set<Page>)
    requires WellFormed(pd, t) && Unshared(pd, t) && Within(pd, t, used)
    requires MappedNew(pd, t, pd', t', i, j, w, frame, table)
    requires frame !in used && (pd[i] == 0 ==> table !in used)
    ensures WellFormed(pd', t') && Unshared(pd', t')
    ensures Within(pd', t', if pd[i] != 0 then used + {frame} else used + {frame} + {table})
  {
    hide Present, GetPage, Entry, PdeCreate, PgOfs, Unshared;
    forall k, x | IsTable(pd', k, x) ensures IsTable(pd, k, x) || (pd[i] == 0 && x == table) {
      if pd[i] == 0 { TablesAfter(pd, i, table, k, x); }
    }
    StaysUnshared(pd, t, pd', t', i, j, w, frame, used);
  }

  /** What was held still is, and so are the new frame and the new table. */
  lemma HeldAfter(pd: Table, t: map<Page, Table>, pd': Table, t': map<Page, Table>, i: nat, j: nat, w: Word,
                  frame: Page, table: Page, x: Page)
    requires WellFormed(pd, t) && WellFormed(pd', t') && MappedNew(pd, t, pd', t', i, j, w, frame, table)
    requires IsHeld(pd, t, x) || x == frame || (pd[i] == 0 && x == table)
    ensures IsHeld(pd', t', x)
  {
    hide Present, GetPage, Entry, PdeCreate, PgOfs, WellFormed;
    Sizes(pd, t);
    Sizes(pd', t');
    if x == frame {
      assert IsFrame(pd', t', i, j, x);
    } else if pd[i] == 0 && x == table {
      NewTableHeld(pd, i, table);
      assert IsTable(pd', i, x);
    } else if k: nat, l: nat :| IsFrame(pd, t, k, l, x) {
      assert IsFrame(pd', t', k, l, x);
    } else {
      var k: nat :| IsTable(pd, k, x);
      assert IsTable(pd', k, x);
    }
  }

  lemma Sizes(pd: Table, t: map<Page, Table>)
    requires WellFormed(pd, t)
    ensures |pd| == ENTRIES
  {
  }

  lemma NewTableHeld(pd: Table, i: nat, table: Page)
    requires |pd| == ENTRIES && i < USER_PDES && PgOfs(table.addr) == 0
    ensures IsTable(pd[i := PdeCreate(table.addr)], i, table)
  {
    EntryRoundTrip(table.addr, true);
    PdeNotZero(table.addr);
  }

  lemma OwnsMore(pd: Table, t: map<Page, Table>, pd': Table, t': map<Page, Table>, i: nat, j: nat, w: Word,
                 frame: Page, table: Page, used: set<Page>)
    requires WellFormed(pd, t) && Owns(pd, t, used) && MappedNew(pd, t, pd', t', i, j, w, frame, table)
    requires frame !in used && (pd[i] == 0 ==> table !in used)
    ensures WellFormed(pd', t') && Owns(pd', t', if pd[i] != 0 then used + {frame} else used + {frame} + {table})
  {
    hide Present, GetPage, Entry, PdeCreate, PgOfs, Unshared, Within, IsHeld, OneChanged, WellFormed;
    Sizes(pd, t);
    Installed(pd, t, pd', t', i, j, w, frame, table, used);
    forall x | x in used || x == frame || (pd[i] == 0 && x == table) ensures IsHeld(pd', t', x) {
      HeldAfter(pd, t, pd', t', i, j, w, frame, table, x);
    }
  }

  /** How many pages it takes to map a page, of those still free: none if it is
      mapped already or there are too few. */
  ghost function Takes(pd: Table, t: map<Page, Table>, va: Word, free: nat): nat
    requires WellFormed(pd, t) && UserPlace(va)
  {
    if free == 0 || Translated(pd, t, va).Some? || (pd[PdNo(va)] == 0 && free == 1) then 0
    else if pd[PdNo(va)] == 0 then 2
    else 1
  }

  /** `install_page` of the next free page, if there is one and nothing is mapped
      there.  A table, should one be needed, takes the page after. */
  method Install(d: PageDirectory, want: Want, pool: seq<Page>, p: nat) returns (taken: nat)
    requires d.Valid() && ForUser(want) && IsPool(pool, d.self) && p <= |pool|
    requires UserPlace(want.upage) && Owns(d.pd, d.tables, Taken(pool, p))
    modifies d
    ensures d.Valid() && taken == Takes(old(d.pd), old(d.tables), want.upage, |pool| - p) && p + taken <= |pool|
    ensures Owns(d.pd, d.tables, Taken(pool, p + taken))
    ensures taken == 0 ==> d.pd == old(d.pd) && d.tables == old(d.tables)
    ensures taken > 0 ==> MappedNew(old(d.pd), old(d.tables), d.pd, d.tables, PdNo(want.upage), PtNo(want.upage),
                                    PteCreateUser(pool[p].addr, want.writable), pool[p],
                                    if taken == 2 then pool[p + 1] else pool[p])
  {
    hide Present, PdNo, PtNo, PteCreateUser, GetPage, PgOfs, IsUser, PdeCreate, WellFormed, Entry, Translated, OneChanged,
         UserPlace, At, Owns, IsPool, Taken, MappedNew;
    taken := 0;
    PlaceInUser(d.pd, d.tables, want.upage);
    if p == |pool| {
      return;
    }
    NextPage(pool, d.self, p);
    var before := d.GetPageAt(want.upage);
    NotMapped(d.pd, d.tables, want.upage);
    if before.Some? {
      return;
    }
    ghost var pd, t := d.pd, d.tables;
    var table := None;
    if p + 1 < |pool| {
      NextPage(pool, d.self, p + 1);
      table := Some(pool[p + 1]);
    }
    OwnsTables(pd, t, Taken(pool, p));
    var newTable := d.pd[PdNo(want.upage)] == 0;
    var ok := d.SetPage(want.upage, pool[p].addr, want.writable, table);
    if ok {
      taken := if newTable then 2 else 1;
      ghost var second := if newTable then pool[p + 1] else pool[p];
      IsMappedNew(pd, t, d.pd, d.tables, want, pool[p], second);
      OwnsMore(pd, t, d.pd, d.tables, PdNo(want.upage), PtNo(want.upage), PteCreateUser(pool[p].addr, want.writable),
               pool[p], second, Taken(pool, p));
    }
  }

  lemma OwnsTables(pd: Table, t: map<Page, Table>, used: set<Page>)
    requires WellFormed(pd, t) && Owns(pd, t, used)
    ensures t.Keys <= used
  {
    hide WellFormed, Unshared, IsHeld, IsFrame, IsTable;
  }

  /** What `SetPage` promises, in these terms. */
  lemma IsMappedNew(pd: Table, t: map<Page, Table>, pd': Table, t': map<Page, Table>, want: Want, frame: Page, table: Page)
    requires WellFormed(pd, t) && UserPlace(want.upage) && PgOfs(frame.addr) == 0
    requires !Present(Entry(pd, t, PdNo(want.upage), PtNo(want.upage)))
    requires OneChanged(pd, t, pd', t', PdNo(want.upage), PtNo(want.upage), PteCreateUser(frame.addr, want.writable))
    requires if pd[PdNo(want.upage)] != 0 then pd' == pd && t'.Keys == t.Keys
             else && PgOfs(table.addr) == 0 && table != frame
                  && pd' == pd[PdNo(want.upage) := PdeCreate(table.addr)] && t'.Keys == t.Keys + {table}
    ensures MappedNew(pd, t, pd', t', PdNo(want.upage), PtNo(want.upage), PteCreateUser(frame.addr, want.writable),
                      frame, table)
  {
    hide PdNo, PtNo, PteCreateUser, PgOfs, PdeCreate, WellFormed, Entry, OneChanged, Present, GetPage;
    EntryRoundTrip(frame.addr, want.writable);
  }

  lemma PlaceInUser(pd: Table, t: map<Page, Table>, va: Word)
    requires WellFormed(pd, t) && UserPlace(va)
    ensures PdNo(va) < USER_PDES < |pd|
  {
  }

  // What a run of such calls maps, by places alone.

  /** The places with a table, the places mapped, and the pages taken. */
  datatype Places = Places(dirs: set<nat>, mapped: set<(nat, nat)>, taken: nat)

  ghost function MapOne(st: Places, i: nat, j: nat, n: nat): Places {
    if st.taken >= n || (i, j) in st.mapped || (i !in st.dirs && st.taken + 1 >= n) then st
    else Places(st.dirs + {i}, st.mapped + {(i, j)}, st.taken + if i in st.dirs then 1 else 2)
  }

  /** The first `k` pages wanted, each mapped while the `n` free pages last. */
  ghost function MapMany(wants: seq<Want>, k: nat, n: nat): Places
    requires k <= |wants|
  {
    if k == 0 then Places({}, {}, 0)
    else MapOne(MapMany(wants, k - 1, n), PdNo(wants[k - 1].upage), PtNo(wants[k - 1].upage), n)
  }

  ghost predicate Agrees(pd: Table, t: map<Page, Table>, st: Places)
    requires WellFormed(pd, t)
  {
    && (forall i | 0 <= i < USER_PDES :: pd[i] != 0 <==> i in st.dirs)
    && (forall i, j | 0 <= i < USER_PDES && 0 <= j < ENTRIES :: Present(Entry(pd, t, i, j)) <==> (i, j) in st.mapped)
  }

  lemma AgreesMore(pd: Table, t: map<Page, Table>, pd': Table, t': map<Page, Table>, i: nat, j: nat, w: Word,
                   frame: Page, table: Page, st: Places)
    requires WellFormed(pd, t) && WellFormed(pd', t') && Agrees(pd, t, st)
    requires MappedNew(pd, t, pd', t', i, j, w, frame, table)
    ensures Agrees(pd', t', Places(st.dirs + {i}, st.mapped + {(i, j)}, st.taken + if i in st.dirs then 1 else 2))
  {
    hide Present, GetPage, Entry, PdeCreate, PgOfs, WellFormed;
    Sizes(pd, t);
    PdeNotZero(table.addr);
  }

  /** One call of `Install` does what `MapOne` says. */
  lemma InstallAgrees(pd: Table, t: map<Page, Table>, pd': Table, t': map<Page, Table>, want: Want, n: nat,
                      taken: nat, w: Word, frame: Page, table: Page, st: Places)
    requires WellFormed(pd, t) && WellFormed(pd', t') && Agrees(pd, t, st) && UserPlace(want.upage) && st.taken <= n
    requires taken == Takes(pd, t, want.upage, n - st.taken)
    requires taken == 0 ==> pd' == pd && t' == t
    requires taken > 0 ==> MappedNew(pd, t, pd', t', PdNo(want.upage), PtNo(want.upage), w, frame, table)
    ensures var m := MapOne(st, PdNo(want.upage), PtNo(want.upage), n);
            Agrees(pd', t', m) && m.taken == st.taken + taken
  {
    hide Present, GetPage, Entry, PdeCreate, PgOfs, WellFormed, PdNo, PtNo, MappedNew, Translated;
    NotMapped(pd, t, want.upage);
    if taken > 0 { AgreesMore(pd, t, pd', t', PdNo(want.upage), PtNo(want.upage), w, frame, table, st); }
  }

  /** A process from its first page to its last: whatever it maps, its frames and
      tables are the first `taken` pages of the pool, and its directory's
      destruction frees exactly those, and the directory, each once. */
  method MapAndDestroy(self: Page, basePd: Table, wants: seq<Want>, pool: seq<Page>) returns (taken: nat, freed: seq<Page>)
    requires |basePd| == ENTRIES && forall i | 0 <= i < USER_PDES :: basePd[i] == 0
    requires IsPool(pool, self) && forall k | 0 <= k < |wants| :: ForUser(wants[k])
    ensures taken == MapMany(wants, |wants|, |pool|).taken <= |pool|
    ensures Distinct(freed) && forall x :: x in freed <==> x in pool[..taken] || x == self
  {
    hide Present, GetPage, PgOfs, IsUser, WellFormed, Entry, ForUser, Owns, IsPool, Held, MappedNew, Takes, UserPlace,
         PdNo, PtNo, PteCreateUser, MapOne, Agrees;
    var d := new PageDirectory(self, basePd);
    EmptyDirectory(d.pd, d.tables);
    var k: nat := 0;
    taken := 0;
    assert Taken(pool, 0) == {};
    while k < |wants|
      invariant k <= |wants| && d.Valid() && d.self == self
      invariant taken == MapMany(wants, k, |pool|).taken <= |pool|
      invariant Owns(d.pd, d.tables, Taken(pool, taken)) && Agrees(d.pd, d.tables, MapMany(wants, k, |pool|))
    {
      WantHasPlace(wants[k]);
      ghost var pd, t := d.pd, d.tables;
      var more := Install(d, wants[k], pool, taken);
      InstallAgrees(pd, t, d.pd, d.tables, wants[k], |pool|, more,
                    if more > 0 then PteCreateUser(pool[taken].addr, wants[k].writable) else 0,
                    if more > 0 then pool[taken] else self, if more == 2 then pool[taken + 1]
                    else if more > 0 then pool[taken] else self, MapMany(wants, k, |pool|));
      k, taken := k + 1, taken + more;
    }
    freed := Destroy(d);
    AllFromPool(d.pd, d.tables, self, pool, taken);
  }

  lemma WantHasPlace(w: Want)
    requires ForUser(w)
    ensures UserPlace(w.upage)
  {
    UsersHavePlaces(w.upage);
  }

  lemma EmptyDirectory(pd: Table, t: map<Page, Table>)
    requires WellFormed(pd, t) && t == map[] && forall i | 0 <= i < USER_PDES :: pd[i] == 0
    ensures Owns(pd, t, {}) && Agrees(pd, t, Places({}, {}, 0))
  {
    hide Present, GetPage, WellFormed;
    ZeroIsAbsent();
    forall i, j, x ensures !IsFrame(pd, t, i, j, x) {}
  }

  lemma AllFromPool(pd: Table, t: map<Page, Table>, self: Page, pool: seq<Page>, p: nat)
    requires WellFormed(pd, t) && IsPool(pool, self) && p <= |pool| && Owns(pd, t, Taken(pool, p))
    ensures Distinct(Held(pd, t, USER_PDES) + [self])
    ensures forall x :: x in Held(pd, t, USER_PDES) + [self] <==> x in pool[..p] || x == self
  {
    hide Present, GetPage, WellFormed, Entry, Held, PgOfs, IsUser, IsFrame, IsTable, Unshared;
    assert self !in Taken(pool, p);
    DestroyOnce(pd, t, self);
    var freed := Held(pd, t, USER_PDES) + [self];
    forall x ensures x in freed <==> x in pool[..p] || x == self {
      assert IsHeld(pd, t, x) <==> x in Taken(pool, p);
    }
  }

  function ZeroTable(): (t: Table)
    ensures |t| == ENTRIES && forall l | 0 <= l < ENTRIES :: t[l] == 0
  {
    seq(ENTRIES, _ => 0)
  }
}
