/** Two-level page tables as values: what the words of physical memory say about an address space
    (vm.c, mmu.h). */
module PageTable {

  const NENTRIES := 1024
  const PGSIZE := 4096
  /** Page numbers below KERNBASE. */
  const USERPAGES := 512 * NENTRIES
  const ALLPAGES := NENTRIES * NENTRIES

  type Word = w: int | 0 <= w < 0x1_0000_0000

  /** A 4096-byte page as 1024 words. */
  type Page = p: seq<Word> | |p| == NENTRIES witness seq(NENTRIES, _ => 0)

  /** Physical memory, frame by frame. */
  type Pages = seq<Page>

  function ZeroPage(): Page {
    seq(NENTRIES, _ => 0)
  }

  // ---------- Entries ----------

  predicate Present(w: Word) { w % 2 == 1 }

  function FrameOf(w: Word): nat { w / PGSIZE }

  function FlagsOf(w: Word): nat { w % PGSIZE }

  /** pa | perm | PTE_P for a page-aligned pa. */
  function Entry(f: nat, perm: nat): Word
    requires f < ALLPAGES && perm < PGSIZE
  {
    f * PGSIZE + if perm % 2 == 1 then perm else perm + 1
  }

  /** A word is its frame's address and its flags, and its lowest bit says whether it maps anything. */
  lemma WordParts(w: Word)
    ensures w == 4096 * FrameOf(w) + FlagsOf(w) && FlagsOf(w) < 4096
    ensures Present(w) <==> FlagsOf(w) % 2 == 1
  {
  }

  /** The word maps frame f with the bits of perm above the lowest, which is set. */
  predicate Maps(w: Word, f: nat, perm: nat) {
    w / 4096 == f && w % 2 == 1 && w % 4096 / 2 == perm / 2
  }

  lemma EntryParts(f: nat, perm: nat)
    requires f < ALLPAGES && perm < PGSIZE
    ensures Maps(Entry(f, perm), f, perm) && Present(Entry(f, perm)) && FrameOf(Entry(f, perm)) == f
    ensures FlagsOf(Entry(f, perm)) == if perm % 2 == 1 then perm else perm + 1
  {
    var low := if perm % 2 == 1 then perm else perm + 1;
    assert Entry(f, perm) == 2 * (2048 * f + low / 2) + 1;
    assert f * PGSIZE <= Entry(f, perm) < f * PGSIZE + PGSIZE;
    assert Entry(f, perm) % 4096 == low && low / 2 == perm / 2;
  }

  /** A frame mapped with another entry's flags. */
  lemma EntryWithFlags(f: nat, w: Word)
    requires f < ALLPAGES && Present(w)
    ensures var e := Entry(f, FlagsOf(w)); Present(e) && FrameOf(e) == f && FlagsOf(e) == FlagsOf(w)
  {
    assert FlagsOf(w) % 2 == 1;
    EntryParts(f, FlagsOf(w));
  }

  // ---------- The table of one directory ----------

  function Pde(ps: Pages, pd: nat, r: nat): Word
    requires pd < |ps| && r < NENTRIES
  {
    ps[pd][r]
  }

  /** The word that maps page number v, or 0 when its page table is absent. */
  function Pte(ps: Pages, pd: nat, v: nat): Word
    requires pd < |ps| && v < ALLPAGES
  {
    var e := Pde(ps, pd, v / NENTRIES);
    if Present(e) && FrameOf(e) < |ps| then ps[FrameOf(e)][v % NENTRIES] else 0
  }

  predicate Mapped(ps: Pages, pd: nat, v: nat)
    requires pd < |ps| && v < ALLPAGES
  {
    Present(Pte(ps, pd, v))
  }

  predicate TableOk(ps: Pages, pd: nat, r: nat)
    requires pd < |ps| && r < NENTRIES
  {
    Present(Pde(ps, pd, r)) ==> FrameOf(Pde(ps, pd, r)) < |ps| && FrameOf(Pde(ps, pd, r)) != pd
  }

  predicate TablesDiffer(ps: Pages, pd: nat, r: nat, q: nat)
    requires pd < |ps| && r < NENTRIES && q < NENTRIES
  {
    Present(Pde(ps, pd, r)) && Present(Pde(ps, pd, q)) && r != q ==>
      FrameOf(Pde(ps, pd, r)) != FrameOf(Pde(ps, pd, q))
  }

  predicate UserOk(ps: Pages, pd: nat, v: nat)
    requires pd < |ps| && v < USERPAGES
  {
    Mapped(ps, pd, v) ==> FrameOf(Pte(ps, pd, v)) < |ps| && FrameOf(Pte(ps, pd, v)) != pd
  }

  predicate UserNotTable(ps: Pages, pd: nat, v: nat, r: nat)
    requires pd < |ps| && v < USERPAGES && r < NENTRIES
  {
    Mapped(ps, pd, v) && Present(Pde(ps, pd, r)) ==> FrameOf(Pte(ps, pd, v)) != FrameOf(Pde(ps, pd, r))
  }

  predicate UsersDiffer(ps: Pages, pd: nat, v: nat, w: nat)
    requires pd < |ps| && v < USERPAGES && w < USERPAGES
  {
    Mapped(ps, pd, v) && Mapped(ps, pd, w) && v != w ==> FrameOf(Pte(ps, pd, v)) != FrameOf(Pte(ps, pd, w))
  }

  /** The directory, its page tables and its user pages are all different frames. */
  predicate Space(ps: Pages, pd: nat) {
    && pd < |ps|
    && (forall r {:trigger TableOk(ps, pd, r)} :: 0 <= r < NENTRIES ==> TableOk(ps, pd, r))
    && (forall r, q {:trigger TablesDiffer(ps, pd, r, q)} ::
          0 <= r < NENTRIES && 0 <= q < NENTRIES ==> TablesDiffer(ps, pd, r, q))
    && (forall v {:trigger UserOk(ps, pd, v)} :: 0 <= v < USERPAGES ==> UserOk(ps, pd, v))
    && (forall v, r {:trigger UserNotTable(ps, pd, v, r)} ::
          0 <= v < USERPAGES && 0 <= r < NENTRIES ==> UserNotTable(ps, pd, v, r))
    && (forall v, w {:trigger UsersDiffer(ps, pd, v, w)} ::
          0 <= v < USERPAGES && 0 <= w < USERPAGES ==> UsersDiffer(ps, pd, v, w))
  }

  predicate OwnsTable(ps: Pages, pd: nat, f: nat)
    requires pd < |ps|
  {
    exists r :: 0 <= r < NENTRIES && Present(Pde(ps, pd, r)) && FrameOf(Pde(ps, pd, r)) == f
  }

  predicate OwnsUser(ps: Pages, pd: nat, f: nat)
    requires pd < |ps|
  {
    exists v :: 0 <= v < USERPAGES && Mapped(ps, pd, v) && FrameOf(Pte(ps, pd, v)) == f
  }

  /** The frames that belong to an address space: freevm must return these and no others. */
  predicate Owns(ps: Pages, pd: nat, f: nat)
    requires pd < |ps|
  {
    f == pd || OwnsTable(ps, pd, f) || OwnsUser(ps, pd, f)
  }

  // ---------- What the hardware makes of it ----------

  /** Every page table that a directory names is present for reading and writing by the user. */
  predicate Open(dir: Page) {
    forall r :: 0 <= r < NENTRIES && dir[r] % 2 == 1 ==> dir[r] % 4096 == 7
  }

  /** An access to a byte of memory faults, or goes to a physical address, where it may write, and the user may go, only
      if both levels allow it. */
  datatype Access = Fault | Access(pa: nat, write: bool, user: bool)

  /** The two-level walk on a linear address, in the words of the manual: ten bits, ten bits, twelve bits. */
  function Translate(ps: Pages, dir: nat, va: nat): Access
    requires dir < |ps| && va < 0x1_0000_0000
  {
    var pde := ps[dir][va / 0x40_0000];
    if pde % 2 == 0 || pde / 0x1000 >= |ps| then Fault
    else
      var pte := ps[pde / 0x1000][va / 0x1000 % 0x400];
      if pte % 2 == 0 then Fault
      else
        Access(pte / 0x1000 * 0x1000 + va % 0x1000, pde / 2 % 2 == 1 && pte / 2 % 2 == 1,
               pde / 4 % 2 == 1 && pte / 4 % 2 == 1)
  }

  /** In a space of this kernel the entry of the page decides alone. */
  lemma TranslateIs(ps: Pages, dir: nat, va: nat)
    requires Space(ps, dir) && Open(ps[dir]) && va < 0x1_0000_0000
    ensures var e := Pte(ps, dir, va / 4096);
      Translate(ps, dir, va) ==
        if Present(e) then Access(4096 * FrameOf(e) + va % 4096, FlagsOf(e) / 2 % 2 == 1, FlagsOf(e) / 4 % 2 == 1) else Fault
  {
    var v := va / 4096;
    var r := v / NENTRIES;
    assert r == va / 0x40_0000 && v % NENTRIES == va / 0x1000 % 0x400;
    assert TableOk(ps, dir, r);
    var pde, e := Pde(ps, dir, r), Pte(ps, dir, v);
    assert pde == ps[dir][va / 0x40_0000];
    if Present(pde) {
      FlagBits(pde);
      FlagBits(e);
    }
  }

  /** In any space an access goes to the frame of its page. */
  lemma TranslateFrame(ps: Pages, dir: nat, va: nat)
    requires Space(ps, dir) && va < 0x1_0000_0000
    ensures var a, e := Translate(ps, dir, va), Pte(ps, dir, va / 4096);
      a.Access? ==> Mapped(ps, dir, va / 4096) && a.pa / 4096 == FrameOf(e) && a.pa % 4096 == va % 4096
  {
    var v := va / 4096;
    assert v / NENTRIES == va / 0x40_0000 && v % NENTRIES == va / 0x1000 % 0x400;
    assert TableOk(ps, dir, v / NENTRIES);
    var a := Translate(ps, dir, va);
    if a.Access? {
      assert a.pa == 4096 * FrameOf(Pte(ps, dir, v)) + va % 4096;
    }
  }

  lemma FlagBits(w: Word)
    ensures w / 2 % 2 == w % 4096 / 2 % 2 && w / 4 % 2 == w % 4096 / 4 % 2
  {
    var q, r := w / 4096, w % 4096;
    assert w == 4096 * q + r;
    assert w / 2 == 2 * (1024 * q) + r / 2 && w / 4 == 2 * (512 * q) + r / 4;
    EvenPlus(1024 * q, r / 2);
    EvenPlus(512 * q, r / 4);
  }

  lemma EvenPlus(a: nat, b: nat)
    ensures (2 * a + b) % 2 == b % 2
  {
  }

  // ---------- Memory changed elsewhere ----------

  /** The directory and its page tables are as they were. */
  predicate SameTables(ps: Pages, ps': Pages, pd: nat) {
    && pd < |ps| == |ps'| && ps'[pd] == ps[pd]
    && forall r :: 0 <= r < NENTRIES && Present(Pde(ps, pd, r)) && FrameOf(Pde(ps, pd, r)) < |ps| ==>
         ps'[FrameOf(Pde(ps, pd, r))] == ps[FrameOf(Pde(ps, pd, r))]
  }

  lemma SamePte(ps: Pages, ps': Pages, pd: nat, v: nat)
    requires SameTables(ps, ps', pd) && v < ALLPAGES
    ensures Pte(ps', pd, v) == Pte(ps, pd, v)
  {
  }

  lemma SameTranslate(ps: Pages, ps': Pages, dir: nat, va: nat)
    requires Space(ps, dir) && SameTables(ps, ps', dir) && va < 0x1_0000_0000
    ensures Translate(ps', dir, va) == Translate(ps, dir, va)
  {
    var r := va / 0x40_0000;
    assert TableOk(ps, dir, r);
    assert Pde(ps, dir, r) == ps[dir][r];
  }

  /** A space survives any change to frames other than its directory and tables. */
  lemma SameSpace(ps: Pages, ps': Pages, pd: nat)
    requires Space(ps, pd) && SameTables(ps, ps', pd)
    ensures Space(ps', pd)
  {
    forall r | 0 <= r < NENTRIES ensures TableOk(ps', pd, r) {
      assert TableOk(ps, pd, r);
    }
    forall r, q | 0 <= r < NENTRIES && 0 <= q < NENTRIES ensures TablesDiffer(ps', pd, r, q) {
      assert TablesDiffer(ps, pd, r, q);
    }
    forall v | 0 <= v < USERPAGES ensures UserOk(ps', pd, v) {
      SamePte(ps, ps', pd, v);
      assert UserOk(ps, pd, v);
    }
    forall v, r | 0 <= v < USERPAGES && 0 <= r < NENTRIES ensures UserNotTable(ps', pd, v, r) {
      SamePte(ps, ps', pd, v);
      assert UserNotTable(ps, pd, v, r);
    }
    forall v, w | 0 <= v < USERPAGES && 0 <= w < USERPAGES ensures UsersDiffer(ps', pd, v, w) {
      SamePte(ps, ps', pd, v);
      SamePte(ps, ps', pd, w);
      assert UsersDiffer(ps, pd, v, w);
    }
  }

  lemma SameOwns(ps: Pages, ps': Pages, pd: nat, f: nat)
    requires SameTables(ps, ps', pd)
    ensures Owns(ps', pd, f) == Owns(ps, pd, f)
  {
    if r :| 0 <= r < NENTRIES && Present(Pde(ps, pd, r)) && FrameOf(Pde(ps, pd, r)) == f {
      assert Pde(ps', pd, r) == Pde(ps, pd, r);
    }
    if r :| 0 <= r < NENTRIES && Present(Pde(ps', pd, r)) && FrameOf(Pde(ps', pd, r)) == f {
      assert Pde(ps', pd, r) == Pde(ps, pd, r);
    }
    if v :| 0 <= v < USERPAGES && Mapped(ps, pd, v) && FrameOf(Pte(ps, pd, v)) == f {
      SamePte(ps, ps', pd, v);
    }
    if v :| 0 <= v < USERPAGES && Mapped(ps', pd, v) && FrameOf(Pte(ps', pd, v)) == f {
      SamePte(ps, ps', pd, v);
    }
  }

  // ---------- The three updates of vm.c ----------

  predicate HasTable(ps: Pages, pd: nat, v: nat)
    requires pd < |ps| && v < ALLPAGES
  {
    Present(Pde(ps, pd, v / NENTRIES))
  }

  /** *pte = w, for the entry of page number v. */
  function PutPte(ps: Pages, pd: nat, v: nat, w: Word): Pages
    requires Space(ps, pd) && v < ALLPAGES && HasTable(ps, pd, v)
  {
    assert TableOk(ps, pd, v / NENTRIES);
    var t := FrameOf(Pde(ps, pd, v / NENTRIES));
    ps[t := ps[t][v % NENTRIES := w]]
  }

  lemma PutPdes(ps: Pages, pd: nat, v: nat, w: Word, r: nat)
    requires Space(ps, pd) && v < ALLPAGES && HasTable(ps, pd, v) && r < NENTRIES
    ensures |PutPte(ps, pd, v, w)| == |ps| && Pde(PutPte(ps, pd, v, w), pd, r) == Pde(ps, pd, r)
  {
    assert TableOk(ps, pd, v / NENTRIES);
  }

  /** Storing one entry changes the mapping of that page number only. */
  lemma PutPtes(ps: Pages, pd: nat, v: nat, w: Word, x: nat)
    requires Space(ps, pd) && v < ALLPAGES && HasTable(ps, pd, v) && x < ALLPAGES
    ensures |PutPte(ps, pd, v, w)| == |ps|
    ensures Pte(PutPte(ps, pd, v, w), pd, x) == if x == v then w else Pte(ps, pd, x)
  {
    var r, q := v / NENTRIES, x / NENTRIES;
    PutPdes(ps, pd, v, w, q);
    assert TableOk(ps, pd, r) && TableOk(ps, pd, q) && TablesDiffer(ps, pd, r, q);
    assert v == r * NENTRIES + v % NENTRIES && x == q * NENTRIES + x % NENTRIES;
  }

  /** A frame that may be mapped at a user page number: it belongs to nothing in this space. */
  predicate Fresh(ps: Pages, pd: nat, f: nat)
    requires pd < |ps|
  {
    f < |ps| && !Owns(ps, pd, f)
  }

  /** Clearing an entry, or mapping a fresh frame at an unmapped one, keeps the space well formed. */
  lemma PutKeepsSpace(ps: Pages, pd: nat, v: nat, w: Word)
    requires Space(ps, pd) && v < ALLPAGES && HasTable(ps, pd, v)
    requires v < USERPAGES && Present(w) ==> Fresh(ps, pd, FrameOf(w))
    ensures Space(PutPte(ps, pd, v, w), pd)
  {
    var ps' := PutPte(ps, pd, v, w);
    PutPdes(ps, pd, v, w, 0);
    forall r | 0 <= r < NENTRIES ensures TableOk(ps', pd, r) {
      PutPdes(ps, pd, v, w, r);
      assert TableOk(ps, pd, r);
    }
    forall r, q | 0 <= r < NENTRIES && 0 <= q < NENTRIES ensures TablesDiffer(ps', pd, r, q) {
      PutPdes(ps, pd, v, w, r);
      PutPdes(ps, pd, v, w, q);
      assert TablesDiffer(ps, pd, r, q);
    }
    forall x | 0 <= x < USERPAGES ensures UserOk(ps', pd, x) {
      PutPtes(ps, pd, v, w, x);
      assert UserOk(ps, pd, x);
    }
    forall x, r | 0 <= x < USERPAGES && 0 <= r < NENTRIES ensures UserNotTable(ps', pd, x, r) {
      PutPtes(ps, pd, v, w, x);
      PutPdes(ps, pd, v, w, r);
      assert UserNotTable(ps, pd, x, r);
    }
    forall x, y | 0 <= x < USERPAGES && 0 <= y < USERPAGES ensures UsersDiffer(ps', pd, x, y) {
      PutPtes(ps, pd, v, w, x);
      PutPtes(ps, pd, v, w, y);
      assert UsersDiffer(ps, pd, x, y);
    }
  }

  /** Clearing the entry of a mapped user page gives up exactly its frame. */
  lemma ClearOwns(ps: Pages, pd: nat, v: nat, g: nat)
    requires Space(ps, pd) && v < USERPAGES && Mapped(ps, pd, v)
    ensures Owns(PutPte(ps, pd, v, 0), pd, g) <==> Owns(ps, pd, g) && g != FrameOf(Pte(ps, pd, v))
  {
    var ps', f := PutPte(ps, pd, v, 0), FrameOf(Pte(ps, pd, v));
    PutPdes(ps, pd, v, 0, 0);
    assert UserOk(ps, pd, v);
    if OwnsTable(ps', pd, g) {
      var r :| 0 <= r < NENTRIES && Present(Pde(ps', pd, r)) && FrameOf(Pde(ps', pd, r)) == g;
      PutPdes(ps, pd, v, 0, r);
      assert UserNotTable(ps, pd, v, r) && OwnsTable(ps, pd, g);
    }
    if OwnsTable(ps, pd, g) {
      var r :| 0 <= r < NENTRIES && Present(Pde(ps, pd, r)) && FrameOf(Pde(ps, pd, r)) == g;
      PutPdes(ps, pd, v, 0, r);
      assert OwnsTable(ps', pd, g);
    }
    if OwnsUser(ps', pd, g) {
      var x :| 0 <= x < USERPAGES && Mapped(ps', pd, x) && FrameOf(Pte(ps', pd, x)) == g;
      PutPtes(ps, pd, v, 0, x);
      assert UsersDiffer(ps, pd, v, x) && OwnsUser(ps, pd, g);
    }
    if OwnsUser(ps, pd, g) && g != f {
      var x :| 0 <= x < USERPAGES && Mapped(ps, pd, x) && FrameOf(Pte(ps, pd, x)) == g;
      PutPtes(ps, pd, v, 0, x);
      assert OwnsUser(ps', pd, g);
    }
  }

  /** Installing a zeroed page table. */
  function AddTable(ps: Pages, pd: nat, r: nat, t: nat): Pages
    requires pd < |ps| && t < |ps| && t < ALLPAGES && r < NENTRIES
  {
    ps[t := ZeroPage()][pd := ps[pd][r := t * PGSIZE + 7]]
  }

  lemma AddTablePdes(ps: Pages, pd: nat, r: nat, t: nat, q: nat)
    requires pd < |ps| && t < |ps| && t < ALLPAGES && r < NENTRIES && q < NENTRIES && t != pd
    ensures |AddTable(ps, pd, r, t)| == |ps|
    ensures q != r ==> Pde(AddTable(ps, pd, r, t), pd, q) == Pde(ps, pd, q)
    ensures var e := Pde(AddTable(ps, pd, r, t), pd, r); Present(e) && FrameOf(e) == t
  {
  }

  /** A new page table maps nothing: every page number maps as before. */
  lemma AddTablePtes(ps: Pages, pd: nat, r: nat, t: nat, x: nat)
    requires Space(ps, pd) && Fresh(ps, pd, t) && t < ALLPAGES && r < NENTRIES && x < ALLPAGES
    requires !Present(Pde(ps, pd, r))
    ensures |AddTable(ps, pd, r, t)| == |ps| && Pte(AddTable(ps, pd, r, t), pd, x) == Pte(ps, pd, x)
  {
    var q := x / NENTRIES;
    AddTablePdes(ps, pd, r, t, q);
    assert TableOk(ps, pd, q);
    if q != r && Present(Pde(ps, pd, q)) {
      assert FrameOf(Pde(ps, pd, q)) != t;
    }
  }

  lemma AddTableKeepsSpace(ps: Pages, pd: nat, r: nat, t: nat)
    requires Space(ps, pd) && Fresh(ps, pd, t) && t < ALLPAGES && r < NENTRIES && !Present(Pde(ps, pd, r))
    ensures Space(AddTable(ps, pd, r, t), pd)
  {
    var ps' := AddTable(ps, pd, r, t);
    AddTablePdes(ps, pd, r, t, r);
    forall q | 0 <= q < NENTRIES ensures TableOk(ps', pd, q) {
      AddTablePdes(ps, pd, r, t, q);
      assert TableOk(ps, pd, q);
    }
    forall p, q | 0 <= p < NENTRIES && 0 <= q < NENTRIES ensures TablesDiffer(ps', pd, p, q) {
      AddTablePdes(ps, pd, r, t, p);
      AddTablePdes(ps, pd, r, t, q);
      assert TablesDiffer(ps, pd, p, q);
    }
    forall x | 0 <= x < USERPAGES ensures UserOk(ps', pd, x) {
      AddTablePtes(ps, pd, r, t, x);
      assert UserOk(ps, pd, x);
    }
    forall x, q | 0 <= x < USERPAGES && 0 <= q < NENTRIES ensures UserNotTable(ps', pd, x, q) {
      AddTablePtes(ps, pd, r, t, x);
      AddTablePdes(ps, pd, r, t, q);
      assert UserNotTable(ps, pd, x, q);
    }
    forall x, y | 0 <= x < USERPAGES && 0 <= y < USERPAGES ensures UsersDiffer(ps', pd, x, y) {
      AddTablePtes(ps, pd, r, t, x);
      AddTablePtes(ps, pd, r, t, y);
      assert UsersDiffer(ps, pd, x, y);
    }
  }

  /** Mapping a frame at an unmapped user page adds exactly that frame; a kernel mapping adds none. */
  lemma MapOwns(ps: Pages, pd: nat, v: nat, f: nat, perm: nat, g: nat)
    requires Space(ps, pd) && v < ALLPAGES && HasTable(ps, pd, v) && f < ALLPAGES && perm < PGSIZE
    requires !Mapped(ps, pd, v)
    ensures |PutPte(ps, pd, v, Entry(f, perm))| == |ps|
    ensures Owns(PutPte(ps, pd, v, Entry(f, perm)), pd, g) <==> Owns(ps, pd, g) || (v < USERPAGES && g == f)
  {
    var w := Entry(f, perm);
    var ps' := PutPte(ps, pd, v, w);
    EntryParts(f, perm);
    PutPdes(ps, pd, v, w, 0);
    if r :| 0 <= r < NENTRIES && Present(Pde(ps', pd, r)) && FrameOf(Pde(ps', pd, r)) == g {
      PutPdes(ps, pd, v, w, r);
      assert OwnsTable(ps, pd, g);
    }
    if r :| 0 <= r < NENTRIES && Present(Pde(ps, pd, r)) && FrameOf(Pde(ps, pd, r)) == g {
      PutPdes(ps, pd, v, w, r);
      assert OwnsTable(ps', pd, g);
    }
    if x :| 0 <= x < USERPAGES && Mapped(ps', pd, x) && FrameOf(Pte(ps', pd, x)) == g {
      PutPtes(ps, pd, v, w, x);
      assert x != v ==> OwnsUser(ps, pd, g);
    }
    if x :| 0 <= x < USERPAGES && Mapped(ps, pd, x) && FrameOf(Pte(ps, pd, x)) == g {
      PutPtes(ps, pd, v, w, x);
      assert OwnsUser(ps', pd, g);
    }
    if v < USERPAGES && g == f {
      PutPtes(ps, pd, v, w, v);
      assert OwnsUser(ps', pd, g);
    }
  }

  lemma AddTableOwns(ps: Pages, pd: nat, r: nat, t: nat, g: nat)
    requires Space(ps, pd) && Fresh(ps, pd, t) && t < ALLPAGES && r < NENTRIES && !Present(Pde(ps, pd, r))
    ensures |AddTable(ps, pd, r, t)| == |ps|
    ensures Owns(AddTable(ps, pd, r, t), pd, g) <==> Owns(ps, pd, g) || g == t
  {
    var ps' := AddTable(ps, pd, r, t);
    AddTablePdes(ps, pd, r, t, r);
    if q :| 0 <= q < NENTRIES && Present(Pde(ps', pd, q)) && FrameOf(Pde(ps', pd, q)) == g {
      AddTablePdes(ps, pd, r, t, q);
      assert q != r ==> OwnsTable(ps, pd, g);
    }
    if q :| 0 <= q < NENTRIES && Present(Pde(ps, pd, q)) && FrameOf(Pde(ps, pd, q)) == g {
      AddTablePdes(ps, pd, r, t, q);
      assert OwnsTable(ps', pd, g);
    }
    if x :| 0 <= x < USERPAGES && Mapped(ps', pd, x) && FrameOf(Pte(ps', pd, x)) == g {
      AddTablePtes(ps, pd, r, t, x);
      assert OwnsUser(ps, pd, g);
    }
    if x :| 0 <= x < USERPAGES && Mapped(ps, pd, x) && FrameOf(Pte(ps, pd, x)) == g {
      AddTablePtes(ps, pd, r, t, x);
      assert OwnsUser(ps', pd, g);
    }
    if g == t {
      assert OwnsTable(ps', pd, g);
    }
  }

  /** A zeroed directory maps nothing and owns only itself. */
  lemma ZeroSpace(ps: Pages, pd: nat, f: nat)
    requires pd < |ps| && ps[pd] == ZeroPage()
    ensures Space(ps, pd) && (Owns(ps, pd, f) <==> f == pd)
    ensures forall v :: 0 <= v < ALLPAGES ==> Pte(ps, pd, v) == 0
  {
    assert forall r :: 0 <= r < NENTRIES ==> Pde(ps, pd, r) == 0;
  }

  /** The frame mapped at user page v keeps its contents. */
  predicate KeptAt(ps: Pages, ps': Pages, d: nat, v: nat)
    requires d < |ps| == |ps'| && v < USERPAGES
  {
    Mapped(ps, d, v) && FrameOf(Pte(ps, d, v)) < |ps| ==> ps'[FrameOf(Pte(ps, d, v))] == ps[FrameOf(Pte(ps, d, v))]
  }

  /** So do all user pages of d. */
  predicate UserKept(ps: Pages, ps': Pages, d: nat) {
    d < |ps| == |ps'| && forall v {:trigger KeptAt(ps, ps', d, v)} :: 0 <= v < USERPAGES ==> KeptAt(ps, ps', d, v)
  }

  /** Stores into the directory or a page table leave the user pages alone. */
  lemma PutKeepsUser(ps: Pages, d: nat, v: nat, w: Word)
    requires Space(ps, d) && v < ALLPAGES && HasTable(ps, d, v)
    ensures UserKept(ps, PutPte(ps, d, v, w), d)
  {
    var ps' := PutPte(ps, d, v, w);
    PutPdes(ps, d, v, w, 0);
    forall x | 0 <= x < USERPAGES ensures KeptAt(ps, ps', d, x) {
      assert UserNotTable(ps, d, x, v / NENTRIES);
    }
  }

  lemma AddTableKeepsUser(ps: Pages, d: nat, r: nat, t: nat)
    requires Space(ps, d) && Fresh(ps, d, t) && t < ALLPAGES && r < NENTRIES
    ensures UserKept(ps, AddTable(ps, d, r, t), d)
  {
    var ps' := AddTable(ps, d, r, t);
    forall x | 0 <= x < USERPAGES ensures KeptAt(ps, ps', d, x) {
      assert UserOk(ps, d, x);
    }
  }

  // ---------- deallocuvm's walk ----------

  function PageUp(sz: nat): nat { (sz + PGSIZE - 1) / PGSIZE }

  /** The number of pages that hold sz bytes: enough, and no more. */
  lemma PageUpIs(sz: nat)
    ensures 4096 * PageUp(sz) >= sz && (PageUp(sz) > 0 ==> 4096 * (PageUp(sz) - 1) < sz)
  {
  }

  /** The walk from page number v0 passes over x: it started inside a 4 MB region without a page table,
      stepped 4 MB at a time over regions without one, and entered x's region beyond x. */
  predicate Skipped(ps: Pages, pd: nat, v0: nat, x: nat)
    requires pd < |ps| && x < ALLPAGES
  {
    && v0 / NENTRIES < x / NENTRIES && x % NENTRIES < v0 % NENTRIES
    && forall q :: v0 / NENTRIES <= q < x / NENTRIES ==> !Present(Pde(ps, pd, q))
  }

  /** The pages the walk frees. */
  predicate Reached(ps: Pages, pd: nat, v0: nat, x: nat)
    requires pd < |ps|
  {
    v0 <= x < USERPAGES && Mapped(ps, pd, x) && !Skipped(ps, pd, v0, x)
  }

  /** From a 4 MB boundary nothing is passed over. */
  lemma NoSkipFromBoundary(ps: Pages, pd: nat, v0: nat, x: nat)
    requires pd < |ps| && x < ALLPAGES && v0 % NENTRIES == 0
    ensures !Skipped(ps, pd, v0, x)
  {
  }

  /** Nor from a mapped page. */
  lemma NoSkipFromMapped(ps: Pages, pd: nat, v0: nat, x: nat)
    requires pd < |ps| && v0 <= x < ALLPAGES && Mapped(ps, pd, v0)
    ensures !Skipped(ps, pd, v0, x)
  {
    assert Present(Pde(ps, pd, v0 / NENTRIES));
  }

  /** When the mapped user pages are exactly those below a size, no mapped page is passed over from any start:
      the walk then reaches all of them. */
  lemma NoSkipWhenContiguous(ps: Pages, pd: nat, n: nat, v0: nat, x: nat)
    requires pd < |ps| && n <= USERPAGES && forall v :: 0 <= v < USERPAGES ==> (Mapped(ps, pd, v) <==> v < n)
    requires x < USERPAGES
    ensures Reached(ps, pd, v0, x) <==> v0 <= x < n
  {
    if v0 <= x < n {
      NoSkipFromMapped(ps, pd, v0, x);
    }
  }

  /** In general a mapped page can be missed: one page mapped at 4 MB, nothing below it, and a walk that
      starts at page number 1. */
  lemma SkipCanMiss() returns (ps: Pages, pd: nat, v0: nat, x: nat)
    ensures Space(ps, pd) && v0 <= x < USERPAGES && Mapped(ps, pd, x) && Skipped(ps, pd, v0, x)
  {
    pd, v0, x := 0, 1, NENTRIES;
    ps := [ZeroPage()[1 := PGSIZE + 7], ZeroPage()[0 := 2 * PGSIZE + 7], ZeroPage()];
    forall r | 0 <= r < NENTRIES && r != 1 ensures Pde(ps, pd, r) == 0 {
    }
    assert Pde(ps, pd, 1) == PGSIZE + 7 && FrameOf(PGSIZE + 7) == 1;
    forall v | 0 <= v < ALLPAGES ensures Pte(ps, pd, v) == if v == NENTRIES then 2 * PGSIZE + 7 else 0 {
    }
    assert FrameOf(2 * PGSIZE + 7) == 2;
  }

  function Frames(ps: Pages, pd: nat, vs: seq<nat>): (r: seq<nat>)
    requires pd < |ps| && forall v :: v in vs ==> v < ALLPAGES
    ensures |r| == |vs|
  {
    seq(|vs|, i requires 0 <= i < |vs| => assert vs[i] in vs; FrameOf(Pte(ps, pd, vs[i])))
  }

  /** Where the walk stands at page number v.  Before it has met a page table it is as far into a region
      as it started; afterwards it enters regions at their beginning. */
  predicate WalkAt(ps: Pages, pd: nat, v0: nat, v: nat, seen: bool)
    requires pd < |ps|
  {
    if !seen then
      && v % NENTRIES == v0 % NENTRIES && v0 <= v
      && forall q :: v0 / NENTRIES <= q < v / NENTRIES && q < NENTRIES ==> !Present(Pde(ps, pd, q))
    else
      && v0 < v
      && (v % NENTRIES != 0 && v < ALLPAGES ==> Present(Pde(ps, pd, v / NENTRIES)))
      && exists q :: v0 / NENTRIES <= q <= (v - 1) / NENTRIES && q < NENTRIES && Present(Pde(ps, pd, q))
           && (v / NENTRIES == q ==> v % NENTRIES >= v0 % NENTRIES)
  }

  /** What the walk finds at v has not been passed over. */
  lemma WalkHits(ps: Pages, pd: nat, v0: nat, v: nat, seen: bool)
    requires pd < |ps| && WalkAt(ps, pd, v0, v, seen) && v < ALLPAGES && Present(Pde(ps, pd, v / NENTRIES))
    ensures !Skipped(ps, pd, v0, v) && WalkAt(ps, pd, v0, v + 1, true)
  {
    if seen {
      var q :| v0 / NENTRIES <= q <= (v - 1) / NENTRIES && q < NENTRIES && Present(Pde(ps, pd, q))
        && (v / NENTRIES == q ==> v % NENTRIES >= v0 % NENTRIES);
      assert v0 / NENTRIES <= q <= v / NENTRIES;
    } else {
      assert v0 / NENTRIES <= v / NENTRIES;
    }
  }

  /** What the walk jumps over at v is unmapped or passed over. */
  lemma WalkJumps(ps: Pages, pd: nat, v0: nat, v: nat, seen: bool, x: nat)
    requires pd < |ps| && WalkAt(ps, pd, v0, v, seen) && v < ALLPAGES && !Present(Pde(ps, pd, v / NENTRIES))
    requires v <= x < v + NENTRIES && x < USERPAGES
    ensures !Reached(ps, pd, v0, x)
  {
  }

  lemma WalkJumpKeeps(ps: Pages, pd: nat, v0: nat, v: nat, seen: bool)
    requires pd < |ps| && WalkAt(ps, pd, v0, v, seen) && v < ALLPAGES && !Present(Pde(ps, pd, v / NENTRIES))
    ensures WalkAt(ps, pd, v0, v + NENTRIES, seen)
  {
    assert (v + NENTRIES) / NENTRIES == v / NENTRIES + 1;
  }
}
