/** Parent and child after fork: two page tables over one memory, and every interleaving of the stores of both
    processes, by the hardware's own walk of the tables. */
module ForkIsolation {
  import opened Common
  import opened PageTable
  import Vm

  /** Two address spaces without a common frame, as copyuvm leaves them. */
  ghost predicate Separate(ps: Pages, pd: nat, d: nat) {
    && Space(ps, pd) && Space(ps, d)
    && forall f: nat :: Owns(ps, d, f) ==> !Owns(ps, pd, f)
  }

  /** A store by the parent or the child of a word at linear address va. */
  datatype Store = Store(child: bool, va: nat, w: Word)

  /** Below KERNBASE, and word by word. */
  predicate UserWord(va: nat) {
    va < 0x8000_0000 && va % 4 == 0
  }

  /** A user process may write at va: both levels of the table allow it. */
  predicate MayWrite(ps: Pages, dir: nat, va: nat)
    requires dir < |ps| && UserWord(va)
  {
    var a := Translate(ps, dir, va);
    a.Access? && a.write && a.user && a.pa / 4096 < |ps|
  }

  /** What the hardware does with a store through directory dir: it faults, and changes nothing, unless the page may be
      written. */
  function Stored(ps: Pages, dir: nat, va: nat, w: Word): (r: Pages)
    requires dir < |ps| && UserWord(va)
    ensures |r| == |ps|
  {
    if MayWrite(ps, dir, va) then
      var pa := Translate(ps, dir, va).pa;
      ps[pa / 4096 := ps[pa / 4096][pa % 4096 / 4 := w]]
    else ps
  }

  function Side(pd: nat, d: nat, child: bool): nat {
    if child then d else pd
  }

  /** Memory after the stores, in the order in which they happened. */
  function After(ps: Pages, pd: nat, d: nat, ws: seq<Store>): (r: Pages)
    requires pd < |ps| && d < |ps| && forall st :: st in ws ==> UserWord(st.va)
    ensures |r| == |ps|
  {
    if ws == [] then ps
    else
      var st := ws[|ws| - 1];
      Stored(After(ps, pd, d, ws[..|ws| - 1]), Side(pd, d, st.child), st.va, st.w)
  }

  /** The last word that one side stored at va, the other side left out. */
  function Latest(ws: seq<Store>, child: bool, va: nat): Option<Word> {
    if ws == [] then None
    else
      var st := ws[|ws| - 1];
      if st.child == child && st.va == va then Some(st.w) else Latest(ws[..|ws| - 1], child, va)
  }

  /** The word a user process gets at va, or None for a fault. */
  function Load(ps: Pages, dir: nat, va: nat): Option<Word>
    requires dir < |ps| && UserWord(va)
  {
    var a := Translate(ps, dir, va);
    if a.Access? && a.user && a.pa / 4096 < |ps| then Some(ps[a.pa / 4096][a.pa % 4096 / 4]) else None
  }

  /** A store changes no table of either side. */
  lemma StoredTables(ps: Pages, pd: nat, d: nat, child: bool, va: nat, w: Word)
    requires Separate(ps, pd, d) && UserWord(va)
    ensures SameTables(ps, Stored(ps, Side(pd, d, child), va, w), pd)
    ensures SameTables(ps, Stored(ps, Side(pd, d, child), va, w), d)
  {
    var dir, v := Side(pd, d, child), va / 4096;
    if MayWrite(ps, dir, va) {
      TranslateFrame(ps, dir, va);
      var f := FrameOf(Pte(ps, dir, v));
      assert Mapped(ps, dir, v) && UserOk(ps, dir, v) && OwnsUser(ps, dir, f) && Owns(ps, dir, f);
      NotTable(ps, dir, v);
      assert !Owns(ps, Side(pd, d, !child), f);
    }
  }

  lemma NotTable(ps: Pages, dir: nat, v: nat)
    requires Space(ps, dir) && v < USERPAGES && Mapped(ps, dir, v)
    ensures FrameOf(Pte(ps, dir, v)) != dir
    ensures forall r :: 0 <= r < NENTRIES && Present(Pde(ps, dir, r)) ==>
      FrameOf(Pde(ps, dir, r)) != FrameOf(Pte(ps, dir, v))
  {
    assert UserOk(ps, dir, v);
    forall r | 0 <= r < NENTRIES && Present(Pde(ps, dir, r))
      ensures FrameOf(Pde(ps, dir, r)) != FrameOf(Pte(ps, dir, v))
    {
      assert UserNotTable(ps, dir, v, r);
    }
  }

  lemma SeparateKept(ps: Pages, ps': Pages, pd: nat, d: nat)
    requires Separate(ps, pd, d) && SameTables(ps, ps', pd) && SameTables(ps, ps', d)
    ensures Separate(ps', pd, d)
  {
    SameSpace(ps, ps', pd);
    SameSpace(ps, ps', d);
    forall f: nat | Owns(ps', d, f)
      ensures !Owns(ps', pd, f)
    {
      SameOwns(ps, ps', d, f);
      SameOwns(ps, ps', pd, f);
    }
  }

  /** Two mapped user pages of the two sides have the same frame only if they are the same page of the same side. */
  lemma FramesDiffer(ps: Pages, pd: nat, d: nat, a: bool, v: nat, b: bool, w: nat)
    requires Separate(ps, pd, d) && v < USERPAGES && w < USERPAGES && (a != b || v != w)
    requires Mapped(ps, Side(pd, d, a), v) && Mapped(ps, Side(pd, d, b), w)
    ensures FrameOf(Pte(ps, Side(pd, d, a), v)) != FrameOf(Pte(ps, Side(pd, d, b), w))
  {
    var x, y := Side(pd, d, a), Side(pd, d, b);
    if a == b {
      assert UsersDiffer(ps, x, v, w);
    } else {
      assert OwnsUser(ps, x, FrameOf(Pte(ps, x, v))) && OwnsUser(ps, y, FrameOf(Pte(ps, y, w)));
      assert Owns(ps, x, FrameOf(Pte(ps, x, v))) && Owns(ps, y, FrameOf(Pte(ps, y, w)));
    }
  }

  /** Two words of the two sides are at one place in memory only if they are the same word of the same side. */
  lemma PlacesDiffer(ps: Pages, pd: nat, d: nat, a: bool, va: nat, b: bool, vb: nat)
    requires Separate(ps, pd, d) && UserWord(va) && UserWord(vb) && (a != b || va != vb)
    requires Translate(ps, Side(pd, d, a), va).Access? && Translate(ps, Side(pd, d, b), vb).Access?
    ensures var x, y := Translate(ps, Side(pd, d, a), va).pa, Translate(ps, Side(pd, d, b), vb).pa;
      x / 4096 != y / 4096 || x % 4096 / 4 != y % 4096 / 4
  {
    TranslateFrame(ps, Side(pd, d, a), va);
    TranslateFrame(ps, Side(pd, d, b), vb);
    if a != b || va / 4096 != vb / 4096 {
      FramesDiffer(ps, pd, d, a, va / 4096, b, vb / 4096);
    } else {
      WordsDiffer(va, vb);
    }
  }

  lemma WordsDiffer(va: nat, vb: nat)
    requires va % 4 == 0 && vb % 4 == 0 && va != vb && va / 4096 == vb / 4096
    ensures va % 4096 / 4 != vb % 4096 / 4
  {
    assert va % 4096 % 4 == 0 && vb % 4096 % 4 == 0;
  }

  /** One store is seen at its own word, by its own side, if the page may be written, and nowhere else. */
  lemma StoredSeen(ps: Pages, pd: nat, d: nat, st: Store, child: bool, va: nat)
    requires Separate(ps, pd, d) && UserWord(st.va) && UserWord(va)
    ensures var ps', dir := Stored(ps, Side(pd, d, st.child), st.va, st.w), Side(pd, d, child);
      && Separate(ps', pd, d) && Translate(ps', dir, va) == Translate(ps, dir, va)
      && Load(ps', dir, va) ==
           if st.child == child && st.va == va && MayWrite(ps, dir, va) then Some(st.w) else Load(ps, dir, va)
  {
    var ps', dir, who := Stored(ps, Side(pd, d, st.child), st.va, st.w), Side(pd, d, child), Side(pd, d, st.child);
    StoredTables(ps, pd, d, st.child, st.va, st.w);
    SeparateKept(ps, ps', pd, d);
    SameTranslate(ps, ps', dir, va);
    if MayWrite(ps, who, st.va) && Translate(ps, dir, va).Access? && (st.child != child || st.va != va) {
      PlacesDiffer(ps, pd, d, st.child, st.va, child, va);
    }
  }

  /** Whatever the two processes store, in whatever order, each keeps its map, the spaces stay apart, and every load
      gets the word that its own side stored there last, or the word that was there at the fork. */
  lemma {:induction false} ForkIsolated(ps: Pages, pd: nat, d: nat, ws: seq<Store>, child: bool, va: nat)
    requires Separate(ps, pd, d) && (forall st :: st in ws ==> UserWord(st.va)) && UserWord(va)
    ensures var ps', dir, last := After(ps, pd, d, ws), Side(pd, d, child), Latest(ws, child, va);
      && Separate(ps', pd, d) && Translate(ps', dir, va) == Translate(ps, dir, va)
      && Load(ps', dir, va) == if last.Some? && MayWrite(ps, dir, va) then last else Load(ps, dir, va)
  {
    if ws != [] {
      var n := |ws| - 1;
      ForkIsolated(ps, pd, d, ws[..n], child, va);
      StoredSeen(After(ps, pd, d, ws[..n]), pd, d, ws[n], child, va);
    }
  }

  /** The child of copyuvm has the parent's words, and may write where the parent may. */
  lemma ForkCopies(ps0: Pages, ps: Pages, pd: nat, d: nat, n: nat, va: nat)
    requires Vm.CopiedTo(ps0, ps, pd, d, n) && va / 4096 < n && UserWord(va)
    requires Space(ps0, pd) && Open(ps0[pd]) && Space(ps, d) && Open(ps[d])
    ensures Load(ps, d, va) == Load(ps0, pd, va) && (MayWrite(ps, d, va) <==> MayWrite(ps0, pd, va))
  {
    var v := va / 4096;
    assert Vm.PageCopied(ps0, ps, pd, d, v);
    TranslateIs(ps, d, va);
    TranslateIs(ps0, pd, va);
    WordParts(Pte(ps, d, v));
    WordParts(Pte(ps0, pd, v));
  }

  /** So it gets, after any stores of the two, its own last word or the parent's at the fork. */
  lemma ChildSees(ps0: Pages, ps: Pages, pd: nat, d: nat, n: nat, ws: seq<Store>, va: nat)
    requires Vm.CopiedTo(ps0, ps, pd, d, n) && va / 4096 < n && UserWord(va) && Separate(ps, pd, d)
    requires Space(ps0, pd) && Open(ps0[pd]) && Open(ps[d]) && forall st :: st in ws ==> UserWord(st.va)
    ensures var last := Latest(ws, true, va);
      Load(After(ps, pd, d, ws), d, va) == if last.Some? && MayWrite(ps0, pd, va) then last else Load(ps0, pd, va)
  {
    ForkCopies(ps0, ps, pd, d, n, va);
    ForkIsolated(ps, pd, d, ws, true, va);
  }
}
