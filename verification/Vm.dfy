/** kalloc.c and vm.c on physical memory: the page free list, and the loops that unmap, free and
    copy address spaces. */
module Vm {
  import opened Common
  import opened PageTable

  const KERNBASE := 0x8000_0000
  const JUNK: Word := 0x0101_0101

  /** The free pages, each holding in its first word the address of the next (0 ends the list). */
  predicate Chain(ps: Pages, head: Word, free: seq<nat>)
    decreases |free|
  {
    if free == [] then head == 0
    else free[0] < |ps| && head == free[0] * PGSIZE && Chain(ps, ps[free[0]][0], free[1..])
  }

  lemma {:induction false} ChainElsewhere(ps: Pages, ps': Pages, head: Word, free: seq<nat>)
    requires Chain(ps, head, free) && |ps'| == |ps|
    requires forall f :: f in free ==> f < |ps| && ps'[f] == ps[f]
    ensures Chain(ps', head, free)
    decreases |free|
  {
    if free != [] {
      assert free[0] in free;
      forall f | f in free[1..] ensures f < |ps| && ps'[f] == ps[f] {
        assert f in free;
      }
      ChainElsewhere(ps, ps', ps[free[0]][0], free[1..]);
    }
  }

  lemma PageFits(f: nat, vend: nat, b: nat)
    requires b == vend / PGSIZE
    ensures f * PGSIZE + PGSIZE <= vend <==> f < b
  {
  }

  /** b - 1 down to a. */
  function Descending(a: nat, b: nat): (s: seq<nat>)
    ensures forall f: nat :: f in s <==> a <= f < b
    decreases b
  {
    if b <= a then [] else [b - 1] + Descending(a, b - 1)
  }

  lemma DescendingOn(a: nat, f: nat, rest: seq<nat>)
    requires a <= f
    ensures [f] + (Descending(a, f) + rest) == Descending(a, f + 1) + rest
  {
  }

  lemma DescendingNone(a: nat, b: nat, f: nat)
    requires a <= f && b <= f && (a < f ==> f <= b)
    ensures Descending(a, f) == Descending(a, b)
  {
  }

  class Memory {
    /** The first frame after the kernel image. */
    const lo: nat
    var pages: Pages
    var freelist: Word
    ghost var free: seq<nat>
    /** Every frame ever passed to kfree. */
    ghost var freed: seq<nat>

    ghost predicate Valid()
      reads this
    {
      && 1 <= lo && |pages| <= ALLPAGES
      && Chain(pages, freelist, free) && NoDup(free)
      && forall f :: f in free ==> lo <= f < |pages|
    }

    /** Memory before kinit1: nothing is free yet. */
    constructor (lo: nat, pages: Pages)
      requires 1 <= lo && |pages| <= ALLPAGES
      ensures Valid() && this.lo == lo && this.pages == pages && free == [] && freed == []
    {
      this.lo, this.pages, freelist := lo, pages, 0;
      free, freed := [], [];
    }

    /** freerange: every whole page from vstart to vend goes on the free list, the last one first. */
    method FreeRange(vstart: nat, vend: nat, ghost a: nat, ghost b: nat)
      requires Valid() && a == PageUp(vstart) && b == vend / PGSIZE && lo <= a && b <= |pages|
      requires forall f :: a <= f < b ==> f !in free
      modifies this`pages, this`freelist, this`free, this`freed
      ensures Valid() && |pages| == |old(pages)| && free == Descending(a, b) + old(free)
      ensures forall g :: 0 <= g < |pages| && !(a <= g < b) ==> pages[g] == old(pages)[g]
    {
      var f := PageUp(vstart);
      PageFits(f, vend, b);
      while f * PGSIZE + PGSIZE <= vend
        invariant a <= f && (a < f ==> f <= b) && (f * PGSIZE + PGSIZE <= vend <==> f < b)
        invariant Valid() && |pages| == |old(pages)| && free == Descending(a, f) + old(free)
        invariant forall g :: 0 <= g < |pages| && !(a <= g < f) ==> pages[g] == old(pages)[g]
        decreases b - f
      {
        KFree(f);
        DescendingOn(a, f, old(free));
        f := f + 1;
        PageFits(f, vend, b);
      }
      DescendingNone(a, b, f);
    }

    /** kfree: the page is filled with junk and heads the free list.  Its panic demands a page of
        allocatable memory. */
    method KFree(f: nat)
      requires Valid() && lo <= f < |pages| && f !in free
      modifies this`pages, this`freelist, this`free, this`freed
      ensures Valid() && free == [f] + old(free) && freed == old(freed) + [f]
      ensures |pages| == |old(pages)| && forall g :: 0 <= g < |pages| && g != f ==> pages[g] == old(pages)[g]
      ensures pages[f][0] == old(freelist) && forall w :: 1 <= w < 1024 ==> pages[f][w] == 0x0101_0101
    {
      ghost var ps := pages;
      var page: Page := seq(NENTRIES, _ => JUNK);
      page := page[0 := freelist];
      pages := pages[f := page];
      ChainElsewhere(ps, pages, freelist, free);
      freelist := f * PGSIZE;
      free, freed := [f] + free, freed + [f];
      assert free[1..] == old(free);
    }

    /** kalloc: the head of the free list, or 0. */
    method KAlloc() returns (f: nat)
      requires Valid()
      modifies this`freelist, this`free
      ensures Valid()
      ensures f == 0 <==> old(free) == []
      ensures f == 0 ==> free == old(free)
      ensures f != 0 ==> old(free) == [f] + free && lo <= f < |pages|
    {
      var r := freelist;
      assert free != [] ==> free[0] in free;
      f := r / PGSIZE;
      if r != 0 {
        assert forall g :: g in free[1..] ==> g in free;
        freelist := pages[f][0];
        free := free[1..];
      }
    }

    /** The frames of a space are allocatable and none of them is free. */
    ghost predicate Apart(pd: nat)
      requires pd < |pages|
      reads this
    {
      forall f :: Owns(pages, pd, f) ==> lo <= f && f !in free
    }

    /** deallocuvm's treatment of a mapped page: return its frame, then clear its entry. */
    method FreePage(pd: nat, v: nat)
      requires Valid() && Space(pages, pd) && v < USERPAGES && Mapped(pages, pd, v) && Apart(pd)
      modifies this`pages, this`freelist, this`free, this`freed
      ensures Valid() && |pages| == |old(pages)| && Space(pages, pd) && Apart(pd)
      ensures var f := FrameOf(Pte(old(pages), pd, v)); free == [f] + old(free) && freed == old(freed) + [f]
      ensures forall x :: 0 <= x < ALLPAGES ==>
        Pte(pages, pd, x) == if x == v then 0 else Pte(old(pages), pd, x)
      ensures pages[pd] == old(pages)[pd]
      ensures forall g :: 0 <= g < |pages| && !Owns(old(pages), pd, g) ==> pages[g] == old(pages)[g]
      ensures forall g :: Owns(pages, pd, g) ==> Owns(old(pages), pd, g)
    {
      ghost var ps := pages;
      assert UserOk(ps, pd, v) && TableOk(ps, pd, v / NENTRIES);
      var t := FrameOf(pages[pd][v / NENTRIES]);
      var f := FrameOf(pages[t][v % NENTRIES]);
      assert Owns(ps, pd, f) by { assert OwnsUser(ps, pd, f); }
      KFree(f);
      forall r | 0 <= r < NENTRIES && Present(Pde(ps, pd, r)) ensures FrameOf(Pde(ps, pd, r)) != f {
        assert UserNotTable(ps, pd, v, r);
      }
      ghost var mid := pages;
      assert SameTables(ps, mid, pd);
      SameSpace(ps, mid, pd);
      SamePte(ps, mid, pd, v);
      assert HasTable(mid, pd, v);
      pages := pages[t := pages[t][v % NENTRIES := 0]];
      assert pages == PutPte(mid, pd, v, 0);
      PutKeepsSpace(mid, pd, v, 0);
      forall x | 0 <= x < ALLPAGES ensures Pte(pages, pd, x) == if x == v then 0 else Pte(ps, pd, x) {
        PutPtes(mid, pd, v, 0, x);
        SamePte(ps, mid, pd, x);
      }
      forall g | Owns(pages, pd, g) ensures lo <= g && g !in free && Owns(ps, pd, g) {
        ClearOwns(mid, pd, v, g);
        SameOwns(ps, mid, pd, g);
      }
      assert OwnsTable(ps, pd, t) && Owns(ps, pd, t);
      ChainElsewhere(mid, pages, freelist, free);
    }

    /** What the walk has done between page numbers v0 and v, relative to the tables ps it started from:
        vs lists the pages freed, in order. */
    ghost predicate Unmapped(ps: Pages, pd: nat, v0: nat, v: nat, vs: seq<nat>)
      reads this
    {
      && pd < |ps| == |pages|
      && (forall x: nat :: x in vs <==> x < v && Reached(ps, pd, v0, x))
      && (forall i, j :: 0 <= i < j < |vs| ==> vs[i] < vs[j])
      && (forall x :: 0 <= x < ALLPAGES ==> Pte(pages, pd, x) == if x in vs then 0 else Pte(ps, pd, x))
      && pages[pd] == ps[pd]
    }

    /** The frames of vs, and no others, have gone back to the free list. */
    ghost predicate Returned(ps: Pages, free0: seq<nat>, freed0: seq<nat>, pd: nat, vs: seq<nat>)
      requires pd < |ps| && forall x :: x in vs ==> x < ALLPAGES
      reads this
    {
      && freed == freed0 + Frames(ps, pd, vs)
      && forall f :: f in free <==> f in free0 || f in Frames(ps, pd, vs)
    }

    ghost predicate Walking(ps: Pages, free0: seq<nat>, freed0: seq<nat>, pd: nat, v0: nat, v: nat, vs: seq<nat>)
      reads this
    {
      && Valid() && |pages| == |ps| && Space(pages, pd) && Apart(pd)
      && Unmapped(ps, pd, v0, v, vs) && Returned(ps, free0, freed0, pd, vs) && Elsewhere(ps, pd)
    }

    /** Frames outside the space are as they were, and the space has gained none. */
    ghost predicate Elsewhere(ps: Pages, pd: nat)
      requires pd < |ps| == |pages|
      reads this
    {
      && (forall g :: 0 <= g < |ps| && !Owns(ps, pd, g) ==> pages[g] == ps[g])
      && (forall g :: Owns(pages, pd, g) ==> Owns(ps, pd, g))
    }

    /** deallocuvm at a page number whose page table is present. */
    method Visit(pd: nat, v: nat, ghost ps: Pages, ghost free0: seq<nat>, ghost freed0: seq<nat>, ghost v0: nat,
                 ghost vs: seq<nat>)
      returns (ghost vs': seq<nat>)
      requires Walking(ps, free0, freed0, pd, v0, v, vs) && v0 <= v < USERPAGES
      requires Present(Pde(ps, pd, v / NENTRIES)) && !Skipped(ps, pd, v0, v)
      modifies this`pages, this`freelist, this`free, this`freed
      ensures Walking(ps, free0, freed0, pd, v0, v + 1, vs') && (vs' == vs || vs' == vs + [v])
    {
      assert v !in vs && Pte(pages, pd, v) == Pte(ps, pd, v);
      assert TableOk(pages, pd, v / NENTRIES);
      var pte := pages[FrameOf(pages[pd][v / NENTRIES])][v % NENTRIES];
      if Present(pte) {
        assert forall i :: 0 <= i < |vs| ==> vs[i] in vs && vs[i] < v;
        FreePage(pd, v);
        vs' := vs + [v];
        assert Frames(ps, pd, vs') == Frames(ps, pd, vs) + [FrameOf(Pte(ps, pd, v))];
      } else {
        vs' := vs;
      }
    }

    lemma Jump(pd: nat, v: nat, ps: Pages, free0: seq<nat>, freed0: seq<nat>, v0: nat, vs: seq<nat>, seen: bool)
      requires Walking(ps, free0, freed0, pd, v0, v, vs) && WalkAt(ps, pd, v0, v, seen) && v < USERPAGES
      requires !Present(Pde(ps, pd, v / NENTRIES))
      ensures Walking(ps, free0, freed0, pd, v0, v + NENTRIES, vs) && WalkAt(ps, pd, v0, v + NENTRIES, seen)
    {
      forall x | v <= x < v + NENTRIES && x < USERPAGES ensures !Reached(ps, pd, v0, x) {
        WalkJumps(ps, pd, v0, v, seen, x);
      }
      WalkJumpKeeps(ps, pd, v0, v, seen);
    }

    /** One turn of deallocuvm's loop at page number v. */
    method WalkStep(pd: nat, v: nat, ghost ps: Pages, ghost free0: seq<nat>, ghost freed0: seq<nat>, ghost v0: nat,
                    ghost vs: seq<nat>, ghost seen: bool)
      returns (v': nat, ghost vs': seq<nat>, ghost seen': bool)
      requires Walking(ps, free0, freed0, pd, v0, v, vs) && WalkAt(ps, pd, v0, v, seen) && v0 <= v < USERPAGES
      modifies this`pages, this`freelist, this`free, this`freed
      ensures Walking(ps, free0, freed0, pd, v0, v', vs') && WalkAt(ps, pd, v0, v', seen') && v < v'
      ensures vs' == vs || vs' == vs + [v]
    {
      if !Present(pages[pd][v / NENTRIES]) {
        Jump(pd, v, ps, free0, freed0, v0, vs, seen);
        v', vs', seen' := v + (NENTRIES - 1) + 1, vs, seen;
      } else {
        WalkHits(ps, pd, v0, v, seen);
        vs' := Visit(pd, v, ps, free0, freed0, v0, vs);
        v', seen' := v + 1, true;
      }
    }

    /** deallocuvm's loop from address a = v0 * PGSIZE. */
    method Walk(pd: nat, oldsz: nat, start: nat, ghost v0: nat) returns (ghost vs: seq<nat>, ghost v: nat)
      requires Valid() && Space(pages, pd) && Apart(pd) && oldsz <= KERNBASE && start == v0 * PGSIZE
      modifies this`pages, this`freelist, this`free, this`freed
      ensures PageUp(oldsz) <= v && Walking(old(pages), old(free), old(freed), pd, v0, v, vs)
      ensures forall x :: x in vs ==> x < PageUp(oldsz)
    {
      ghost var ps := pages;
      vs, v := [], v0;
      var a := start;
      ghost var seen := false;
      assert Frames(ps, pd, vs) == [];
      while a < oldsz
        invariant a == v * PGSIZE && v0 <= v && pd < |ps|
        invariant Walking(ps, old(free), old(freed), pd, v0, v, vs)
        invariant WalkAt(ps, pd, v0, v, seen)
        invariant forall x :: x in vs ==> x < PageUp(oldsz)
        decreases oldsz - a
      {
        assert v < USERPAGES && a / PGSIZE == v && v < PageUp(oldsz);
        var next;
        next, vs, seen := WalkStep(pd, a / PGSIZE, ps, old(free), old(freed), v0, vs, seen);
        a, v := next * PGSIZE, next;
      }
    }

    /** deallocuvm: exactly the reached pages of the range are freed, each once, and unmapped. */
    method DeallocUvm(pd: nat, oldsz: nat, newsz: nat) returns (r: nat, ghost vs: seq<nat>)
      requires Valid() && Space(pages, pd) && Apart(pd) && oldsz <= KERNBASE
      modifies this`pages, this`freelist, this`free, this`freed
      ensures r == if newsz >= oldsz then oldsz else newsz
      ensures newsz >= oldsz ==> vs == [] && pages == old(pages) && free == old(free) && freed == old(freed)
      ensures newsz < oldsz ==>
        Walking(old(pages), old(free), old(freed), pd, PageUp(newsz), PageUp(oldsz), vs)
    {
      if newsz >= oldsz {
        return oldsz, [];
      }
      ghost var v;
      vs, v := Walk(pd, oldsz, (newsz + PGSIZE - 1) / PGSIZE * PGSIZE, PageUp(newsz));
      r := newsz;
    }

    /** Of the tables of directory pd, those of entries rs, all below i, have gone back to the free list. */
    ghost predicate TablesReturned(ps: Pages, free0: seq<nat>, freed0: seq<nat>, pd: nat, i: nat, rs: seq<nat>)
      reads this
    {
      && Valid() && pd < |ps| == |pages| && pages[pd] == ps[pd] && lo <= pd && pd !in free
      && (forall r: nat :: r in rs <==> r < i && r < NENTRIES && Present(Pde(ps, pd, r)))
      && (forall j, k :: 0 <= j < k < |rs| ==> rs[j] < rs[k])
      && freed == freed0 + TableFrames(ps, pd, rs)
      && (forall f :: f in free <==> f in free0 || f in TableFrames(ps, pd, rs))
      && (forall g :: 0 <= g < |ps| && !Owns(ps, pd, g) ==> pages[g] == ps[g])
    }

    method FreeTable(pd: nat, i: nat, ghost ps: Pages, ghost free0: seq<nat>, ghost freed0: seq<nat>, ghost rs: seq<nat>)
      requires TablesReturned(ps, free0, freed0, pd, i, rs) && i < NENTRIES && Present(Pde(ps, pd, i))
      requires TableOk(ps, pd, i) && lo <= FrameOf(Pde(ps, pd, i)) && FrameOf(Pde(ps, pd, i)) !in free
      modifies this`pages, this`freelist, this`free, this`freed
      ensures TablesReturned(ps, free0, freed0, pd, i + 1, rs + [i])
      ensures free == [FrameOf(Pde(ps, pd, i))] + old(free)
    {
      var t := FrameOf(pages[pd][i]);
      assert OwnsTable(ps, pd, t) && Owns(ps, pd, t);
      assert forall k :: 0 <= k < |rs| ==> rs[k] in rs && rs[k] < i;
      KFree(t);
      assert TableFrames(ps, pd, rs + [i]) == TableFrames(ps, pd, rs) + [t];
    }

    /** freevm's loop over the directory. */
    method FreeTables(pd: nat) returns (ghost rs: seq<nat>)
      requires Valid() && Space(pages, pd) && Apart(pd)
      modifies this`pages, this`freelist, this`free, this`freed
      ensures TablesReturned(old(pages), old(free), old(freed), pd, NENTRIES, rs)
    {
      ghost var ps := pages;
      assert Owns(ps, pd, pd);
      forall r: nat | r < NENTRIES && Present(Pde(ps, pd, r))
        ensures lo <= FrameOf(Pde(ps, pd, r)) && FrameOf(Pde(ps, pd, r)) !in free
      {
        assert OwnsTable(ps, pd, FrameOf(Pde(ps, pd, r)));
        assert Owns(ps, pd, FrameOf(Pde(ps, pd, r)));
      }
      rs := [];
      assert TableFrames(ps, pd, rs) == [];
      var i := 0;
      while i < NENTRIES
        invariant 0 <= i <= NENTRIES && TablesReturned(ps, old(free), old(freed), pd, i, rs)
        invariant forall r: nat :: i <= r < NENTRIES && Present(Pde(ps, pd, r)) ==>
          lo <= FrameOf(Pde(ps, pd, r)) && FrameOf(Pde(ps, pd, r)) !in free
      {
        if Present(pages[pd][i]) {
          assert Present(Pde(ps, pd, i)) && TableOk(ps, pd, i);
          forall r: nat | i < r < NENTRIES && Present(Pde(ps, pd, r))
            ensures FrameOf(Pde(ps, pd, r)) != FrameOf(Pde(ps, pd, i))
          {
            assert TablesDiffer(ps, pd, i, r);
          }
          FreeTable(pd, i, ps, old(free), old(freed), rs);
          rs := rs + [i];
        }
        i := i + 1;
      }
    }

    /** freevm passes to kfree every frame the space owns, each exactly once, and no other:
        the user pages in address order, the page tables, and last the directory. */
    method FreeVm(pd: nat) returns (ghost returned: seq<nat>)
      requires Valid() && Space(pages, pd) && Apart(pd)
      modifies this`pages, this`freelist, this`free, this`freed
      ensures Valid() && |pages| == |old(pages)|
      ensures freed == old(freed) + returned && NoDup(returned)
      ensures forall f: nat :: f in returned <==> Owns(old(pages), pd, f)
      ensures forall f: nat :: f in free <==> f in old(free) || f in returned
      ensures forall g :: 0 <= g < |pages| && !Owns(old(pages), pd, g) ==> pages[g] == old(pages)[g]
    {
      ghost var ps := pages;
      var r;
      ghost var vs, rs;
      r, vs := DeallocUvm(pd, KERNBASE, 0);
      forall v: nat | v < USERPAGES ensures v in vs <==> Mapped(ps, pd, v) {
        NoSkipFromBoundary(ps, pd, 0, v);
      }
      ghost var mid := pages;
      rs := FreeTables(pd);
      KFree(pd);
      assert TableFrames(mid, pd, rs) == TableFrames(ps, pd, rs);
      returned := Frames(ps, pd, vs) + TableFrames(ps, pd, rs) + [pd];
      AllReturned(ps, pd, vs, rs, old(freed), freed, old(free), free, returned);
    }

    // ---------- Building a space ----------

    /** A space d under construction: since the free list was free0 and memory was ps, exactly the frames
        `taken` have been allocated; d owns all of them but the pending one, and no other frame changed. */
    ghost predicate Building(ps: Pages, free0: seq<nat>, d: nat, taken: seq<nat>, pending: set<nat>)
      reads this
    {
      && Valid() && |pages| == |ps| && free0 == taken + free && NoDup(free0)
      && Space(pages, d) && Open(pages[d])
      && (forall f :: f in pending ==> f in taken) && (forall f :: f in taken ==> lo <= f < |ps|)
      && (forall f: nat :: Owns(pages, d, f) <==> f in taken && f !in pending)
      && (forall f :: 0 <= f < |ps| && f !in taken ==> pages[f] == ps[f])
    }

    /** walkpgdir(d, v, 1): after it the page table of v exists, and nothing maps differently. */
    method WalkAlloc(d: nat, v: nat, ghost ps: Pages, ghost free0: seq<nat>, ghost taken: seq<nat>, ghost pending: set<nat>)
      returns (ok: bool, ghost taken': seq<nat>)
      requires Building(ps, free0, d, taken, pending) && v < ALLPAGES
      modifies this`pages, this`freelist, this`free
      ensures Building(ps, free0, d, taken', pending) && taken <= taken'
      ensures ok ==> HasTable(pages, d, v)
      ensures forall x :: 0 <= x < ALLPAGES ==> Pte(pages, d, x) == Pte(old(pages), d, x)
      ensures forall f :: 0 <= f < |pages| && f in pending ==> pages[f] == old(pages)[f]
      ensures UserKept(old(pages), pages, d)
    {
      ok, taken' := true, taken;
      if !Present(pages[d][v / NENTRIES]) {
        ghost var before, r := pages, v / NENTRIES;
        assert !Present(Pde(before, d, r));
        var t := KAlloc();
        if t == 0 {
          return false, taken;
        }
        TakeOne(free0, taken, t, free);
        assert t < |pages| && Owns(before, d, d);
        assert Fresh(before, d, t);
        AddTableKeepsSpace(before, d, r, t);
        AddTableKeepsUser(before, d, r, t);
        pages := pages[t := ZeroPage()];
        pages := pages[d := pages[d][v / NENTRIES := t * PGSIZE + 7]];
        assert pages == AddTable(before, d, r, t);
        taken' := taken + [t];
        ChainElsewhere(before, pages, freelist, free);
        forall g: nat ensures Owns(pages, d, g) <==> g in taken' && g !in pending {
          AddTableOwns(before, d, r, t, g);
        }
        forall x | 0 <= x < ALLPAGES ensures Pte(pages, d, x) == Pte(before, d, x) {
          AddTablePtes(before, d, r, t, x);
        }
        AddTablePdes(before, d, r, t, r);
      }
    }

    /** One turn of mappages' loop.  Below KERNBASE it maps the pending frame, which d then owns. */
    method MapPage(d: nat, v: nat, f: nat, perm: nat, ghost ps: Pages, ghost free0: seq<nat>, ghost taken: seq<nat>,
                   ghost pending: set<nat>)
      returns (ok: bool, ghost taken': seq<nat>)
      requires Building(ps, free0, d, taken, pending) && v < ALLPAGES && !Mapped(pages, d, v)
      requires f < ALLPAGES && perm < PGSIZE && (v < USERPAGES ==> pending == {f})
      modifies this`pages, this`freelist, this`free
      ensures taken <= taken'
      ensures Building(ps, free0, d, taken', if ok && v < USERPAGES then {} else pending)
      ensures forall x :: 0 <= x < ALLPAGES ==>
        Pte(pages, d, x) == if ok && x == v then Entry(f, perm) else Pte(old(pages), d, x)
      ensures ok ==> Maps(Pte(pages, d, v), f, perm)
      ensures forall g :: 0 <= g < |pages| && g in pending ==> pages[g] == old(pages)[g]
      ensures UserKept(old(pages), pages, d)
    {
      ghost var first := pages;
      ok, taken' := WalkAlloc(d, v, ps, free0, taken, pending);
      if !ok {
        return;
      }
      ghost var before := pages;
      assert TableOk(before, d, v / NENTRIES) && OwnsTable(before, d, FrameOf(Pde(before, d, v / NENTRIES)));
      var t := FrameOf(pages[d][v / NENTRIES]);
      assert Owns(before, d, t);
      pages := pages[t := pages[t][v % NENTRIES := Entry(f, perm)]];
      assert pages == PutPte(before, d, v, Entry(f, perm));
      EntryParts(f, perm);
      PutKeepsSpace(before, d, v, Entry(f, perm));
      PutKeepsUser(before, d, v, Entry(f, perm));
      KeptTrans(first, before, pages, d);
      NotBoth(free0, taken', free);
      ChainElsewhere(before, pages, freelist, free);
      forall g: nat ensures Owns(pages, d, g) <==> Owns(before, d, g) || (v < USERPAGES && g == f) {
        MapOwns(before, d, v, f, perm, g);
      }
      forall x | 0 <= x < ALLPAGES ensures Pte(pages, d, x) == if x == v then Entry(f, perm) else Pte(before, d, x) {
        PutPtes(before, d, v, Entry(f, perm), x);
      }
    }

    /** mappages over the page numbers first, ..., first + count - 1 of the kernel half. */
    method MapPages(d: nat, k: Kmap, ghost ps: Pages, ghost free0: seq<nat>, ghost taken: seq<nat>)
      returns (ok: bool, ghost taken': seq<nat>)
      requires Building(ps, free0, d, taken, {}) && InKernel(k) && k.count >= 1
      requires forall x :: InRange(k, x) ==> !Mapped(pages, d, x)
      modifies this`pages, this`freelist, this`free
      ensures Building(ps, free0, d, taken', {})
      ensures ok ==> forall x :: 0 <= x < ALLPAGES ==>
        Pte(pages, d, x) == if InRange(k, x) then Entry(k.frame + x - k.first, k.perm) else Pte(old(pages), d, x)
      ensures ok ==> forall x :: InRange(k, x) ==> Maps(Pte(pages, d, x), k.frame + x - k.first, k.perm)
    {
      ghost var start := pages;
      taken' := taken;
      var i := 0;
      while true
        invariant 0 <= i < k.count && Building(ps, free0, d, taken', {})
        invariant MappedTo(start, pages, d, k, i)
        decreases k.count - i
      {
        var v, f := k.first + i, k.frame + i;
        ghost var before := pages;
        assert InRange(k, v);
        ok, taken' := MapPage(d, v, f, k.perm, ps, free0, taken', {});
        if !ok {
          return;
        }
        MappedOn(start, before, pages, d, k, i);
        if i == k.count - 1 {
          break;
        }
        i := i + 1;
      }
      RangeMaps(start, pages, d, k);
    }

    /** setupkvm's first half: a zeroed directory, or 0. */
    method NewDirectory() returns (d: nat, ghost taken: seq<nat>)
      requires Valid()
      modifies this`pages, this`freelist, this`free
      ensures d == 0 ==> Valid() && pages == old(pages) && free == old(free) && taken == []
      ensures d != 0 ==> Building(old(pages), old(free), d, taken, {})
      ensures d != 0 ==> forall v :: 0 <= v < ALLPAGES ==> Pte(pages, d, v) == 0
    {
      ghost var ps, free0 := pages, free;
      taken := [];
      d := KAlloc();
      if d == 0 {
        return;
      }
      TakeOne(free0, [], d, free);
      taken := [d];
      pages := pages[d := ZeroPage()];
      ChainElsewhere(ps, pages, freelist, free);
      forall f ensures Owns(pages, d, f) <==> f == d {
        ZeroSpace(pages, d, f);
      }
      ZeroSpace(pages, d, d);
    }

    /** setupkvm: a directory with the kernel's mappings and nothing below KERNBASE, or 0. */
    method SetupKvm(kmap: seq<Kmap>) returns (d: nat, ghost taken: seq<nat>)
      requires Valid() && KernelMap(kmap)
      modifies this`pages, this`freelist, this`free
      ensures Valid() && |pages| == |old(pages)| && old(free) == taken + free
      ensures forall f :: 0 <= f < |pages| && f !in taken ==> pages[f] == old(pages)[f]
      ensures d != 0 ==> Building(old(pages), old(free), d, taken, {}) && HoldsKernel(pages, d, kmap, |kmap|)
      ensures d != 0 ==> KernelView(pages, d, kmap) && UserFaults(pages, d)
    {
      ghost var ps, free0 := pages, free;
      d, taken := NewDirectory();
      if d == 0 {
        return;
      }
      var k := 0;
      while k < |kmap|
        invariant 0 <= k <= |kmap| && Building(ps, free0, d, taken, {}) && HoldsKernel(pages, d, kmap, k)
      {
        ghost var before := pages;
        forall x | InRange(kmap[k], x) ensures !Mapped(pages, d, x) {
          RangesApart(kmap, k, x);
        }
        var ok;
        ok, taken := MapPages(d, kmap[k], ps, free0, taken);
        if !ok {
          return 0, taken;
        }
        HoldsOneMore(before, pages, d, kmap, k);
        k := k + 1;
      }
      NoUserMapped(pages, d, kmap);
      HoldsHalf(pages, d, kmap);
      HalfSeen(pages, d, kmap);
    }

    /** copyuvm's page allocation and memmove: a new frame holding a copy of the parent's page. */
    method CopyFrame(pd: nat, d: nat, v: nat, ghost ps: Pages, ghost free0: seq<nat>, ghost taken: seq<nat>)
      returns (mem: nat, flags: nat)
      requires Building(ps, free0, d, taken, {}) && v < USERPAGES
      requires Space(ps, pd) && Mapped(ps, pd, v) && forall f: nat :: Owns(ps, pd, f) ==> f !in free0
      modifies this`pages, this`freelist, this`free
      ensures mem == 0 ==> Building(ps, free0, d, taken, {}) && pages == old(pages)
      ensures mem != 0 ==> Building(ps, free0, d, taken + [mem], {mem}) && mem < |pages|
      ensures mem != 0 ==> FrameOf(Pte(ps, pd, v)) < |ps| && pages[mem] == ps[FrameOf(Pte(ps, pd, v))]
      ensures flags == FlagsOf(Pte(ps, pd, v))
      ensures forall x :: 0 <= x < ALLPAGES ==> Pte(pages, d, x) == Pte(old(pages), d, x)
      ensures UserKept(old(pages), pages, d)
    {
      ghost var before := pages;
      ParentIntact(ps, pages, pd, free0, taken);
      SamePte(ps, pages, pd, v);
      assert UserOk(ps, pd, v) && TableOk(ps, pd, v / NENTRIES);
      var pte := pages[FrameOf(pages[pd][v / NENTRIES])][v % NENTRIES];
      assert pte == Pte(ps, pd, v);
      flags := FlagsOf(pte);
      mem := KAlloc();
      if mem == 0 {
        return;
      }
      TakeOne(free0, taken, mem, free);
      ghost var f := FrameOf(pte);
      assert OwnsUser(ps, pd, f) && Owns(ps, pd, f) && f !in free0;
      assert f !in taken by { assert forall g :: g in taken ==> g in free0; }
      pages := pages[mem := pages[FrameOf(pte)]];
      ChainElsewhere(before, pages, freelist, free);
      assert !Owns(before, d, mem);
      OutsideWrite(before, pages, d, mem);
    }

    /** One turn of copyuvm's loop. */
    method CopyPage(pd: nat, d: nat, v: nat, ghost ps: Pages, ghost free0: seq<nat>, ghost taken: seq<nat>)
      returns (ok: bool, ghost taken': seq<nat>, ghost pending: set<nat>)
      requires Building(ps, free0, d, taken, {}) && v < USERPAGES && CopiedTo(ps, pages, pd, d, v)
      requires Space(ps, pd) && Mapped(ps, pd, v) && forall f: nat :: Owns(ps, pd, f) ==> f !in free0
      modifies this`pages, this`freelist, this`free
      ensures Building(ps, free0, d, taken', pending) && |pending| <= 1
      ensures ok ==> pending == {} && CopiedTo(ps, pages, pd, d, v + 1)
      ensures ok ==> KernelKept(old(pages), pages, d)
    {
      ghost var before := pages;
      ok, taken', pending := false, taken, {};
      assert !Mapped(before, d, v);
      var mem, flags := CopyFrame(pd, d, v, ps, free0, taken);
      if mem == 0 {
        return;
      }
      ghost var mid := pages;
      ok, taken' := MapPage(d, v, mem, flags, ps, free0, taken + [mem], {mem});
      pending := if ok then {} else {mem};
      if ok {
        KeptTrans(before, mid, pages, d);
        EntryWithFlags(mem, Pte(ps, pd, v));
        CopiedOneMore(ps, before, pages, pd, d, v);
        KernelKeptBy(before, mid, pages, d, v);
      }
    }

    /** The failure exit of copyuvm: the half-built child goes back to the free list. */
    method Abandon(d: nat, ghost ps: Pages, ghost free0: seq<nat>, ghost taken: seq<nat>, ghost pending: set<nat>)
      requires Building(ps, free0, d, taken, pending)
      modifies this`pages, this`freelist, this`free, this`freed
      ensures Valid() && |pages| == |ps|
      ensures forall f :: 0 <= f < |ps| && f !in free0 ==> pages[f] == ps[f]
      ensures forall f: nat :: f in free <==> f in free0 && f !in pending
    {
      NotBoth(free0, taken, free);
      assert forall f :: f in free0 <==> f in taken || f in free;
      ghost var returned := FreeVm(d);
    }

    /** copyuvm's loop; false when memory ran out. */
    method CopyPages(pd: nat, d: nat, sz: nat, ghost ps: Pages, ghost free0: seq<nat>, ghost taken: seq<nat>)
      returns (ok: bool, ghost taken': seq<nat>, ghost pending: set<nat>)
      requires Building(ps, free0, d, taken, {}) && sz <= KERNBASE && CopiedTo(ps, pages, pd, d, 0)
      requires Space(ps, pd) && forall f: nat :: Owns(ps, pd, f) ==> f !in free0
      requires forall v :: 0 <= v < PageUp(sz) ==> Mapped(ps, pd, v)
      modifies this`pages, this`freelist, this`free
      ensures Building(ps, free0, d, taken', pending) && |pending| <= 1
      ensures ok ==> pending == {} && CopiedTo(ps, pages, pd, d, PageUp(sz))
      ensures ok ==> KernelKept(old(pages), pages, d)
    {
      taken', pending := taken, {};
      var i := 0;
      ghost var n := 0;
      while i < sz
        invariant i == n * PGSIZE && n <= PageUp(sz) && pending == {}
        invariant Building(ps, free0, d, taken', {}) && CopiedTo(ps, pages, pd, d, n)
        invariant KernelKept(old(pages), pages, d)
        decreases sz - i
      {
        assert i / PGSIZE == n < PageUp(sz);
        ghost var before := pages;
        ok, taken', pending := CopyPage(pd, d, i / PGSIZE, ps, free0, taken');
        if !ok {
          return;
        }
        KernelKeptTwice(old(pages), before, pages, d);
        i := i + PGSIZE;
        n := n + 1;
      }
      ok := true;
    }

    /** copyuvm.  On success the child has the parent's user pages, with the same flags and contents, in
        frames that were all free before; the frames taken are exactly those the child owns.  The parent is as it
        was.  If memory runs out, what was taken is free again, except the frames `lost`: those of a directory that
        setupkvm could not finish, or the one page for which no table was left. */
    method CopyUvm(pd: nat, sz: nat, kmap: seq<Kmap>) returns (d: nat, ghost taken: seq<nat>, ghost lost: set<nat>)
      requires Valid() && Space(pages, pd) && Apart(pd) && sz <= KERNBASE && KernelMap(kmap)
      requires forall v :: 0 <= v < PageUp(sz) ==> Mapped(pages, pd, v)
      modifies this`pages, this`freelist, this`free, this`freed
      ensures Valid() && |pages| == |old(pages)|
      ensures forall f :: 0 <= f < |pages| && f !in old(free) ==> pages[f] == old(pages)[f]
      ensures Space(pages, pd) && Apart(pd) && forall f: nat :: Owns(pages, pd, f) <==> Owns(old(pages), pd, f)
      ensures d != 0 ==>
        Building(old(pages), old(free), d, taken, {}) && CopiedTo(old(pages), pages, pd, d, PageUp(sz))
      ensures d != 0 ==> Space(pages, d) && Apart(d) && forall f: nat :: Owns(pages, d, f) ==> !Owns(pages, pd, f)
      ensures d != 0 ==> KernelHalf(pages, d, kmap) && Open(pages[d]) && KernelView(pages, d, kmap)
      ensures d == 0 ==> forall f: nat :: f in free <==> f in old(free) && f !in lost
      ensures d == 0 ==> |lost| <= 1 || forall f :: f in lost <==> f in taken
    {
      ghost var ps, free0 := pages, free;
      d, taken := SetupKvm(kmap);
      lost := set f | f in taken;
      NotBoth(free0, taken, free);
      if d != 0 {
        NoUserMapped(pages, d, kmap);
        ghost var before := pages;
        var ok;
        ok, taken, lost := CopyPages(pd, d, sz, ps, free0, taken);
        if !ok {
          Abandon(d, ps, free0, taken, lost);
          d := 0;
        } else {
          NotBoth(free0, taken, free);
          KernelStays(before, pages, d, kmap);
          HalfSeen(pages, d, kmap);
        }
      }
      ParentStays(ps, pages, pd, free0);
    }
  }

  /** A space none of whose frames was free is the same space after any use of free memory. */
  lemma ParentStays(ps: Pages, ps': Pages, pd: nat, free0: seq<nat>)
    requires Space(ps, pd) && |ps'| == |ps|
    requires forall f: nat :: Owns(ps, pd, f) ==> f !in free0
    requires forall f :: 0 <= f < |ps| && f !in free0 ==> ps'[f] == ps[f]
    ensures Space(ps', pd) && forall f: nat :: Owns(ps', pd, f) <==> Owns(ps, pd, f)
  {
    ParentIntact(ps, ps', pd, free0, free0);
    SameSpace(ps, ps', pd);
    forall f: nat
      ensures Owns(ps', pd, f) <==> Owns(ps, pd, f)
    {
      SameOwns(ps, ps', pd, f);
    }
  }

  /** The first n user pages are copied and no other user page is mapped. */
  predicate CopiedTo(ps: Pages, ps': Pages, pd: nat, d: nat, n: nat) {
    && pd < |ps| && d < |ps'| && n <= USERPAGES
    && (forall v {:trigger PageCopied(ps, ps', pd, d, v)} :: 0 <= v < n ==> PageCopied(ps, ps', pd, d, v))
    && (forall v :: n <= v < USERPAGES ==> !Mapped(ps', d, v))
  }

  lemma CopiedOneMore(ps: Pages, before: Pages, after: Pages, pd: nat, d: nat, n: nat)
    requires CopiedTo(ps, before, pd, d, n) && n < USERPAGES && UserKept(before, after, d)
    requires PageCopied(ps, after, pd, d, n)
    requires forall x :: 0 <= x < ALLPAGES && x != n ==> Pte(after, d, x) == Pte(before, d, x)
    ensures CopiedTo(ps, after, pd, d, n + 1)
  {
    forall v | 0 <= v < n + 1 ensures PageCopied(ps, after, pd, d, v) {
      if v < n {
        assert PageCopied(ps, before, pd, d, v) && KeptAt(before, after, d, v);
      }
    }
    forall v | n + 1 <= v < USERPAGES ensures !Mapped(after, d, v) {
      assert Pte(after, d, v) == Pte(before, d, v) && !Mapped(before, d, v);
    }
  }

  /** The child's page v has the parent's flags and contents. */
  predicate PageCopied(ps: Pages, ps': Pages, pd: nat, d: nat, v: nat)
    requires pd < |ps| && d < |ps'| && v < USERPAGES
  {
    && Mapped(ps', d, v) && FlagsOf(Pte(ps', d, v)) == FlagsOf(Pte(ps, pd, v))
    && FrameOf(Pte(ps', d, v)) < |ps'| && FrameOf(Pte(ps, pd, v)) < |ps|
    && ps'[FrameOf(Pte(ps', d, v))] == ps[FrameOf(Pte(ps, pd, v))]
  }

  /** A space none of whose frames was free is untouched by allocation. */
  lemma ParentIntact(ps: Pages, ps': Pages, pd: nat, free0: seq<nat>, taken: seq<nat>)
    requires Space(ps, pd) && |ps'| == |ps| && taken <= free0
    requires forall f: nat :: Owns(ps, pd, f) ==> f !in free0
    requires forall f :: 0 <= f < |ps| && f !in taken ==> ps'[f] == ps[f]
    ensures SameTables(ps, ps', pd)
  {
    assert forall g :: g in taken ==> g in free0;
    assert Owns(ps, pd, pd);
    forall r | 0 <= r < NENTRIES && Present(Pde(ps, pd, r)) && FrameOf(Pde(ps, pd, r)) < |ps|
      ensures ps'[FrameOf(Pde(ps, pd, r))] == ps[FrameOf(Pde(ps, pd, r))]
    {
      assert OwnsTable(ps, pd, FrameOf(Pde(ps, pd, r)));
      assert Owns(ps, pd, FrameOf(Pde(ps, pd, r)));
    }
  }

  /** A store into a frame outside d changes nothing in d. */
  lemma OutsideWrite(ps: Pages, ps': Pages, d: nat, f: nat)
    requires Space(ps, d) && |ps'| == |ps| && !Owns(ps, d, f)
    requires forall g :: 0 <= g < |ps| && g != f ==> ps'[g] == ps[g]
    ensures SameTables(ps, ps', d) && Space(ps', d) && UserKept(ps, ps', d)
    ensures forall g: nat :: Owns(ps', d, g) == Owns(ps, d, g)
    ensures forall x :: 0 <= x < ALLPAGES ==> Pte(ps', d, x) == Pte(ps, d, x)
  {
    forall r | 0 <= r < NENTRIES && Present(Pde(ps, d, r)) ensures FrameOf(Pde(ps, d, r)) != f {
    }
    assert SameTables(ps, ps', d);
    SameSpace(ps, ps', d);
    forall g: nat ensures Owns(ps', d, g) == Owns(ps, d, g) {
      SameOwns(ps, ps', d, g);
    }
    forall x | 0 <= x < ALLPAGES ensures Pte(ps', d, x) == Pte(ps, d, x) {
      SamePte(ps, ps', d, x);
    }
    forall v | 0 <= v < USERPAGES ensures KeptAt(ps, ps', d, v) {
    }
  }

  /** An entry of vm.c's kmap table, in pages. */
  datatype Kmap = Kmap(first: nat, count: nat, frame: nat, perm: nat)

  predicate InKernel(k: Kmap) {
    USERPAGES <= k.first && k.first + k.count <= ALLPAGES && k.frame + k.count <= ALLPAGES && k.perm < PGSIZE
  }

  predicate InRange(k: Kmap, x: int) {
    k.first <= x < k.first + k.count
  }

  /** The kernel's ranges lie above KERNBASE and do not overlap. */
  ghost predicate KernelMap(kmap: seq<Kmap>) {
    && (forall i :: 0 <= i < |kmap| ==> InKernel(kmap[i]) && kmap[i].count >= 1)
    && (forall i, j, x :: 0 <= i < j < |kmap| && InRange(kmap[i], x) ==> !InRange(kmap[j], x))
  }

  /** The first n ranges are mapped as the table says, and nothing else is mapped. */
  ghost predicate HoldsKernel(ps: Pages, d: nat, kmap: seq<Kmap>, n: nat)
    requires n <= |kmap| && KernelMap(kmap)
  {
    && d < |ps|
    && (forall i, x {:trigger InRange(kmap[i], x)} :: 0 <= i < n && InRange(kmap[i], x) ==>
          Pte(ps, d, x) == Entry(kmap[i].frame + x - kmap[i].first, kmap[i].perm))
    && (forall x :: 0 <= x < ALLPAGES && Mapped(ps, d, x) ==> exists i :: 0 <= i < n && InRange(kmap[i], x))
  }

  /** The entries above KERNBASE are the same. */
  ghost predicate KernelKept(ps: Pages, ps': Pages, d: nat) {
    && d < |ps| && d < |ps'|
    && forall x {:trigger Pte(ps', d, x)} :: USERPAGES <= x < ALLPAGES ==> Pte(ps', d, x) == Pte(ps, d, x)
  }

  lemma KernelKeptTwice(a: Pages, b: Pages, c: Pages, d: nat)
    requires KernelKept(a, b, d) && KernelKept(b, c, d)
    ensures KernelKept(a, c, d)
  {
    forall x | USERPAGES <= x < ALLPAGES
      ensures Pte(c, d, x) == Pte(a, d, x)
    {
      assert Pte(b, d, x) == Pte(a, d, x);
    }
  }

  lemma KernelKeptBy(before: Pages, mid: Pages, after: Pages, d: nat, v: nat)
    requires d < |before| && d < |mid| && d < |after| && v < USERPAGES
    requires forall x :: 0 <= x < ALLPAGES ==> Pte(mid, d, x) == Pte(before, d, x)
    requires forall x :: 0 <= x < ALLPAGES && x != v ==> Pte(after, d, x) == Pte(mid, d, x)
    ensures KernelKept(before, after, d)
  {
    forall x | USERPAGES <= x < ALLPAGES
      ensures Pte(after, d, x) == Pte(before, d, x)
    {
      assert Pte(mid, d, x) == Pte(before, d, x);
    }
  }

  /** Above KERNBASE exactly the kernel's ranges are mapped, as the table says. */
  ghost predicate KernelHalf(ps: Pages, d: nat, kmap: seq<Kmap>)
    requires KernelMap(kmap)
  {
    && d < |ps|
    && (forall i, x {:trigger InRange(kmap[i], x)} :: 0 <= i < |kmap| && InRange(kmap[i], x) ==>
          Pte(ps, d, x) == Entry(kmap[i].frame + x - kmap[i].first, kmap[i].perm))
    && (forall x :: USERPAGES <= x < ALLPAGES && Mapped(ps, d, x) ==> exists i :: 0 <= i < |kmap| && InRange(kmap[i], x))
  }

  lemma KernelStays(ps: Pages, ps': Pages, d: nat, kmap: seq<Kmap>)
    requires KernelMap(kmap) && HoldsKernel(ps, d, kmap, |kmap|) && KernelKept(ps, ps', d)
    ensures KernelHalf(ps', d, kmap)
  {
    forall x | USERPAGES <= x < ALLPAGES && Mapped(ps', d, x)
      ensures exists i :: 0 <= i < |kmap| && InRange(kmap[i], x)
    {
      assert Pte(ps', d, x) == Pte(ps, d, x);
      assert Mapped(ps, d, x);
    }
  }

  /** The linear address va lies in range i, byte va - 4096 * first of it. */
  predicate VaIn(k: Kmap, va: nat) {
    4096 * k.first <= va < 4096 * (k.first + k.count)
  }

  /** What the kernel sees through d: each range at its physical place, writable exactly if the table has PTE_W (2) for
      it, open to the user exactly if it has PTE_U (4), and between the ranges nothing. */
  ghost predicate KernelView(ps: Pages, d: nat, kmap: seq<Kmap>)
    requires KernelMap(kmap)
  {
    && d < |ps|
    && (forall va: nat, i | 0 <= i < |kmap| && va < 0x1_0000_0000 && VaIn(kmap[i], va) ::
          Translate(ps, d, va) ==
            Access(4096 * kmap[i].frame + (va - 4096 * kmap[i].first), kmap[i].perm / 2 % 2 == 1, kmap[i].perm / 4 % 2 == 1))
    && (forall va: nat | 0x8000_0000 <= va < 0x1_0000_0000 && (forall i | 0 <= i < |kmap| :: !VaIn(kmap[i], va)) ::
          Translate(ps, d, va) == Fault)
  }

  ghost predicate UserFaults(ps: Pages, d: nat) {
    d < |ps| && forall va: nat | va < 0x8000_0000 :: Translate(ps, d, va) == Fault
  }

  lemma HoldsHalf(ps: Pages, d: nat, kmap: seq<Kmap>)
    requires KernelMap(kmap) && HoldsKernel(ps, d, kmap, |kmap|) && Space(ps, d) && Open(ps[d])
    ensures KernelHalf(ps, d, kmap) && UserFaults(ps, d)
  {
    forall va: nat | va < 0x8000_0000
      ensures Translate(ps, d, va) == Fault
    {
      NoUserMapped(ps, d, kmap);
      TranslateIs(ps, d, va);
      assert va / 4096 < USERPAGES && !Mapped(ps, d, va / 4096);
    }
  }

  /** The first i pages of the range are mapped, and nothing else maps differently. */
  ghost predicate MappedTo(ps: Pages, ps': Pages, d: nat, k: Kmap, i: nat) {
    && d < |ps| && d < |ps'| && InKernel(k) && i <= k.count
    && forall x :: 0 <= x < ALLPAGES ==>
         Pte(ps', d, x) == if k.first <= x < k.first + i then Entry(k.frame + x - k.first, k.perm) else Pte(ps, d, x)
  }

  lemma MappedOn(ps: Pages, ps1: Pages, ps2: Pages, d: nat, k: Kmap, i: nat)
    requires MappedTo(ps, ps1, d, k, i) && i < k.count && d < |ps2|
    requires forall x :: 0 <= x < ALLPAGES ==>
      Pte(ps2, d, x) == if x == k.first + i then Entry(k.frame + i, k.perm) else Pte(ps1, d, x)
    ensures MappedTo(ps, ps2, d, k, i + 1)
  {
  }

  lemma RangeMaps(ps0: Pages, ps: Pages, d: nat, k: Kmap)
    requires MappedTo(ps0, ps, d, k, k.count)
    ensures forall x :: InRange(k, x) ==> Maps(Pte(ps, d, x), k.frame + x - k.first, k.perm)
  {
    forall x | InRange(k, x)
      ensures Maps(Pte(ps, d, x), k.frame + x - k.first, k.perm)
    {
      EntryParts(k.frame + x - k.first, k.perm);
    }
  }

  lemma RangeSeen(ps: Pages, d: nat, k: Kmap, va: nat)
    requires Space(ps, d) && Open(ps[d]) && InKernel(k) && VaIn(k, va)
    requires Pte(ps, d, va / 4096) == Entry(k.frame + va / 4096 - k.first, k.perm)
    ensures Translate(ps, d, va) ==
      Access(4096 * k.frame + (va - 4096 * k.first), k.perm / 2 % 2 == 1, k.perm / 4 % 2 == 1)
  {
    TranslateIs(ps, d, va);
    EntryParts(k.frame + va / 4096 - k.first, k.perm);
  }

  lemma HalfSeen(ps: Pages, d: nat, kmap: seq<Kmap>)
    requires KernelMap(kmap) && KernelHalf(ps, d, kmap) && Space(ps, d) && Open(ps[d])
    ensures KernelView(ps, d, kmap)
  {
    forall va: nat, i | 0 <= i < |kmap| && va < 0x1_0000_0000 && VaIn(kmap[i], va)
      ensures Translate(ps, d, va) ==
        Access(4096 * kmap[i].frame + (va - 4096 * kmap[i].first), kmap[i].perm / 2 % 2 == 1, kmap[i].perm / 4 % 2 == 1)
    {
      assert InRange(kmap[i], va / 4096);
      RangeSeen(ps, d, kmap[i], va);
    }
    forall va: nat | 0x8000_0000 <= va < 0x1_0000_0000 && (forall i | 0 <= i < |kmap| :: !VaIn(kmap[i], va))
      ensures Translate(ps, d, va) == Fault
    {
      TranslateIs(ps, d, va);
      forall i | 0 <= i < |kmap|
        ensures !InRange(kmap[i], va / 4096)
      {
        assert !VaIn(kmap[i], va);
      }
      assert !Mapped(ps, d, va / 4096);
    }
  }

  lemma NoUserMapped(ps: Pages, d: nat, kmap: seq<Kmap>)
    requires KernelMap(kmap) && HoldsKernel(ps, d, kmap, |kmap|)
    ensures forall v :: 0 <= v < USERPAGES ==> !Mapped(ps, d, v)
  {
  }

  lemma RangesApart(kmap: seq<Kmap>, k: nat, x: int)
    requires KernelMap(kmap) && k < |kmap| && InRange(kmap[k], x)
    ensures forall i :: 0 <= i < k ==> !InRange(kmap[i], x)
  {
  }

  lemma HoldsOneMore(ps: Pages, ps': Pages, d: nat, kmap: seq<Kmap>, k: nat)
    requires KernelMap(kmap) && k < |kmap| && HoldsKernel(ps, d, kmap, k) && d < |ps'|
    requires forall x :: 0 <= x < ALLPAGES ==>
      Pte(ps', d, x) == if InRange(kmap[k], x) then Entry(kmap[k].frame + x - kmap[k].first, kmap[k].perm) else Pte(ps, d, x)
    ensures HoldsKernel(ps', d, kmap, k + 1)
  {
    forall i, x | 0 <= i < k + 1 && InRange(kmap[i], x)
      ensures Pte(ps', d, x) == Entry(kmap[i].frame + x - kmap[i].first, kmap[i].perm)
    {
      if i < k && InRange(kmap[k], x) {
        RangesApart(kmap, k, x);
      }
    }
    forall x | 0 <= x < ALLPAGES && Mapped(ps', d, x) ensures exists i :: 0 <= i < k + 1 && InRange(kmap[i], x) {
      if !InRange(kmap[k], x) {
        assert Mapped(ps, d, x);
        var i :| 0 <= i < k && InRange(kmap[i], x);
        assert InRange(kmap[i], x);
      }
    }
  }

  /** Moving the head of the free list to the frames taken. */
  lemma TakeOne(free0: seq<nat>, taken: seq<nat>, f: nat, free: seq<nat>)
    requires free0 == taken + ([f] + free) && NoDup(free0)
    ensures free0 == (taken + [f]) + free && f !in taken && f !in free
    ensures forall g :: g in taken ==> g !in free
  {
    assert free0[|taken|] == f;
    forall i | 0 <= i < |free| ensures free[i] != f {
      assert free0[|taken| + 1 + i] == free[i];
    }
    forall i | 0 <= i < |taken| ensures taken[i] != f && taken[i] !in free {
      assert free0[i] == taken[i];
      forall j | 0 <= j < |free| ensures free[j] != taken[i] {
        assert free0[|taken| + 1 + j] == free[j];
      }
    }
  }

  lemma KeptTrans(a: Pages, b: Pages, c: Pages, d: nat)
    requires UserKept(a, b, d) && UserKept(b, c, d)
    requires forall x :: 0 <= x < ALLPAGES ==> Pte(b, d, x) == Pte(a, d, x)
    ensures UserKept(a, c, d)
  {
    forall v | 0 <= v < USERPAGES ensures KeptAt(a, c, d, v) {
      assert KeptAt(a, b, d, v) && KeptAt(b, c, d, v);
    }
  }

  lemma NotBoth(free0: seq<nat>, taken: seq<nat>, free: seq<nat>)
    requires free0 == taken + free && NoDup(free0)
    ensures forall f :: f in taken ==> f !in free
  {
    forall i, j | 0 <= i < |taken| && 0 <= j < |free| ensures taken[i] != free[j] {
      assert free0[i] == taken[i] && free0[|taken| + j] == free[j];
    }
  }

  lemma AllReturned(ps: Pages, pd: nat, vs: seq<nat>, rs: seq<nat>, freed0: seq<nat>, freed: seq<nat>,
                    free0: seq<nat>, free: seq<nat>, returned: seq<nat>)
    requires Space(ps, pd)
    requires forall v: nat :: v in vs <==> v < USERPAGES && Mapped(ps, pd, v)
    requires forall r: nat :: r in rs <==> r < NENTRIES && Present(Pde(ps, pd, r))
    requires forall i, j :: 0 <= i < j < |vs| ==> vs[i] < vs[j]
    requires forall i, j :: 0 <= i < j < |rs| ==> rs[i] < rs[j]
    requires freed == freed0 + Frames(ps, pd, vs) + TableFrames(ps, pd, rs) + [pd]
    requires forall f: nat :: f in free <==>
      f in free0 || f in Frames(ps, pd, vs) || f in TableFrames(ps, pd, rs) || f == pd
    requires returned == Frames(ps, pd, vs) + TableFrames(ps, pd, rs) + [pd]
    ensures freed == freed0 + returned && NoDup(returned)
    ensures forall f: nat :: f in returned <==> Owns(ps, pd, f)
    ensures forall f: nat :: f in free <==> f in free0 || f in returned
  {
    OwnedOnce(ps, pd, vs, rs);
  }

  /** Listing user pages, tables and directory lists each owned frame once. */
  lemma OwnedOnce(ps: Pages, pd: nat, vs: seq<nat>, rs: seq<nat>)
    requires Space(ps, pd)
    requires forall v: nat :: v in vs <==> v < USERPAGES && Mapped(ps, pd, v)
    requires forall r: nat :: r in rs <==> r < NENTRIES && Present(Pde(ps, pd, r))
    requires forall i, j :: 0 <= i < j < |vs| ==> vs[i] < vs[j]
    requires forall i, j :: 0 <= i < j < |rs| ==> rs[i] < rs[j]
    ensures var all := Frames(ps, pd, vs) + TableFrames(ps, pd, rs) + [pd];
      NoDup(all) && forall f: nat :: f in all <==> Owns(ps, pd, f)
  {
    var us, ts := Frames(ps, pd, vs), TableFrames(ps, pd, rs);
    var all := us + ts + [pd];
    forall i, j | 0 <= i < j < |all| ensures all[i] != all[j] {
      OwnedDistinct(ps, pd, vs, rs, i, j);
    }
    forall f: nat ensures f in all <==> Owns(ps, pd, f) {
      OwnedListed(ps, pd, vs, rs, f);
    }
  }

  lemma OwnedDistinct(ps: Pages, pd: nat, vs: seq<nat>, rs: seq<nat>, i: nat, j: nat)
    requires Space(ps, pd)
    requires forall v: nat :: v in vs ==> v < USERPAGES && Mapped(ps, pd, v)
    requires forall r: nat :: r in rs ==> r < NENTRIES && Present(Pde(ps, pd, r))
    requires forall i, j :: 0 <= i < j < |vs| ==> vs[i] < vs[j]
    requires forall i, j :: 0 <= i < j < |rs| ==> rs[i] < rs[j]
    requires i < j < |vs| + |rs| + 1
    ensures var all := Frames(ps, pd, vs) + TableFrames(ps, pd, rs) + [pd]; all[i] != all[j]
  {
    var n := |vs|;
    if i < n {
      assert vs[i] in vs && UserOk(ps, pd, vs[i]);
      if j < n {
        assert vs[j] in vs && UsersDiffer(ps, pd, vs[i], vs[j]);
      } else if j < n + |rs| {
        assert rs[j - n] in rs && UserNotTable(ps, pd, vs[i], rs[j - n]);
      }
    } else {
      assert rs[i - n] in rs && TableOk(ps, pd, rs[i - n]);
      if j < n + |rs| {
        assert rs[j - n] in rs && TablesDiffer(ps, pd, rs[i - n], rs[j - n]);
      }
    }
  }

  lemma OwnedListed(ps: Pages, pd: nat, vs: seq<nat>, rs: seq<nat>, f: nat)
    requires pd < |ps|
    requires forall v: nat :: v in vs <==> v < USERPAGES && Mapped(ps, pd, v)
    requires forall r: nat :: r in rs <==> r < NENTRIES && Present(Pde(ps, pd, r))
    ensures f in Frames(ps, pd, vs) + TableFrames(ps, pd, rs) + [pd] <==> Owns(ps, pd, f)
  {
    var us, ts := Frames(ps, pd, vs), TableFrames(ps, pd, rs);
    if i :| 0 <= i < |us| && us[i] == f {
      assert vs[i] in vs && OwnsUser(ps, pd, f);
    }
    if i :| 0 <= i < |ts| && ts[i] == f {
      assert rs[i] in rs && OwnsTable(ps, pd, f);
    }
    if v: nat :| v < USERPAGES && Mapped(ps, pd, v) && FrameOf(Pte(ps, pd, v)) == f {
      var i :| 0 <= i < |vs| && vs[i] == v;
      assert us[i] == f;
    }
    if r: nat :| r < NENTRIES && Present(Pde(ps, pd, r)) && FrameOf(Pde(ps, pd, r)) == f {
      var i :| 0 <= i < |rs| && rs[i] == r;
      assert ts[i] == f;
    }
  }

  function TableFrames(ps: Pages, pd: nat, rs: seq<nat>): (r: seq<nat>)
    requires pd < |ps| && forall r :: r in rs ==> r < NENTRIES
    ensures |r| == |rs|
  {
    seq(|rs|, i requires 0 <= i < |rs| => assert rs[i] in rs; FrameOf(Pde(ps, pd, rs[i])))
  }
}
