/** umalloc.c: the Kernighan and Ritchie allocator (The C Programming Language, 2nd edition,
    section 8.7) on a memory of header fields, against HeapModel. */
module Umalloc {
  import opened Common
  import opened HeapModel

  const NULL := 0
  const HEADER := 8
  const WRAP := 0x1_0000_0000

  /** malloc's nunits, computed in 32-bit unsigned arithmetic. */
  function UnitsFor(nbytes: nat): nat {
    (nbytes + HEADER - 1) % WRAP / HEADER + 1
  }

  /** A request is met in full exactly when rounding it up does not wrap. */
  lemma UnitsSuffice(nbytes: nat)
    requires nbytes < WRAP
    ensures (UnitsFor(nbytes) - 1) * HEADER >= nbytes <==> nbytes + HEADER - 1 < WRAP
  {
  }

  /** And then with no more than the header and seven bytes to spare. */
  lemma UnitsExact(nbytes: nat)
    requires nbytes + 7 < 0x1_0000_0000
    ensures 8 * UnitsFor(nbytes) - 16 < nbytes <= 8 * UnitsFor(nbytes) - 8
  {
  }

  // ---------- The circular list in memory ----------

  function Nxt(n: nat, i: nat): nat {
    if i + 1 < n then i + 1 else 0
  }

  /** Entry i of the list is stored at its address, pointing to the next entry around the ring. */
  predicate LinkedAt(ptr: map<int, int>, size: map<int, int>, fs: seq<Blk>, i: nat)
    requires i < |fs|
  {
    && fs[i].addr in ptr && fs[i].addr in size
    && size[fs[i].addr] == fs[i].size
    && ptr[fs[i].addr] == fs[Nxt(|fs|, i)].addr
  }

  predicate Linked(ptr: map<int, int>, size: map<int, int>, fs: seq<Blk>) {
    forall i {:trigger LinkedAt(ptr, size, fs, i)} :: 0 <= i < |fs| ==> LinkedAt(ptr, size, fs, i)
  }

  predicate LinkedBut(ptr: map<int, int>, size: map<int, int>, fs: seq<Blk>, k: nat) {
    forall i {:trigger LinkedAt(ptr, size, fs, i)} :: 0 <= i < |fs| && i != k ==> LinkedAt(ptr, size, fs, i)
  }

  /** Every allocated block's header still holds its size. */
  predicate SizesKept(size: map<int, int>, live: map<int, int>) {
    forall a :: a in live ==> a in size && size[a] == live[a]
  }

  lemma AddrsDiffer(fs: seq<Blk>, i: nat, j: nat)
    requires Ordered(fs) && i < |fs| && j < |fs| && i != j
    ensures fs[i].addr != fs[j].addr
  {
    if i < j {
      assert Gap(fs, i, j);
    } else {
      assert Gap(fs, j, i);
    }
  }

  /** First half of free, when the block touches the next entry: it swallows it. */
  lemma LinkNextJoined(ptr: map<int, int>, size: map<int, int>, fs: seq<Blk>, k: nat, b: Blk)
    requires Ordered(fs) && Between(fs, k, b) && Linked(ptr, size, fs) && JoinsNext(fs, k, b)
    ensures LinkedAt(ptr, size, fs, k) && LinkedAt(ptr, size, fs, k + 1)
    ensures var m := Blk(b.addr, b.size + fs[k + 1].size);
      LinkedBut(ptr[b.addr := ptr[fs[k + 1].addr]], size[b.addr := m.size], fs[k + 1 := m], k)
  {
    var m := Blk(b.addr, b.size + fs[k + 1].size);
    var r := fs[k + 1 := m];
    assert LinkedAt(ptr, size, fs, k) && LinkedAt(ptr, size, fs, k + 1);
    var ptr', size' := ptr[b.addr := ptr[fs[k + 1].addr]], size[b.addr := m.size];
    forall i | 0 <= i < |r| && i != k ensures LinkedAt(ptr', size', r, i) {
      assert LinkedAt(ptr, size, fs, i);
      NotListed(fs, k, b, i);
      assert Nxt(|fs|, i) != k + 1;
    }
  }

  /** An address between two entries is no entry's. */
  lemma NotListed(fs: seq<Blk>, k: nat, b: Blk, i: nat)
    requires Ordered(fs) && Between(fs, k, b) && i < |fs|
    ensures fs[i].addr != b.addr
  {
    if i <= k {
      assert i < k ==> Gap(fs, i, k);
    } else {
      assert i > k + 1 ==> Gap(fs, k + 1, i);
    }
  }

  /** First half of free otherwise: the block points past p. */
  lemma LinkNextApart(ptr: map<int, int>, size: map<int, int>, fs: seq<Blk>, k: nat, b: Blk)
    requires Ordered(fs) && Between(fs, k, b) && Linked(ptr, size, fs)
    requires b.addr in size && size[b.addr] == b.size
    ensures LinkedAt(ptr, size, fs, k)
    ensures LinkedBut(ptr[b.addr := ptr[fs[k].addr]], size, Splice(fs, k + 1, k + 1, b), k)
  {
    var r := Splice(fs, k + 1, k + 1, b);
    assert LinkedAt(ptr, size, fs, k);
    var ptr' := ptr[b.addr := ptr[fs[k].addr]];
    forall i | 0 <= i < |r| && i != k ensures LinkedAt(ptr', size, r, i) {
      if i != k + 1 {
        var j := if i < k then i else i - 1;
        assert LinkedAt(ptr, size, fs, j);
        NotListed(fs, k, b, j);
      }
    }
  }

  predicate Below(fs: seq<Blk>, i: nat, j: nat)
    requires i < |fs| && j < |fs|
  {
    fs[i].addr < fs[j].addr
  }

  predicate Ascending(fs: seq<Blk>) {
    forall i, j {:trigger Below(fs, i, j)} :: 0 <= i < j < |fs| ==> Below(fs, i, j)
  }

  /** Second half of free, when p touches what follows it: p swallows it. */
  lemma LinkPrevJoined(ptr: map<int, int>, size: map<int, int>, fs: seq<Blk>, k: nat)
    requires Ascending(fs) && k + 1 < |fs| && LinkedBut(ptr, size, fs, k)
    ensures LinkedAt(ptr, size, fs, k + 1)
    ensures var m := Blk(fs[k].addr, fs[k].size + fs[k + 1].size);
      Linked(ptr[m.addr := ptr[fs[k + 1].addr]], size[m.addr := m.size], Splice(fs, k, k + 2, m))
  {
    var m := Blk(fs[k].addr, fs[k].size + fs[k + 1].size);
    var r := Splice(fs, k, k + 2, m);
    assert LinkedAt(ptr, size, fs, k + 1);
    var ptr', size' := ptr[m.addr := ptr[fs[k + 1].addr]], size[m.addr := m.size];
    forall i | 0 <= i < |r| ensures LinkedAt(ptr', size', r, i) {
      if i < k {
        assert LinkedAt(ptr, size, fs, i) && r[i] == fs[i] && Below(fs, i, k);
      } else if i > k {
        assert LinkedAt(ptr, size, fs, i + 1) && r[i] == fs[i + 1] && Below(fs, k, i + 1);
      }
    }
  }

  /** Second half of free otherwise: p points to what follows it. */
  lemma LinkPrevApart(ptr: map<int, int>, size: map<int, int>, fs: seq<Blk>, k: nat)
    requires Ascending(fs) && k + 1 < |fs| && LinkedBut(ptr, size, fs, k)
    requires fs[k].addr in size && size[fs[k].addr] == fs[k].size
    ensures Linked(ptr[fs[k].addr := fs[k + 1].addr], size, fs)
  {
    var ptr' := ptr[fs[k].addr := fs[k + 1].addr];
    forall i | 0 <= i < |fs| ensures LinkedAt(ptr', size, fs, i) {
      if i != k {
        assert LinkedAt(ptr, size, fs, i);
        assert if i < k then Below(fs, i, k) else Below(fs, k, i);
      }
    }
  }

  /** Taking a whole entry out of the ring. */
  lemma LinkCutWhole(ptr: map<int, int>, size: map<int, int>, fs: seq<Blk>, k: nat)
    requires Ascending(fs) && k + 1 < |fs| && Linked(ptr, size, fs)
    ensures LinkedAt(ptr, size, fs, k) && LinkedAt(ptr, size, fs, k + 1)
    ensures Linked(ptr[fs[k].addr := ptr[fs[k + 1].addr]], size, fs[..k + 1] + fs[k + 2..])
  {
    var r := fs[..k + 1] + fs[k + 2..];
    assert LinkedAt(ptr, size, fs, k) && LinkedAt(ptr, size, fs, k + 1);
    var ptr' := ptr[fs[k].addr := ptr[fs[k + 1].addr]];
    forall i | 0 <= i < |r| ensures LinkedAt(ptr', size, r, i) {
      if i < k {
        assert LinkedAt(ptr, size, fs, i) && r[i] == fs[i] && Below(fs, i, k);
      } else if i > k {
        assert LinkedAt(ptr, size, fs, i + 1) && r[i] == fs[i + 1] && Below(fs, k, i + 1);
      } else {
        assert r[k] == fs[k];
      }
    }
  }

  /** Cutting the tail off an entry: the new header is written at an address outside the list. */
  lemma LinkCutTail(ptr: map<int, int>, size: map<int, int>, fs: seq<Blk>, i: nat, n: int)
    requires Ordered(fs) && Linked(ptr, size, fs) && 1 <= i < |fs| && 1 <= n < fs[i].size
    ensures Linked(ptr, size[fs[i].addr := fs[i].size - n][End(fs[i]) - n := n], Cut(fs, i, n))
  {
    var r := Cut(fs, i, n);
    var size' := size[fs[i].addr := fs[i].size - n][End(fs[i]) - n := n];
    forall j | 0 <= j < |r| ensures LinkedAt(ptr, size', r, j) {
      assert LinkedAt(ptr, size, fs, j);
      if j < i {
        assert Gap(fs, j, i);
      } else if j > i {
        assert Gap(fs, i, j);
      }
    }
  }

  lemma OrderedAscends(fs: seq<Blk>)
    requires Ordered(fs)
    ensures Ascending(fs)
  {
    forall i, j | 0 <= i < j < |fs| ensures Below(fs, i, j) {
      assert Gap(fs, i, j);
      assert i >= 1 ==> fs[i].size >= 1;
    }
  }

  /** The entry after which a block belongs. */
  ghost function LastBelow(fs: seq<Blk>, addr: int, n: nat): (k: nat)
    requires Ascending(fs) && 1 <= n <= |fs| && fs[0].addr < addr
    requires forall i :: 0 <= i < |fs| ==> fs[i].addr != addr
    requires n < |fs| ==> addr < fs[n].addr
    ensures k < |fs| && fs[k].addr < addr && (k + 1 < |fs| ==> addr < fs[k + 1].addr)
  {
    if fs[n - 1].addr < addr then n - 1 else LastBelow(fs, addr, n - 1)
  }

  /** An allocated block has a place in the list. */
  lemma PlaceExists(h: Heap, a: int) returns (k: nat)
    requires WellFormed(h) && a in h.live
    ensures Place(h.fs, k, LiveBlk(h.live, a))
  {
    OrderedAscends(h.fs);
    forall i | 0 <= i < |h.fs| ensures h.fs[i].addr != a {
      if i >= 1 {
        assert Separate(LiveBlk(h.live, a), h.fs[i]);
      }
    }
    k := LastBelow(h.fs, a, |h.fs|);
  }

  /** The loop of free stops at entry i exactly when i is the block's place. */
  lemma StopsAtPlace(fs: seq<Blk>, k: nat, i: nat, b: Blk)
    requires Ascending(fs) && |fs| >= 1 && Place(fs, k, b) && i < |fs| && fs[0].addr < b.addr
    ensures var p, q := fs[i].addr, fs[Nxt(|fs|, i)].addr;
      (b.addr > p && b.addr < q) || (p >= q && (b.addr > p || b.addr < q)) <==> i == k
  {
    assert i > 0 ==> Below(fs, 0, i);
    assert i + 1 < |fs| ==> Below(fs, i, i + 1);
    if i < k {
      assert i + 1 < k ==> Below(fs, i + 1, k);
    } else if i > k {
      assert k + 1 < i ==> Below(fs, k + 1, i);
    }
  }

  class Allocator {
    const base: int
    var ptr: map<int, int>
    var size: map<int, int>
    var freep: int
    ghost var h: Heap

    ghost predicate Valid()
      reads this
    {
      && base > NULL
      && if freep == NULL then h == Heap([Blk(base, 0)], map[], {})
         else
           && WellFormed(h) && h.fs[0].addr == base
           && Linked(ptr, size, h.fs) && SizesKept(size, h.live)
           && exists i :: 0 <= i < |h.fs| && h.fs[i].addr == freep
    }

    /** The static variables before the first call. */
    constructor (base: int)
      requires base > NULL
      ensures Valid() && this.base == base && freep == NULL
    {
      this.base, ptr, size, freep := base, map[], map[], NULL;
      h := Heap([Blk(base, 0)], map[], {});
    }

    /** free's search around the ring for the place of bp. */
    method FindPlace(bp: int) returns (p: int, ghost k: nat)
      requires Valid() && freep != NULL && bp in h.live
      ensures Place(h.fs, k, LiveBlk(h.live, bp)) && p == h.fs[k].addr
    {
      ghost var fs, b := h.fs, LiveBlk(h.live, bp);
      k := PlaceExists(h, bp);
      OrderedAscends(fs);
      p := freep;
      ghost var i: nat :| i < |fs| && fs[i].addr == freep;
      assert LinkedAt(ptr, size, fs, i);
      StopsAtPlace(fs, k, i, b);
      while !(bp > p && bp < ptr[p])
        invariant i < |fs| && p == fs[i].addr && LinkedAt(ptr, size, fs, i)
        invariant bp > p && bp < ptr[p] ==> i == k
        decreases if i <= k then k - i else k - i + |fs|
      {
        StopsAtPlace(fs, k, i, b);
        if p >= ptr[p] && (bp > p || bp < ptr[p]) {
          break;
        }
        p := ptr[p];
        i := Nxt(|fs|, i);
        assert LinkedAt(ptr, size, fs, i);
        StopsAtPlace(fs, k, i, b);
      }
      StopsAtPlace(fs, k, i, b);
    }

    /** free's first test: join the next entry, or point to it. */
    method LinkNext(p: int, bp: int, ghost k: nat)
      requires Ordered(h.fs) && Linked(ptr, size, h.fs) && bp in h.live && SizesKept(size, h.live)
      requires Between(h.fs, k, LiveBlk(h.live, bp)) && p == h.fs[k].addr
      modifies this`ptr, this`size
      ensures LinkedBut(ptr, size, StageNext(h.fs, k, LiveBlk(h.live, bp)), k)
      ensures forall c :: c in old(size) && c != bp ==> c in size && size[c] == old(size)[c]
    {
      ghost var fs, b, ptr0, size0 := h.fs, LiveBlk(h.live, bp), ptr, size;
      LinkNextTest(ptr, size, fs, k, b);
      if bp + size[bp] == ptr[p] {
        size := size[bp := size[bp] + size[ptr[p]]];
        ptr := ptr[bp := ptr[ptr[p]]];
      } else {
        ptr := ptr[bp := ptr[p]];
      }
      LinkNextDone(ptr0, size0, ptr, size, fs, k, b);
    }

    /** free's second test: join the previous entry, or be pointed to by it. */
    method LinkPrev(p: int, bp: int, ghost r: seq<Blk>, ghost k: nat)
      requires Ascending(r) && k + 1 < |r| && LinkedBut(ptr, size, r, k)
      requires p == r[k].addr && bp == r[k + 1].addr && p in size && size[p] == r[k].size
      modifies this`ptr, this`size
      ensures Linked(ptr, size, StagePrev(r, k))
      ensures forall c :: c in old(size) && c != p ==> c in size && size[c] == old(size)[c]
    {
      if p + size[p] == bp {
        LinkPrevJoined(ptr, size, r, k);
        size := size[p := size[p] + size[bp]];
        ptr := ptr[p := ptr[bp]];
      } else {
        LinkPrevApart(ptr, size, r, k);
        ptr := ptr[p := bp];
      }
    }

    method Link(p: int, bp: int, ghost k: nat)
      requires Ordered(h.fs) && Linked(ptr, size, h.fs) && bp in h.live && SizesKept(size, h.live)
      requires Between(h.fs, k, LiveBlk(h.live, bp)) && p == h.fs[k].addr
      modifies this`ptr, this`size
      ensures Linked(ptr, size, Inserted(h.fs, k, LiveBlk(h.live, bp)))
      ensures forall c :: c in old(size) && c != bp && c != p ==> c in size && size[c] == old(size)[c]
    {
      ghost var fs, b := h.fs, LiveBlk(h.live, bp);
      assert LinkedAt(ptr, size, fs, k);
      StageLists(fs, k, b);
      NotListed(fs, k, b, k);
      LinkNext(p, bp, k);
      LinkPrev(p, bp, StageNext(fs, k, b), k);
    }

    /** free: the block becomes free, joined with the free neighbours it touches. */
    method Free(ap: int) returns (ghost k: nat)
      requires Valid() && freep != NULL && ap - 1 in h.live
      modifies this`ptr, this`size, this`freep, this`h
      ensures Valid() && freep != NULL
      ensures Place(old(h.fs), k, LiveBlk(old(h.live), ap - 1)) && h == Freed(old(h), k, ap - 1)
      ensures k < |h.fs| && freep == h.fs[k].addr
    {
      var bp := ap - 1;
      var p;
      p, k := FindPlace(bp);
      PlaceBetween(h, k, bp);
      FreedWellFormed(h, k, bp);
      InsertedOrdered(h.fs, k, LiveBlk(h.live, bp));
      assert k > 0 ==> Gap(h.fs, 0, k);
      Link(p, bp, k);
      freep := p;
      LiveNotListed(h, k);
      h := Freed(h, k, bp);
      assert h.fs[k].addr == p;
    }

    /** morecore: nothing changes if sbrk fails; otherwise the list holds a block of nu units or more,
        at freep or right after it. */
    method MoreCore(nunits: nat, brk: Option<int>) returns (ok: bool)
      requires Valid() && freep != NULL && 1 <= nunits
      requires brk.Some? ==> Above(h, brk.value)
      modifies this`ptr, this`size, this`freep, this`h
      ensures Valid() && freep != NULL && ok == brk.Some?
      ensures !ok ==> h == old(h) && freep == old(freep)
      ensures ok ==> h.live == old(h.live) && h.arena == old(h.arena) + Units(brk.value, Request(nunits))
      ensures Request(nunits) == if nunits < 4096 then 4096 else nunits
      ensures ok ==> Room(h.fs, freep, nunits)
    {
      var nu := nunits;
      if nu < 4096 {
        nu := 4096;
      }
      if brk.None? {
        return false;
      }
      var hp := brk.value;
      GrownWellFormed(h, hp, nu);
      GrownNotListed(h, hp);
      assert Linked(ptr, size[hp := nu], h.fs) by { LinkedElsewhere(ptr, size, h.fs, hp, nu); }
      size := size[hp := nu];
      h := Grown(h, hp, nu);
      ghost var big := h;
      ghost var k := Free(hp + 1);
      GrownFreed(old(h), hp, nu, h, k);
      RoomAfter(big, k, hp, h, freep, nunits);
      ok := true;
    }

    /** The pointer and size changes of malloc's exit from its search. */
    method CutLinks(prevp: int, p: int, nunits: nat, ghost fs: seq<Blk>, ghost i: nat) returns (a: int)
      requires Ordered(fs) && Linked(ptr, size, fs)
      requires i + 1 < |fs| && prevp == fs[i].addr && p == fs[i + 1].addr && 1 <= nunits <= fs[i + 1].size
      modifies this`ptr, this`size
      ensures a == CutAt(fs, i + 1, nunits) && Linked(ptr, size, Cut(fs, i + 1, nunits))
      ensures a in size && size[a] == nunits
      ensures forall c :: c in old(size) && c != p && c != a ==> c in size && size[c] == old(size)[c]
    {
      OrderedAscends(fs);
      LinkCutWhole(ptr, size, fs, i);
      a := p;
      if size[p] == nunits {
        ptr := ptr[prevp := ptr[p]];
      } else {
        LinkCutTail(ptr, size, fs, i + 1, nunits);
        size := size[p := size[p] - nunits];
        a := p + size[p];
        size := size[a := nunits];
      }
    }

    /** malloc's exit from its search: cut nunits from entry i + 1, whose predecessor is prevp. */
    method CutEntry(prevp: int, p: int, nunits: nat, ghost i: nat) returns (a: int)
      requires Valid() && freep != NULL && i + 1 < |h.fs| && prevp == h.fs[i].addr && p == h.fs[i + 1].addr
      requires 1 <= nunits <= h.fs[i + 1].size
      modifies this`ptr, this`size, this`freep, this`h
      ensures Valid() && freep == prevp && freep != NULL
      ensures a == CutAt(old(h.fs), i + 1, nunits) && h == Taken(old(h), i + 1, nunits)
      ensures a !in old(h.live)
    {
      ghost var h0 := h;
      TakenWellFormed(h0, i + 1, nunits);
      CutOrdered(h0.fs, i + 1, nunits);
      LiveNotListed(h0, i + 1);
      assert i > 0 ==> Gap(h0.fs, 0, i);
      a := CutLinks(prevp, p, nunits, h0.fs, i);
      freep := prevp;
      h := Taken(h0, i + 1, nunits);
      assert h.fs[i] == h0.fs[i];
    }

    /** The first call makes a ring of base alone. */
    method Start()
      requires Valid()
      modifies this`ptr, this`size, this`freep
      ensures Valid() && freep != NULL
      ensures old(freep) != NULL ==> freep == old(freep)
    {
      if freep == NULL {
        freep := base;
        ptr := ptr[base := base];
        size := size[base := 0];
        EmptyHeap(base, ptr, size);
        assert h.fs[0].addr == freep;
      }
    }

    /** malloc's loop between two calls of morecore: one lap of the ring, starting after freep and
        ending at it, finds a fitting entry if there is one. */
    method Search(nunits: nat) returns (found: bool, prevp: int, p: int, ghost i: nat)
      requires Valid() && freep != NULL && nunits >= 1
      ensures found <==> !NoFit(h.fs, nunits)
      ensures found ==> i + 1 < |h.fs| && prevp == h.fs[i].addr && p == h.fs[i + 1].addr
      ensures found ==> h.fs[i + 1].size >= nunits
    {
      ghost var fs := h.fs;
      ghost var f: nat, d: nat := FreepIndex(), 0;
      i := f;
      assert LinkedAt(ptr, size, fs, i);
      prevp := freep;
      p := ptr[prevp];
      while true
        invariant d < |fs| && i == Rot(|fs|, f, d)
        invariant prevp == fs[i].addr && p == fs[Nxt(|fs|, i)].addr
        invariant Visited(fs, f, d, nunits)
        decreases |fs| - d
      {
        ghost var j := Nxt(|fs|, i);
        assert LinkedAt(ptr, size, fs, j);
        if size[p] >= nunits {
          assert j == i + 1;
          return true, prevp, p, i;
        }
        VisitNext(fs, f, d, nunits);
        if p == freep {
          LapOver(fs, f, d, nunits);
          return false, prevp, p, i;
        }
        NotOver(fs, f, d);
        d := d + 1;
        i := j;
        prevp := p;
        p := ptr[p];
      }
    }

    /** An entry that fits, after one call of sbrk if there was none; null if that call fails. */
    method FindFit(nunits: nat, brk: Option<int>) returns (found: bool, prevp: int, p: int, ghost i: nat)
      requires Valid() && freep != NULL && nunits >= 1
      requires brk.Some? ==> Above(h, brk.value)
      modifies this`ptr, this`size, this`freep, this`h
      ensures Valid() && freep != NULL && h.live == old(h.live)
      ensures !found <==> brk.None? && NoFit(old(h.fs), nunits)
      ensures !found ==> h == old(h)
      ensures found ==> i + 1 < |h.fs| && prevp == h.fs[i].addr && p == h.fs[i + 1].addr
      ensures found ==> h.fs[i + 1].size >= nunits
      ensures found ==>
        h.arena == old(h.arena) + if NoFit(old(h.fs), nunits) then Units(brk.value, Request(nunits)) else {}
    {
      found, prevp, p, i := Search(nunits);
      if !found {
        var ok := MoreCore(nunits, brk);
        if !ok {
          return;
        }
        found, prevp, p, i := Search(nunits);
      }
    }

    /** malloc: a block of UnitsFor(nbytes) units that nobody held, after at most one call of sbrk,
        which is made only when no free block fits; null exactly when that call fails.  After a
        successful morecore the next lap finds a fit, even if the new memory joined an old block. */
    method Malloc(nbytes: nat, brk: Option<int>) returns (r: Option<int>)
      requires Valid() && nbytes < WRAP
      requires brk.Some? ==> Above(h, brk.value)
      modifies this`ptr, this`size, this`freep, this`h
      ensures Valid() && freep != NULL
      ensures r.None? <==> brk.None? && NoFit(old(h.fs), UnitsFor(nbytes))
      ensures r.None? ==> h == old(h)
      ensures r.Some? ==> r.value - 1 !in old(h.live) && h.live == old(h.live)[r.value - 1 := UnitsFor(nbytes)]
      ensures r.Some? ==>
        h.arena == old(h.arena) +
          if NoFit(old(h.fs), UnitsFor(nbytes)) then Units(brk.value, Request(UnitsFor(nbytes))) else {}
    {
      var nunits := UnitsFor(nbytes);
      Start();
      var found, prevp, p, i := FindFit(nunits, brk);
      if !found {
        return None;
      }
      var a := CutEntry(prevp, p, nunits, i);
      return Some(a + 1);
    }

    ghost function FreepIndex(): (i: nat)
      requires Valid() && freep != NULL
      reads this
      ensures i < |h.fs| && h.fs[i].addr == freep
    {
      var i: nat :| i < |h.fs| && h.fs[i].addr == freep;
      i
    }
  }

  /** The entry e places around the ring from entry f. */
  function Rot(n: nat, f: nat, e: nat): nat
    requires f < n && e <= n
  {
    if f + e < n then f + e else f + e - n
  }

  ghost predicate NoFit(fs: seq<Blk>, nunits: nat) {
    forall j :: 0 <= j < |fs| ==> fs[j].size < nunits
  }

  /** The d entries after entry f are too small. */
  ghost predicate Visited(fs: seq<Blk>, f: nat, d: nat, nunits: nat)
    requires f < |fs| && d <= |fs|
  {
    forall e :: 1 <= e <= d ==> fs[Rot(|fs|, f, e)].size < nunits
  }

  lemma VisitNext(fs: seq<Blk>, f: nat, d: nat, nunits: nat)
    requires f < |fs| && d < |fs| && Visited(fs, f, d, nunits)
    requires fs[Nxt(|fs|, Rot(|fs|, f, d))].size < nunits
    ensures Rot(|fs|, f, d + 1) == Nxt(|fs|, Rot(|fs|, f, d)) && Visited(fs, f, d + 1, nunits)
  {
  }

  /** Back at freep, a whole lap has been made: nothing fits. */
  lemma LapOver(fs: seq<Blk>, f: nat, d: nat, nunits: nat)
    requires Ordered(fs) && f < |fs| && d < |fs| && Visited(fs, f, d + 1, nunits)
    requires fs[Rot(|fs|, f, d + 1)].addr == fs[f].addr
    ensures d + 1 == |fs| && NoFit(fs, nunits)
  {
    if Rot(|fs|, f, d + 1) != f {
      AddrsDiffer(fs, Rot(|fs|, f, d + 1), f);
    }
    forall j | 0 <= j < |fs| ensures fs[j].size < nunits {
      assert j == Rot(|fs|, f, if j > f then j - f else j - f + |fs|);
    }
  }

  lemma NotOver(fs: seq<Blk>, f: nat, d: nat)
    requires f < |fs| && d < |fs| && fs[Rot(|fs|, f, d + 1)].addr != fs[f].addr
    ensures d + 1 < |fs|
  {
  }

  /** The ring malloc starts with: base alone, pointing to itself. */
  lemma EmptyHeap(base: int, ptr: map<int, int>, size: map<int, int>)
    requires base in ptr && base in size && ptr[base] == base && size[base] == 0
    ensures WellFormed(Heap([Blk(base, 0)], map[], {})) && Linked(ptr, size, [Blk(base, 0)])
  {
    assert forall u :: !InFree([Blk(base, 0)], u);
  }

  /** The units morecore asks sbrk for. */
  function Request(nunits: nat): nat {
    if nunits < 4096 then 4096 else nunits
  }

  /** The list has a block of n units or more, at a or right after it. */
  ghost predicate Room(fs: seq<Blk>, a: int, n: nat) {
    exists j :: 1 <= j < |fs| && fs[j].size >= n && (a == fs[j].addr || a == fs[j - 1].addr)
  }

  lemma RoomAfter(h: Heap, k: nat, bp: int, h': Heap, a: int, n: nat)
    requires WellFormed(h) && bp in h.live && Place(h.fs, k, LiveBlk(h.live, bp)) && h.live[bp] >= n
    requires h' == Freed(h, k, bp) && k < |h'.fs| && a == h'.fs[k].addr
    ensures Room(h'.fs, a, n)
  {
    var b := LiveBlk(h.live, bp);
    PlaceBetween(h, k, bp);
    var x := if JoinsPrev(h.fs, k, b) then k else k + 1;
    assert h'.fs[x] == Merged(h.fs, k, b);
    assert x == k ==> k >= 1;
  }

  lemma GrownNotListed(h: Heap, addr: int)
    requires WellFormed(h) && Above(h, addr)
    ensures forall i :: 0 <= i < |h.fs| ==> h.fs[i].addr != addr
  {
    forall i | 0 <= i < |h.fs| ensures h.fs[i].addr != addr {
      if i >= 1 {
        assert Holds(h.fs[i], h.fs[i].addr);
        assert InFree(h.fs, h.fs[i].addr);
      }
    }
  }

  lemma LinkedElsewhere(ptr: map<int, int>, size: map<int, int>, fs: seq<Blk>, a: int, n: int)
    requires Linked(ptr, size, fs) && forall i :: 0 <= i < |fs| ==> fs[i].addr != a
    ensures Linked(ptr, size[a := n], fs)
  {
    var size' := size[a := n];
    forall i | 0 <= i < |fs| ensures LinkedAt(ptr, size', fs, i) {
      assert LinkedAt(ptr, size, fs, i);
    }
  }

  /** Freeing what sbrk brought leaves the blocks in use as they were. */
  lemma GrownFreed(h: Heap, hp: int, nu: nat, h': Heap, k: nat)
    requires hp !in h.live && k < |h.fs| && h' == Freed(Grown(h, hp, nu), k, hp)
    ensures h'.live == h.live && h'.arena == h.arena + Units(hp, nu)
  {
  }

  lemma LiveNotListed(h: Heap, k: nat)
    requires WellFormed(h) && k < |h.fs|
    ensures h.fs[k].addr !in h.live
  {
    forall a | a in h.live ensures a != h.fs[k].addr {
      if k >= 1 {
        assert Separate(LiveBlk(h.live, a), h.fs[k]);
      }
    }
  }

  /** The list between the two halves of free. */
  function StageNext(fs: seq<Blk>, k: nat, b: Blk): seq<Blk>
    requires k < |fs|
  {
    if JoinsNext(fs, k, b) then fs[k + 1 := Blk(b.addr, b.size + fs[k + 1].size)] else Splice(fs, k + 1, k + 1, b)
  }

  /** What free's first test finds out. */
  lemma LinkNextTest(ptr: map<int, int>, size: map<int, int>, fs: seq<Blk>, k: nat, b: Blk)
    requires Ordered(fs) && Between(fs, k, b) && Linked(ptr, size, fs)
    ensures LinkedAt(ptr, size, fs, k) && LinkedAt(ptr, size, fs, Nxt(|fs|, k)) && fs[k].addr != b.addr
    ensures End(b) == ptr[fs[k].addr] <==> JoinsNext(fs, k, b)
    ensures fs[Nxt(|fs|, k)].addr != b.addr
  {
    StageLists(fs, k, b);
    NotListed(fs, k, b, k);
    NotListed(fs, k, b, Nxt(|fs|, k));
    assert LinkedAt(ptr, size, fs, k) && LinkedAt(ptr, size, fs, Nxt(|fs|, k));
  }

  lemma LinkNextDone(ptr0: map<int, int>, size0: map<int, int>, ptr: map<int, int>, size: map<int, int>,
                     fs: seq<Blk>, k: nat, b: Blk)
    requires Ordered(fs) && Between(fs, k, b) && Linked(ptr0, size0, fs)
    requires LinkedAt(ptr0, size0, fs, k) && LinkedAt(ptr0, size0, fs, Nxt(|fs|, k))
    requires b.addr in size0 && size0[b.addr] == b.size
    requires size == if JoinsNext(fs, k, b) then size0[b.addr := b.size + fs[k + 1].size] else size0
    requires ptr == ptr0[b.addr := if JoinsNext(fs, k, b) then ptr0[fs[k + 1].addr] else ptr0[fs[k].addr]]
    ensures LinkedBut(ptr, size, StageNext(fs, k, b), k)
    ensures forall c :: c in size0 && c != b.addr ==> c in size && size[c] == size0[c]
  {
    if JoinsNext(fs, k, b) {
      LinkNextJoined(ptr0, size0, fs, k, b);
    } else {
      LinkNextApart(ptr0, size0, fs, k, b);
    }
  }

  /** The list after both halves. */
  function StagePrev(r: seq<Blk>, k: nat): seq<Blk>
    requires k + 1 < |r|
  {
    if End(r[k]) == r[k + 1].addr then Splice(r, k, k + 2, Blk(r[k].addr, r[k].size + r[k + 1].size)) else r
  }

  lemma StageLists(fs: seq<Blk>, k: nat, b: Blk)
    requires Ordered(fs) && Between(fs, k, b)
    ensures var r := StageNext(fs, k, b);
      && Ascending(r) && k + 1 < |r| && r[k] == fs[k] && r[k + 1].addr == b.addr
      && (JoinsNext(fs, k, b) <==> End(b) == fs[Nxt(|fs|, k)].addr)
      && Inserted(fs, k, b) == StagePrev(r, k)
  {
    var r := StageNext(fs, k, b);
    OrderedAscends(fs);
    forall i, j | 0 <= i < j < |r| ensures Below(r, i, j) {
      StageAscends(fs, k, b, i, j);
    }
    assert Inserted(fs, k, b) == StagePrev(r, k);
  }

  lemma StageAscends(fs: seq<Blk>, k: nat, b: Blk, i: nat, j: nat)
    requires Ordered(fs) && Between(fs, k, b) && Ascending(fs)
    requires i < j < |StageNext(fs, k, b)|
    ensures Below(StageNext(fs, k, b), i, j)
  {
    var r := StageNext(fs, k, b);
    var off := if JoinsNext(fs, k, b) then 0 else 1;
    if j == k + 1 {
      assert r[i] == fs[i] && (i < k ==> Below(fs, i, k));
    } else if i == k + 1 {
      assert r[j] == fs[j - off] && (k + 1 < j - off ==> Below(fs, k + 1, j - off));
    } else {
      var i' := if i <= k then i else i - off;
      var j' := if j <= k then j else j - off;
      assert r[i] == fs[i'] && r[j] == fs[j'] && Below(fs, i', j');
    }
  }
}
