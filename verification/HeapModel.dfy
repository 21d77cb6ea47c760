/** The value that umalloc.c's memory stands for: an address-ordered list of free blocks, the blocks
    handed out, and the units obtained from sbrk.  Addresses and sizes are in header units. */
module HeapModel {

  datatype Blk = Blk(addr: int, size: int)

  function End(b: Blk): int { b.addr + b.size }

  predicate Holds(b: Blk, u: int) { b.addr <= u < End(b) }

  predicate Separate(a: Blk, b: Blk) { End(a) <= b.addr || End(b) <= a.addr }

  /** fs[0] is `base`, the zero-sized list head; `live` maps each allocated header to its size. */
  datatype Heap = Heap(fs: seq<Blk>, live: map<int, int>, arena: set<int>)

  ghost predicate InFree(fs: seq<Blk>, u: int) {
    exists i :: 1 <= i < |fs| && Holds(fs[i], u)
  }

  function LiveBlk(live: map<int, int>, a: int): Blk
    requires a in live
  {
    Blk(a, live[a])
  }

  ghost predicate InLive(live: map<int, int>, u: int) {
    exists a :: a in live && Holds(LiveBlk(live, a), u)
  }

  /** Entry i ends before entry j starts, without touching it. */
  predicate Gap(fs: seq<Blk>, i: nat, j: nat)
    requires i < |fs| && j < |fs|
  {
    End(fs[i]) < fs[j].addr
  }

  /** Address order, and no two listed neighbours touch. */
  predicate Ordered(fs: seq<Blk>) {
    && |fs| >= 1 && fs[0].size == 0
    && (forall i :: 1 <= i < |fs| ==> fs[i].size >= 1)
    && (forall i, j {:trigger Gap(fs, i, j)} :: 0 <= i < j < |fs| ==> Gap(fs, i, j))
  }

  /** Allocated blocks are disjoint from each other and from every free block. */
  predicate Disjoint(fs: seq<Blk>, live: map<int, int>)
    requires |fs| >= 1
  {
    && (forall a :: a in live ==> live[a] >= 1 && a > fs[0].addr)
    && (forall a, b :: a in live && b in live && a != b ==> Separate(LiveBlk(live, a), LiveBlk(live, b)))
    && (forall a, i :: a in live && 1 <= i < |fs| ==> Separate(LiveBlk(live, a), fs[i]))
  }

  /** Every unit obtained from sbrk is free or allocated, and no other unit is. */
  ghost predicate Accounted(h: Heap) {
    forall u :: u in h.arena <==> InFree(h.fs, u) || InLive(h.live, u)
  }

  ghost predicate WellFormed(h: Heap) {
    Ordered(h.fs) && Disjoint(h.fs, h.live) && Accounted(h)
  }

  // ---------- free ----------

  /** The place where b belongs: after entry k, which is the last entry below it. */
  predicate Place(fs: seq<Blk>, k: nat, b: Blk) {
    && k < |fs| && fs[k].addr < b.addr
    && (k + 1 < |fs| ==> b.addr < fs[k + 1].addr)
  }

  predicate JoinsPrev(fs: seq<Blk>, k: nat, b: Blk)
    requires k < |fs|
  {
    End(fs[k]) == b.addr
  }

  predicate JoinsNext(fs: seq<Blk>, k: nat, b: Blk) {
    k + 1 < |fs| && End(b) == fs[k + 1].addr
  }

  /** b together with the listed neighbours it touches. */
  function Merged(fs: seq<Blk>, k: nat, b: Blk): Blk
    requires k < |fs|
  {
    var lo := if JoinsPrev(fs, k, b) then fs[k].addr else b.addr;
    var hi := if JoinsNext(fs, k, b) then End(fs[k + 1]) else End(b);
    Blk(lo, hi - lo)
  }

  /** fs with entries x, ..., y - 1 replaced by m. */
  function Splice(fs: seq<Blk>, x: nat, y: nat, m: Blk): (r: seq<Blk>)
    requires x <= y <= |fs|
    ensures |r| == |fs| - (y - x) + 1 && r[x] == m
    ensures forall i :: 0 <= i < x ==> r[i] == fs[i]
    ensures forall i :: x < i < |r| ==> r[i] == fs[i - x - 1 + y]
  {
    fs[..x] + [m] + fs[y..]
  }

  /** The list after b has been put in after entry k. */
  function Inserted(fs: seq<Blk>, k: nat, b: Blk): seq<Blk>
    requires k < |fs|
  {
    Splice(fs, if JoinsPrev(fs, k, b) then k else k + 1, if JoinsNext(fs, k, b) then k + 2 else k + 1, Merged(fs, k, b))
  }

  lemma SpliceOrdered(fs: seq<Blk>, x: nat, y: nat, m: Blk)
    requires Ordered(fs) && 1 <= x <= y <= |fs| && m.size >= 1
    requires End(fs[x - 1]) < m.addr && (y < |fs| ==> End(m) < fs[y].addr)
    ensures Ordered(Splice(fs, x, y, m))
  {
    var r := Splice(fs, x, y, m);
    forall i, j | 0 <= i < j < |r| ensures Gap(r, i, j) {
      var i' := if i < x then i else i - x - 1 + y;
      var j' := if j < x then j else j - x - 1 + y;
      if j < x || i > x {
        assert Gap(fs, i', j');
      } else if j == x {
        assert i < x - 1 ==> Gap(fs, i, x - 1);
      } else {
        assert j' > y ==> Gap(fs, y, j');
        assert i < x - 1 ==> Gap(fs, i, x - 1);
      }
    }
  }

  /** u is in an entry of fs other than x, ..., y - 1. */
  ghost predicate Kept(fs: seq<Blk>, x: nat, y: nat, u: int) {
    exists i :: 1 <= i < |fs| && (i < x || y <= i) && Holds(fs[i], u)
  }

  /** The units of a splice: those of m and of the entries kept. */
  lemma SpliceUnits(fs: seq<Blk>, x: nat, y: nat, m: Blk, u: int)
    requires 1 <= x <= y <= |fs|
    ensures InFree(Splice(fs, x, y, m), u) <==> Holds(m, u) || Kept(fs, x, y, u)
  {
    var r := Splice(fs, x, y, m);
    if i :| 1 <= i < |fs| && (i < x || y <= i) && Holds(fs[i], u) {
      assert Holds(r[if i < x then i else i - y + x + 1], u);
    }
    if Holds(m, u) {
      assert Holds(r[x], u);
    }
    if i :| 1 <= i < |r| && Holds(r[i], u) && i != x {
      var j := if i < x then i else i - x - 1 + y;
      assert Holds(fs[j], u);
    }
  }

  function Freed(h: Heap, k: nat, a: int): Heap
    requires a in h.live && k < |h.fs|
  {
    Heap(Inserted(h.fs, k, LiveBlk(h.live, a)), h.live - {a}, h.arena)
  }

  /** b lies after entry k and before the next, overlapping neither. */
  predicate Between(fs: seq<Blk>, k: nat, b: Blk) {
    && k < |fs| && b.size >= 1 && End(fs[k]) <= b.addr && fs[0].addr < b.addr
    && (k + 1 < |fs| ==> End(b) <= fs[k + 1].addr)
  }

  lemma PlaceBetween(h: Heap, k: nat, a: int)
    requires WellFormed(h) && a in h.live && Place(h.fs, k, LiveBlk(h.live, a))
    ensures Between(h.fs, k, LiveBlk(h.live, a))
  {
    var b := LiveBlk(h.live, a);
    if k >= 1 {
      assert Separate(b, h.fs[k]);
    }
    if k + 1 < |h.fs| {
      assert Separate(b, h.fs[k + 1]);
    }
  }

  lemma InsertedOrdered(fs: seq<Blk>, k: nat, b: Blk)
    requires Ordered(fs) && Between(fs, k, b)
    ensures Ordered(Inserted(fs, k, b)) && Inserted(fs, k, b)[0] == fs[0]
  {
    assert k >= 1 ==> Gap(fs, k - 1, k);
    assert k + 2 < |fs| ==> Gap(fs, k + 1, k + 2);
    SpliceOrdered(fs, if JoinsPrev(fs, k, b) then k else k + 1, if JoinsNext(fs, k, b) then k + 2 else k + 1,
                  Merged(fs, k, b));
  }

  /** A unit is in the list after insertion exactly when it was in it or is one of b's. */
  lemma InsertedUnits(fs: seq<Blk>, k: nat, b: Blk, u: int)
    requires Ordered(fs) && Between(fs, k, b)
    ensures InFree(Inserted(fs, k, b), u) <==> InFree(fs, u) || Holds(b, u)
  {
    var x := if JoinsPrev(fs, k, b) then k else k + 1;
    var y := if JoinsNext(fs, k, b) then k + 2 else k + 1;
    SpliceUnits(fs, x, y, Merged(fs, k, b), u);
    MergedUnits(fs, k, b, u);
    KeptOrReplaced(fs, x, y, u);
  }

  lemma KeptOrReplaced(fs: seq<Blk>, x: nat, y: nat, u: int)
    requires 1 <= x <= y <= |fs|
    ensures InFree(fs, u) <==> Kept(fs, x, y, u) || exists i :: x <= i < y && Holds(fs[i], u)
  {
    if i :| 1 <= i < |fs| && Holds(fs[i], u) {
      if i < x || y <= i {
        assert Kept(fs, x, y, u);
      }
    }
  }

  lemma MergedUnits(fs: seq<Blk>, k: nat, b: Blk, u: int)
    requires Ordered(fs) && Between(fs, k, b)
    ensures Holds(Merged(fs, k, b), u) <==>
      Holds(b, u) || (JoinsPrev(fs, k, b) && Holds(fs[k], u)) || (JoinsNext(fs, k, b) && Holds(fs[k + 1], u))
  {
  }

  /** Blocks that share no unit with the inserted one or with the list are apart from the new list. */
  lemma InsertedSeparate(fs: seq<Blk>, k: nat, b: Blk, c: Blk)
    requires Ordered(fs) && Between(fs, k, b) && c.size >= 1
    requires Separate(c, b) && forall i :: 1 <= i < |fs| ==> Separate(c, fs[i])
    ensures forall i :: 1 <= i < |Inserted(fs, k, b)| ==> Separate(c, Inserted(fs, k, b)[i])
  {
    var x := if JoinsPrev(fs, k, b) then k else k + 1;
    var y := if JoinsNext(fs, k, b) then k + 2 else k + 1;
    var r := Inserted(fs, k, b);
    forall i | 1 <= i < |r| ensures Separate(c, r[i]) {
      if i < x {
        assert r[i] == fs[i];
      } else if i > x {
        assert r[i] == fs[i - x - 1 + y];
      } else {
        assert r[i] == Merged(fs, k, b);
        assert JoinsPrev(fs, k, b) ==> Separate(c, fs[k]);
        assert JoinsNext(fs, k, b) ==> Separate(c, fs[k + 1]);
      }
    }
  }

  /** free keeps the heap well formed, whatever the block touches. */
  lemma FreedWellFormed(h: Heap, k: nat, a: int)
    requires WellFormed(h) && a in h.live && Place(h.fs, k, LiveBlk(h.live, a))
    ensures WellFormed(Freed(h, k, a))
  {
    var h', b := Freed(h, k, a), LiveBlk(h.live, a);
    PlaceBetween(h, k, a);
    InsertedOrdered(h.fs, k, b);
    forall c | c in h'.live ensures forall i :: 1 <= i < |h'.fs| ==> Separate(LiveBlk(h'.live, c), h'.fs[i]) {
      assert LiveBlk(h'.live, c) == LiveBlk(h.live, c);
      InsertedSeparate(h.fs, k, b, LiveBlk(h.live, c));
    }
    forall c, d | c in h'.live && d in h'.live && c != d
      ensures Separate(LiveBlk(h'.live, c), LiveBlk(h'.live, d))
    {
      assert Separate(LiveBlk(h.live, c), LiveBlk(h.live, d));
    }
    assert Disjoint(h'.fs, h'.live);
    forall u ensures u in h'.arena <==> InFree(h'.fs, u) || InLive(h'.live, u) {
      InsertedUnits(h.fs, k, b, u);
      LiveUnits(h.live, a, u);
    }
  }

  lemma LiveUnits(live: map<int, int>, a: int, u: int)
    requires a in live
    ensures InLive(live, u) <==> Holds(LiveBlk(live, a), u) || InLive(live - {a}, u)
  {
    if c :| c in live && Holds(LiveBlk(live, c), u) {
      if c != a {
        assert c in live - {a} && LiveBlk(live - {a}, c) == LiveBlk(live, c);
      }
    }
    if c :| c in live - {a} && Holds(LiveBlk(live - {a}, c), u) {
      assert LiveBlk(live, c) == LiveBlk(live - {a}, c);
    }
  }

  // ---------- malloc ----------

  /** The header of the n units cut from the end of entry i. */
  function CutAt(fs: seq<Blk>, i: nat, n: int): int
    requires i < |fs|
  {
    End(fs[i]) - n
  }

  /** The list after n units have been cut from the end of entry i. */
  function Cut(fs: seq<Blk>, i: nat, n: int): seq<Blk>
    requires i < |fs|
  {
    if fs[i].size == n then fs[..i] + fs[i + 1..] else fs[i := Blk(fs[i].addr, fs[i].size - n)]
  }

  function Taken(h: Heap, i: nat, n: int): Heap
    requires i < |h.fs|
  {
    Heap(Cut(h.fs, i, n), h.live[CutAt(h.fs, i, n) := n], h.arena)
  }

  lemma CutOrdered(fs: seq<Blk>, i: nat, n: int)
    requires Ordered(fs) && 1 <= i < |fs| && 1 <= n <= fs[i].size
    ensures Ordered(Cut(fs, i, n)) && Cut(fs, i, n)[0] == fs[0]
  {
    var r := Cut(fs, i, n);
    if fs[i].size == n {
      assert forall j :: 0 <= j < |r| ==> r[j] == fs[if j < i then j else j + 1];
    }
    forall j, k | 0 <= j < k < |r| ensures Gap(r, j, k) {
      assert Gap(fs, if fs[i].size == n && j >= i then j + 1 else j, if fs[i].size == n && k >= i then k + 1 else k);
    }
  }

  lemma CutUnits(fs: seq<Blk>, i: nat, n: int, u: int)
    requires Ordered(fs) && 1 <= i < |fs| && 1 <= n <= fs[i].size
    ensures InFree(fs, u) <==> InFree(Cut(fs, i, n), u) || Holds(Blk(CutAt(fs, i, n), n), u)
  {
    var r := Cut(fs, i, n);
    if j :| 1 <= j < |fs| && Holds(fs[j], u) {
      if fs[i].size == n {
        assert j < i ==> r[j] == fs[j];
        assert j > i ==> r[j - 1] == fs[j];
      } else {
        assert j != i ==> r[j] == fs[j];
        assert r[i] == Blk(fs[i].addr, fs[i].size - n);
      }
    }
    if j :| 1 <= j < |r| && Holds(r[j], u) {
      assert Holds(fs[if fs[i].size == n && j >= i then j + 1 else j], u);
    }
    if Holds(Blk(CutAt(fs, i, n), n), u) {
      assert Holds(fs[i], u);
    }
  }

  /** A block apart from every entry is apart from what is left and from what is cut. */
  lemma CutSeparate(fs: seq<Blk>, i: nat, n: int, c: Blk)
    requires Ordered(fs) && 1 <= i < |fs| && 1 <= n <= fs[i].size && c.size >= 1
    requires forall j :: 1 <= j < |fs| ==> Separate(c, fs[j])
    ensures Separate(c, Blk(CutAt(fs, i, n), n))
    ensures forall j :: 1 <= j < |Cut(fs, i, n)| ==> Separate(c, Cut(fs, i, n)[j])
  {
    var r := Cut(fs, i, n);
    assert Separate(c, fs[i]);
    forall j | 1 <= j < |r| ensures Separate(c, r[j]) {
      assert Separate(c, fs[if fs[i].size == n && j >= i then j + 1 else j]);
    }
  }

  lemma CutApart(fs: seq<Blk>, i: nat, n: int)
    requires Ordered(fs) && 1 <= i < |fs| && 1 <= n <= fs[i].size
    ensures forall j :: 1 <= j < |Cut(fs, i, n)| ==> Separate(Blk(CutAt(fs, i, n), n), Cut(fs, i, n)[j])
  {
    var r := Cut(fs, i, n);
    forall j | 1 <= j < |r| ensures Separate(Blk(CutAt(fs, i, n), n), r[j]) {
      var j' := if fs[i].size == n && j >= i then j + 1 else j;
      if j' < i {
        assert Gap(fs, j', i);
      } else if j' > i {
        assert Gap(fs, i, j');
      }
    }
  }

  /** malloc's cut keeps the heap well formed: the block handed out was free and is nobody else's. */
  lemma TakenWellFormed(h: Heap, i: nat, n: int)
    requires WellFormed(h) && 1 <= i < |h.fs| && 1 <= n <= h.fs[i].size
    ensures CutAt(h.fs, i, n) !in h.live && WellFormed(Taken(h, i, n))
  {
    var h', a := Taken(h, i, n), CutAt(h.fs, i, n);
    CutOrdered(h.fs, i, n);
    CutApart(h.fs, i, n);
    assert LiveBlk(h'.live, a) == Blk(a, n);
    assert h.fs[0].addr < a by { assert Gap(h.fs, 0, i); }
    forall c | c in h.live
      ensures Separate(LiveBlk(h.live, c), Blk(a, n))
      ensures forall j :: 1 <= j < |h'.fs| ==> Separate(LiveBlk(h.live, c), h'.fs[j])
    {
      CutSeparate(h.fs, i, n, LiveBlk(h.live, c));
    }
    assert a !in h.live;
    forall c | c in h'.live && c != a ensures LiveBlk(h'.live, c) == LiveBlk(h.live, c) {
    }
    forall c, d | c in h'.live && d in h'.live && c != d
      ensures Separate(LiveBlk(h'.live, c), LiveBlk(h'.live, d))
    {
      if c != a && d != a {
        assert Separate(LiveBlk(h.live, c), LiveBlk(h.live, d));
      }
    }
    assert Disjoint(h'.fs, h'.live);
    assert h'.live - {a} == h.live;
    forall u ensures u in h'.arena <==> InFree(h'.fs, u) || InLive(h'.live, u) {
      CutUnits(h.fs, i, n, u);
      LiveUnits(h'.live, a, u);
    }
  }

  // ---------- sbrk ----------

  function Units(addr: int, n: nat): (s: set<int>)
    ensures forall u :: u in s <==> addr <= u < addr + n
  {
    if n == 0 then {} else Units(addr, n - 1) + {addr + n - 1}
  }

  /** Memory new to the heap lies above everything it had before. */
  predicate Above(h: Heap, addr: int) {
    |h.fs| >= 1 && h.fs[0].addr < addr && forall u :: u in h.arena ==> u < addr
  }

  /** morecore's new region, as a block about to be freed. */
  function Grown(h: Heap, addr: int, n: nat): Heap {
    Heap(h.fs, h.live[addr := n], h.arena + Units(addr, n))
  }

  lemma GrownWellFormed(h: Heap, addr: int, n: nat)
    requires WellFormed(h) && Above(h, addr) && n >= 1
    ensures addr !in h.live && WellFormed(Grown(h, addr, n))
  {
    var h' := Grown(h, addr, n);
    assert LiveBlk(h'.live, addr) == Blk(addr, n);
    forall c | c in h.live ensures End(LiveBlk(h.live, c)) <= addr {
      assert Holds(LiveBlk(h.live, c), End(LiveBlk(h.live, c)) - 1);
      assert InLive(h.live, End(LiveBlk(h.live, c)) - 1);
    }
    forall i | 1 <= i < |h.fs| ensures End(h.fs[i]) <= addr {
      assert Holds(h.fs[i], End(h.fs[i]) - 1);
      assert InFree(h.fs, End(h.fs[i]) - 1);
    }
    assert addr !in h.live;
    forall c | c in h'.live && c != addr ensures LiveBlk(h'.live, c) == LiveBlk(h.live, c) {
    }
    forall c, d | c in h'.live && d in h'.live && c != d
      ensures Separate(LiveBlk(h'.live, c), LiveBlk(h'.live, d))
    {
      if c != addr && d != addr {
        assert Separate(LiveBlk(h.live, c), LiveBlk(h.live, d));
      }
    }
    assert Disjoint(h'.fs, h'.live);
    assert h'.live - {addr} == h.live;
    forall u ensures u in h'.arena <==> InFree(h'.fs, u) || InLive(h'.live, u) {
      LiveUnits(h'.live, addr, u);
    }
  }

  // ---------- Whole runs ----------

  datatype Action =
    | Malloc(entry: nat, n: nat)
    | Free(place: nat, addr: int)
    | Sbrk(addr: int, n: nat)

  /** What malloc and free do to the heap, and the arrival of new memory from sbrk. */
  predicate Enabled(h: Heap, a: Action) {
    match a
    case Malloc(i, n) => 1 <= i < |h.fs| && 1 <= n <= h.fs[i].size
    case Free(k, addr) => addr in h.live && Place(h.fs, k, LiveBlk(h.live, addr))
    case Sbrk(addr, n) => Above(h, addr) && n >= 1
  }

  function Apply(h: Heap, a: Action): Heap
    requires Enabled(h, a)
  {
    match a
    case Malloc(i, n) => Taken(h, i, n)
    case Free(k, addr) => Freed(h, k, addr)
    case Sbrk(addr, n) => Grown(h, addr, n)
  }

  predicate Run(hs: seq<Heap>, acts: seq<Action>, base: int) {
    && |hs| == |acts| + 1 && hs[0] == Heap([Blk(base, 0)], map[], {})
    && forall i :: 0 <= i < |acts| ==> Enabled(hs[i], acts[i]) && hs[i + 1] == Apply(hs[i], acts[i])
  }

  lemma EmptyWellFormed(base: int)
    ensures WellFormed(Heap([Blk(base, 0)], map[], {}))
  {
    assert forall u :: !InFree([Blk(base, 0)], u);
  }

  /** After any run the free list is address-ordered with no touching neighbours, all blocks are
      disjoint, and the units from sbrk are exactly the free and the allocated ones. */
  lemma {:induction false} RunWellFormed(hs: seq<Heap>, acts: seq<Action>, base: int, k: nat)
    requires Run(hs, acts, base) && k < |hs|
    ensures WellFormed(hs[k]) && hs[k].fs[0] == Blk(base, 0)
  {
    if k == 0 {
      EmptyWellFormed(base);
    } else {
      RunWellFormed(hs, acts, base, k - 1);
      var h := hs[k - 1];
      match acts[k - 1] {
        case Malloc(i, n) => TakenWellFormed(h, i, n); CutOrdered(h.fs, i, n);
        case Free(j, addr) =>
          FreedWellFormed(h, j, addr);
          PlaceBetween(h, j, addr);
          InsertedOrdered(h.fs, j, LiveBlk(h.live, addr));
        case Sbrk(addr, n) => GrownWellFormed(h, addr, n);
      }
    }
  }

  /** Conservation: no unit is both free and allocated, so the two counts add up to sbrk's. */
  lemma UnitsConserved(h: Heap, free: set<int>, used: set<int>)
    requires WellFormed(h)
    requires free == set u | u in h.arena && InFree(h.fs, u)
    requires used == set u | u in h.arena && InLive(h.live, u)
    ensures |free| + |used| == |h.arena|
  {
    assert free + used == h.arena && free !! used;
  }
}
