/** The buffer cache as a value (bio.c with memide.c's iderw and log.c's pinning): which block each
    buffer holds, the flags, the disk, and the flat block map that callers of bread are promised. */
module CacheModel {
  import opened BlockWords

  const UNUSED_DEV := -1
  const DISK_DEV := 1

  datatype Buf = Buf(busy: bool, valid: bool, dirty: bool, dev: int, blockno: nat, data: Block)

  /** `flat` holds the latest contents of every block: what was last passed to bwrite or log_write.
      `order` lists the buffers from most to least recently released, `stamps` when each was. */
  datatype Cache = Cache(bufs: seq<Buf>, disk: Disk, flat: Disk, order: seq<nat>, stamps: seq<nat>, clock: nat)

  predicate Holds(b: Buf, blockno: nat) {
    b.dev == DISK_DEV && b.blockno == blockno
  }

  predicate BufOk(c: Cache, i: nat)
    requires i < |c.bufs| && |c.disk| == |c.flat|
  {
    var b := c.bufs[i];
    && (b.dev == UNUSED_DEV || (b.dev == DISK_DEV && b.blockno < |c.disk|))
    && (b.dirty ==> b.valid) && (b.valid ==> b.dev == DISK_DEV)
    && (b.valid && !b.busy ==> b.data == c.flat[b.blockno])
    && (b.valid && !b.dirty ==> c.disk[b.blockno] == c.flat[b.blockno])
  }

  /** At most one buffer per block. */
  predicate Unique(c: Cache, i: nat, j: nat)
    requires i < |c.bufs| && j < |c.bufs|
  {
    i != j && c.bufs[i].dev == c.bufs[j].dev == DISK_DEV ==> c.bufs[i].blockno != c.bufs[j].blockno
  }

  predicate Cached(c: Cache, k: nat) {
    exists i :: 0 <= i < |c.bufs| && Holds(c.bufs[i], k) && c.bufs[i].valid
  }

  /** A block in no valid buffer is up to date on the disk. */
  predicate BlockOk(c: Cache, k: nat)
    requires k < |c.disk| == |c.flat|
  {
    !Cached(c, k) ==> c.disk[k] == c.flat[k]
  }

  /** The i-th buffer in order was released after the j-th. */
  predicate Newer(order: seq<nat>, stamps: seq<nat>, i: nat, j: nat)
    requires i < |order| && j < |order|
  {
    order[i] < |stamps| && order[j] < |stamps| && stamps[order[i]] > stamps[order[j]]
  }

  /** Every buffer once, in order of last release. */
  ghost predicate Lru(c: Cache) {
    && |c.order| == |c.bufs| == |c.stamps|
    && (forall i :: 0 <= i < |c.order| ==> c.order[i] < |c.bufs|)
    && (forall b :: 0 <= b < |c.bufs| ==> b in c.order)
    && (forall i, j {:trigger Newer(c.order, c.stamps, i, j)} ::
          0 <= i < j < |c.order| ==> Newer(c.order, c.stamps, i, j))
    && (forall i :: 0 <= i < |c.stamps| ==> c.stamps[i] < c.clock)
  }

  ghost predicate Inv(c: Cache) {
    && |c.disk| == |c.flat| && Lru(c)
    && (forall i {:trigger BufOk(c, i)} :: 0 <= i < |c.bufs| ==> BufOk(c, i))
    && (forall i, j {:trigger Unique(c, i, j)} :: 0 <= i < |c.bufs| && 0 <= j < |c.bufs| ==> Unique(c, i, j))
    && (forall k {:trigger BlockOk(c, k)} :: 0 <= k < |c.disk| ==> BlockOk(c, k))
  }

  // ---------- Steps ----------

  datatype Action =
    | Hit(b: nat)
    | Recycle(b: nat, blockno: nat)
    | Fill(b: nat)
    | Store(b: nat, data: Block)
    | Pin(b: nat)
    | Flush(b: nat)
    | Release(b: nat)

  function Without(order: seq<nat>, b: nat): seq<nat> {
    if order == [] then [] else if order[0] == b then order[1..] else [order[0]] + Without(order[1..], b)
  }

  /** Hit and Recycle are the two successful exits of bget; Fill is iderw reading; Store is the holder
      changing the data; Pin is log_write's B_DIRTY; Flush is bwrite; Release is brelse, which a holder
      may call only when its changes have gone to log_write or bwrite. */
  /** bget's panic: the block is in no buffer, and every buffer is held or pinned. */
  predicate Exhausted(c: Cache, blockno: nat) {
    forall i :: 0 <= i < |c.bufs| ==> !Holds(c.bufs[i], blockno) && (c.bufs[i].busy || c.bufs[i].dirty)
  }

  predicate Enabled(c: Cache, a: Action) {
    && a.b < |c.bufs|
    && match a {
         case Hit(b) => !c.bufs[b].busy && c.bufs[b].dev == DISK_DEV
         case Recycle(b, blockno) =>
           && !c.bufs[b].busy && !c.bufs[b].dirty && blockno < |c.disk|
           && forall i :: 0 <= i < |c.bufs| ==> !Holds(c.bufs[i], blockno)
         case Fill(b) => c.bufs[b].busy && !c.bufs[b].valid && c.bufs[b].dev == DISK_DEV && c.bufs[b].blockno < |c.disk|
         case Store(b, _) => c.bufs[b].busy && c.bufs[b].valid
         case Pin(b) => c.bufs[b].busy && c.bufs[b].valid && c.bufs[b].blockno < |c.flat|
         case Flush(b) =>
           c.bufs[b].busy && c.bufs[b].valid && c.bufs[b].blockno < |c.disk| && c.bufs[b].blockno < |c.flat|
         case Release(b) =>
           && c.bufs[b].busy && b < |c.stamps|
           && (c.bufs[b].valid ==> c.bufs[b].blockno < |c.flat| && c.bufs[b].data == c.flat[c.bufs[b].blockno])
       }
  }

  function Apply(c: Cache, a: Action): Cache
    requires Enabled(c, a)
  {
    var buf := c.bufs[a.b];
    match a
    case Hit(b) => c.(bufs := c.bufs[b := buf.(busy := true)])
    case Recycle(b, blockno) => c.(bufs := c.bufs[b := Buf(true, false, false, DISK_DEV, blockno, buf.data)])
    case Fill(b) => c.(bufs := c.bufs[b := buf.(valid := true, data := c.disk[buf.blockno])])
    case Store(b, data) => c.(bufs := c.bufs[b := buf.(data := data)])
    case Pin(b) => c.(bufs := c.bufs[b := buf.(dirty := true)], flat := c.flat[buf.blockno := buf.data])
    case Flush(b) =>
      c.(bufs := c.bufs[b := buf.(dirty := false)],
         disk := c.disk[buf.blockno := buf.data], flat := c.flat[buf.blockno := buf.data])
    case Release(b) =>
      c.(bufs := c.bufs[b := buf.(busy := false)],
         order := [b] + Without(c.order, b), stamps := c.stamps[b := c.clock], clock := c.clock + 1)
  }

  /** Steps that keep which block each buffer holds and which buffers are valid. */
  lemma SameBlocks(c: Cache, c': Cache, k: nat)
    requires |c'.bufs| == |c.bufs|
    requires forall i :: 0 <= i < |c.bufs| ==>
      c'.bufs[i].dev == c.bufs[i].dev && c'.bufs[i].blockno == c.bufs[i].blockno && c'.bufs[i].valid == c.bufs[i].valid
    ensures Cached(c', k) == Cached(c, k)
  {
    if i :| 0 <= i < |c.bufs| && Holds(c.bufs[i], k) && c.bufs[i].valid {
      assert Holds(c'.bufs[i], k) && c'.bufs[i].valid;
    }
    if i :| 0 <= i < |c'.bufs| && Holds(c'.bufs[i], k) && c'.bufs[i].valid {
      assert Holds(c.bufs[i], k) && c.bufs[i].valid;
    }
  }

  lemma HoldKeepsInv(c: Cache, a: Action)
    requires Inv(c) && Enabled(c, a) && (a.Hit? || a.Store? || a.Pin? || a.Flush?)
    ensures Inv(Apply(c, a))
  {
    var c' := Apply(c, a);
    assert BufOk(c, a.b);
    forall i | 0 <= i < |c'.bufs| ensures BufOk(c', i) {
      assert BufOk(c, i) && Unique(c, a.b, i);
    }
    forall i, j | 0 <= i < |c'.bufs| && 0 <= j < |c'.bufs| ensures Unique(c', i, j) {
      assert Unique(c, i, j);
    }
    forall k | 0 <= k < |c'.disk| ensures BlockOk(c', k) {
      assert BlockOk(c, k);
      SameBlocks(c, c', k);
      assert Holds(c.bufs[a.b], c.bufs[a.b].blockno) || a.Hit?;
    }
  }

  lemma RecycleKeepsInv(c: Cache, b: nat, blockno: nat)
    requires Inv(c) && Enabled(c, Recycle(b, blockno))
    ensures Inv(Apply(c, Recycle(b, blockno)))
  {
    var c' := Apply(c, Recycle(b, blockno));
    assert BufOk(c, b);
    forall i | 0 <= i < |c'.bufs| ensures BufOk(c', i) {
      assert BufOk(c, i);
    }
    forall i, j | 0 <= i < |c'.bufs| && 0 <= j < |c'.bufs| ensures Unique(c', i, j) {
      assert Unique(c, i, j) && !Holds(c.bufs[i], blockno) && !Holds(c.bufs[j], blockno);
    }
    forall k | 0 <= k < |c'.disk| ensures BlockOk(c', k) {
      assert BlockOk(c, k);
      if Cached(c, k) {
        var i :| 0 <= i < |c.bufs| && Holds(c.bufs[i], k) && c.bufs[i].valid;
        if i != b {
          assert Holds(c'.bufs[i], k) && c'.bufs[i].valid;
        }
      }
    }
  }

  lemma FillKeepsInv(c: Cache, b: nat)
    requires Inv(c) && Enabled(c, Fill(b))
    ensures Inv(Apply(c, Fill(b)))
    ensures var c' := Apply(c, Fill(b)); c'.bufs[b].data == c'.flat[c'.bufs[b].blockno]
  {
    var c', k0 := Apply(c, Fill(b)), c.bufs[b].blockno;
    forall i | 0 <= i < |c.bufs| ensures !(Holds(c.bufs[i], k0) && c.bufs[i].valid) {
      assert Unique(c, b, i);
    }
    assert BlockOk(c, k0);
    forall i | 0 <= i < |c'.bufs| ensures BufOk(c', i) {
      assert BufOk(c, i);
    }
    forall i, j | 0 <= i < |c'.bufs| && 0 <= j < |c'.bufs| ensures Unique(c', i, j) {
      assert Unique(c, i, j);
    }
    forall k | 0 <= k < |c'.disk| ensures BlockOk(c', k) {
      assert BlockOk(c, k);
      if Cached(c, k) {
        var i :| 0 <= i < |c.bufs| && Holds(c.bufs[i], k) && c.bufs[i].valid;
        assert Holds(c'.bufs[i], k) && c'.bufs[i].valid;
      }
    }
  }

  lemma {:induction false} WithoutShape(order: seq<nat>, b: nat) returns (p: nat)
    requires b in order
    ensures p < |order| && order[p] == b && Without(order, b) == order[..p] + order[p + 1..]
  {
    if order[0] == b {
      p := 0;
    } else {
      assert b in order[1..];
      var q := WithoutShape(order[1..], b);
      p := q + 1;
      assert order[..p] == [order[0]] + order[1..][..q] && order[p + 1..] == order[1..][q + 1..];
    }
  }

  /** After the move to the front, the order is still that of the stamps. */
  lemma MovedNewer(c: Cache, b: nat, p: nat, i: nat, j: nat)
    requires Lru(c) && p < |c.order| && c.order[p] == b
    requires i < j < |c.order| && b < |c.stamps|
    ensures var order' := [b] + (c.order[..p] + c.order[p + 1..]);
      Newer(order', c.stamps[b := c.clock], i, j)
  {
    var j' := From(p, j);
    assert if j' < p then Newer(c.order, c.stamps, j', p) else Newer(c.order, c.stamps, p, j');
    if i > 0 {
      var i' := From(p, i);
      assert if i' < p then Newer(c.order, c.stamps, i', p) else Newer(c.order, c.stamps, p, i');
      assert Newer(c.order, c.stamps, i', j');
    }
  }

  /** After the move to the front, the same buffers are in the order. */
  lemma MovedSame(order: seq<nat>, p: nat, n: nat)
    requires p < |order| && (forall d :: 0 <= d < n ==> d in order) && (forall i :: 0 <= i < |order| ==> order[i] < n)
    ensures var order' := [order[p]] + (order[..p] + order[p + 1..]);
      (forall d :: 0 <= d < n ==> d in order') && (forall i :: 0 <= i < |order'| ==> order'[i] < n)
  {
    var order' := [order[p]] + (order[..p] + order[p + 1..]);
    forall d | 0 <= d < n ensures d in order' {
      assert d in order;
      var q :| 0 <= q < |order| && order[q] == d;
      assert order'[if q == p then 0 else if q < p then q + 1 else q] == d;
    }
    forall i | 0 <= i < |order'| ensures order'[i] < n {
      assert i > 0 ==> order'[i] == order[From(p, i)];
    }
  }

  /** A released buffer is the most recent; the others keep their order. */
  lemma ReleaseKeepsLru(c: Cache, b: nat)
    requires Lru(c) && b < |c.bufs|
    ensures Lru(c.(order := [b] + Without(c.order, b), stamps := c.stamps[b := c.clock], clock := c.clock + 1))
  {
    assert b in c.order;
    var p := WithoutShape(c.order, b);
    var order', stamps' := [b] + (c.order[..p] + c.order[p + 1..]), c.stamps[b := c.clock];
    MovedSame(c.order, p, |c.bufs|);
    forall i, j | 0 <= i < j < |order'| ensures Newer(order', stamps', i, j) {
      MovedNewer(c, b, p, i, j);
    }
  }

  /** Where entry i of the new order was before entry p moved to the front. */
  function From(p: nat, i: nat): nat
    requires i >= 1
  {
    if i - 1 < p then i - 1 else i
  }

  lemma ReleaseKeepsInv(c: Cache, b: nat)
    requires Inv(c) && Enabled(c, Release(b))
    ensures Inv(Apply(c, Release(b)))
  {
    var c' := Apply(c, Release(b));
    ReleaseKeepsLru(c, b);
    forall i | 0 <= i < |c'.bufs| ensures BufOk(c', i) {
      assert BufOk(c, i);
    }
    forall i, j | 0 <= i < |c'.bufs| && 0 <= j < |c'.bufs| ensures Unique(c', i, j) {
      assert Unique(c, i, j);
    }
    forall k | 0 <= k < |c'.disk| ensures BlockOk(c', k) {
      assert BlockOk(c, k);
      SameBlocks(c, c', k);
    }
  }

  lemma InvStep(c: Cache, a: Action)
    requires Inv(c) && Enabled(c, a)
    ensures Inv(Apply(c, a))
  {
    match a
    case Recycle(b, blockno) => RecycleKeepsInv(c, b, blockno);
    case Fill(b) => FillKeepsInv(c, b);
    case Release(b) => ReleaseKeepsInv(c, b);
    case _ => HoldKeepsInv(c, a);
  }

  // ---------- Whole runs ----------

  /** binit's state over a disk: no block cached, buffer 0 least recently released. */
  ghost predicate Boot(c: Cache) {
    && c.flat == c.disk && Lru(c)
    && forall i :: 0 <= i < |c.bufs| ==>
         !c.bufs[i].busy && !c.bufs[i].valid && !c.bufs[i].dirty && c.bufs[i].dev == UNUSED_DEV
  }

  predicate StepAt(cs: seq<Cache>, acts: seq<Action>, i: nat)
    requires i < |acts| < |cs|
  {
    Enabled(cs[i], acts[i]) && cs[i + 1] == Apply(cs[i], acts[i])
  }

  ghost predicate Run(cs: seq<Cache>, acts: seq<Action>) {
    && |cs| == |acts| + 1 && Boot(cs[0])
    && forall i {:trigger StepAt(cs, acts, i)} :: 0 <= i < |acts| ==> StepAt(cs, acts, i)
  }

  /** Over every run of the cache: one buffer per block, dirty implies valid, LRU order, and both disk
      and buffers agree with the flat block map as far as they should. */
  lemma {:induction false} RunSafe(cs: seq<Cache>, acts: seq<Action>, k: nat)
    requires Run(cs, acts) && k < |cs|
    ensures Inv(cs[k])
  {
    if k > 0 {
      RunSafe(cs, acts, k - 1);
      assert StepAt(cs, acts, k - 1);
      InvStep(cs[k - 1], acts[k - 1]);
    }
  }

  /** The data with which block k was last passed to log_write or bwrite, before step n of the run, or else what the disk
      held at the start. */
  ghost function LastWritten(cs: seq<Cache>, acts: seq<Action>, n: nat, k: nat): Block
    requires Run(cs, acts) && n <= |acts| && k < |cs[0].disk|
  {
    if n == 0 then cs[0].disk[k]
    else
      var c, a := cs[n - 1], acts[n - 1];
      if (a.Pin? || a.Flush?) && a.b < |c.bufs| && c.bufs[a.b].blockno == k then c.bufs[a.b].data
      else LastWritten(cs, acts, n - 1, k)
  }

  /** That is what the flat block map holds, so it is what every read gets. */
  lemma {:induction false} FlatIsLast(cs: seq<Cache>, acts: seq<Action>, n: nat, k: nat)
    requires Run(cs, acts) && n <= |acts| && k < |cs[0].disk|
    ensures |cs[n].flat| == |cs[0].disk| && cs[n].flat[k] == LastWritten(cs, acts, n, k)
  {
    if n > 0 {
      FlatIsLast(cs, acts, n - 1, k);
      assert StepAt(cs, acts, n - 1);
    }
  }

  /** A buffer delivered by bread, from the cache or from the disk, holds the latest contents. */
  lemma ReadsLatest(c: Cache, a: Action)
    requires Inv(c) && Enabled(c, a) && (a.Fill? || (a.Hit? && c.bufs[a.b].valid))
    ensures var b := Apply(c, a).bufs[a.b]; b.busy && b.valid && b.blockno < |c.flat| && b.data == c.flat[b.blockno]
  {
    assert BufOk(c, a.b);
    if a.Fill? {
      FillKeepsInv(c, a.b);
    }
  }

  /** Recycling never loses a write: what the buffer held is on the disk. */
  lemma RecycleLosesNothing(c: Cache, b: nat, blockno: nat)
    requires Inv(c) && Enabled(c, Recycle(b, blockno)) && c.bufs[b].valid
    ensures c.bufs[b].blockno < |c.disk| && c.disk[c.bufs[b].blockno] == c.flat[c.bufs[b].blockno] == c.bufs[b].data
  {
    assert BufOk(c, b);
  }
}
