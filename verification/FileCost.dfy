/** What a write to a file passes to the log: the data blocks it touches, and for a file that grows the blocks
    of the bitmap, the indirect block and the inode. */
module FileCost {
  import opened BlockWords
  import opened FileModel
  import opened DiskLayout

  /** The bitmap block with the bit of block b; bs is where the bitmap starts. */
  function BitmapBlock(bs: nat, b: nat): nat {
    bs + b / BPB
  }

  // ---------- Filling slots ----------

  /** Filling slot k marks a block, zeroes it, and stores its number; the number of a second-level slot is
      stored in the indirect block. */
  function SlotSet(bs: nat, fs: Fs, i: nat, k: nat): set<nat>
    requires IsSlot(fs, i, k)
  {
    var b: nat := SlotAt(fs, i, k);
    {BitmapBlock(bs, b), b} + if k > NDIRECT then {SlotAt(fs, i, NDIRECT)} else {}
  }

  ghost function FillSet(bs: nat, fs: Fs, i: nat, K: set<nat>): set<nat>
    requires i < |fs.table|
  {
    set k, x | k in K && k < SLOTS && x in SlotSet(bs, fs, i, k) :: x
  }

  lemma FillSetOne(bs: nat, fs: Fs, i: nat, k: nat)
    requires IsSlot(fs, i, k)
    ensures FillSet(bs, fs, i, {k}) == SlotSet(bs, fs, i, k)
  {
  }

  lemma FillSetNone(bs: nat, fs: Fs, i: nat)
    requires i < |fs.table|
    ensures FillSet(bs, fs, i, {}) == {}
  {
  }

  lemma FillSetUnion(bs: nat, fs: Fs, i: nat, K: set<nat>, L: set<nat>)
    requires i < |fs.table|
    ensures FillSet(bs, fs, i, K + L) == FillSet(bs, fs, i, K) + FillSet(bs, fs, i, L)
  {
  }

  /** The slots inode i has, it keeps. */
  ghost predicate SlotsKept(fs: Fs, fs': Fs, i: nat) {
    && i < |fs.table| && i < |fs'.table|
    && forall k {:trigger SlotAt(fs', i, k)} :: 0 <= k < SLOTS && SlotAt(fs, i, k) != 0 ==>
         SlotAt(fs', i, k) == SlotAt(fs, i, k)
  }

  lemma GrewKeeps(fs: Fs, fs': Fs, i: nat, K: set<nat>)
    requires Grew(fs, fs', i, K)
    ensures SlotsKept(fs, fs', i)
  {
    forall k | 0 <= k < SLOTS && SlotAt(fs, i, k) != 0
      ensures SlotAt(fs', i, k) == SlotAt(fs, i, k)
    {
      assert SlotGrew(fs, fs', i, K, i, k);
    }
  }

  lemma SlotSetKept(bs: nat, fs: Fs, fs': Fs, i: nat, k: nat)
    requires SlotsKept(fs, fs', i) && k < SLOTS && SlotAt(fs, i, k) != 0
    ensures SlotSet(bs, fs', i, k) == SlotSet(bs, fs, i, k)
  {
    assert SlotAt(fs', i, k) == SlotAt(fs, i, k);
    if k > NDIRECT {
      assert SlotAt(fs, i, NDIRECT) != 0;
      assert SlotAt(fs', i, NDIRECT) == SlotAt(fs, i, NDIRECT);
    }
  }

  /** All the slots of K are filled. */
  ghost predicate Full(fs: Fs, i: nat, K: set<nat>) {
    i < |fs.table| && forall k {:trigger HasSlot(fs, i, k)} :: k in K ==> HasSlot(fs, i, k)
  }

  predicate HasSlot(fs: Fs, i: nat, k: nat) {
    IsSlot(fs, i, k) && SlotAt(fs, i, k) != 0
  }

  lemma FillSetKept(bs: nat, fs: Fs, fs': Fs, i: nat, K: set<nat>)
    requires SlotsKept(fs, fs', i) && Full(fs, i, K)
    ensures FillSet(bs, fs', i, K) == FillSet(bs, fs, i, K)
  {
    forall k | k in K
      ensures k < SLOTS && SlotSet(bs, fs', i, k) == SlotSet(bs, fs, i, k)
    {
      assert HasSlot(fs, i, k);
      SlotSetKept(bs, fs, fs', i, k);
    }
  }

  // ---------- The blocks that balloc takes ----------

  /** Block c is taken between two bitmaps. */
  predicate Fresh(used: seq<bool>, used': seq<bool>, c: int) {
    0 <= c < |used| == |used'| && !used[c] && used'[c]
  }

  /** balloc has only taken first free blocks: below a block taken, none is free any more. */
  ghost predicate FirstTaken(used: seq<bool>, used': seq<bool>) {
    && |used'| == |used|
    && (forall c {:trigger Fresh(used', used, c)} :: !Fresh(used', used, c))
    && (forall c {:trigger Fresh(used, used', c)} :: Fresh(used, used', c) ==> forall b :: 0 <= b < c ==> used'[b])
  }

  ghost function FreshSet(used: seq<bool>, used': seq<bool>): set<nat> {
    set c: nat | c < |used| && Fresh(used, used', c)
  }

  /** The blocks in the slots K. */
  ghost function SlotBlocks(fs: Fs, i: nat, K: set<nat>): set<nat>
    requires i < |fs.table|
  {
    set k | k in K && k < SLOTS :: SlotAt(fs, i, k)
  }

  /** The blocks in the slots K have been taken, no other block has, and they were the first free ones. */
  ghost predicate Took(used: seq<bool>, fs: Fs, i: nat, K: set<nat>) {
    i < |fs.table| && FirstTaken(used, fs.used) && FreshSet(used, fs.used) == SlotBlocks(fs, i, K)
  }

  lemma TookNone(fs: Fs, i: nat)
    requires i < |fs.table|
    ensures Took(fs.used, fs, i, {})
  {
  }

  lemma TookOne(used: seq<bool>, fs: Fs, i: nat, k: nat, b: nat)
    requires IsSlot(fs, i, k) && SlotAt(fs, i, k) == b
    requires b < |used| && !used[b] && fs.used == used[b := true] && forall c :: 0 <= c < b ==> used[c]
    ensures Took(used, fs, i, {k})
  {
    assert FreshSet(used, fs.used) == {b};
    assert SlotBlocks(fs, i, {k}) == {b};
  }

  lemma TookTwice(used: seq<bool>, fs: Fs, fs': Fs, i: nat, K: set<nat>, L: set<nat>)
    requires Took(used, fs, i, K) && Took(fs.used, fs', i, L) && SlotsKept(fs, fs', i) && Full(fs, i, K)
    ensures Took(used, fs', i, K + L)
  {
    FirstTwice(used, fs.used, fs'.used);
    FreshTwice(used, fs.used, fs'.used);
    SlotBlocksKept(fs, fs', i, K);
    SlotBlocksUnion(fs', i, K, L);
  }

  lemma SlotBlocksUnion(fs: Fs, i: nat, K: set<nat>, L: set<nat>)
    requires i < |fs.table|
    ensures SlotBlocks(fs, i, K + L) == SlotBlocks(fs, i, K) + SlotBlocks(fs, i, L)
  {
  }

  lemma SlotBlocksKept(fs: Fs, fs': Fs, i: nat, K: set<nat>)
    requires SlotsKept(fs, fs', i) && Full(fs, i, K)
    ensures SlotBlocks(fs', i, K) == SlotBlocks(fs, i, K)
  {
    forall k | k in K
      ensures k < SLOTS && SlotAt(fs', i, k) == SlotAt(fs, i, k)
    {
      assert HasSlot(fs, i, k);
      assert SlotAt(fs', i, k) == SlotAt(fs, i, k);
    }
  }

  lemma FirstTwice(a: seq<bool>, b: seq<bool>, c: seq<bool>)
    requires FirstTaken(a, b) && FirstTaken(b, c)
    ensures FirstTaken(a, c)
  {
    forall x
      ensures !Fresh(c, a, x)
    {
      assert !Fresh(b, a, x) && !Fresh(c, b, x);
    }
    forall x | Fresh(a, c, x)
      ensures forall y :: 0 <= y < x ==> c[y]
    {
      if Fresh(a, b, x) {
        forall y | 0 <= y < x
          ensures c[y]
        {
          assert b[y] && !Fresh(b, c, y) && !Fresh(c, b, y);
        }
      } else {
        assert Fresh(b, c, x);
      }
    }
  }

  lemma FreshTwice(a: seq<bool>, b: seq<bool>, c: seq<bool>)
    requires FirstTaken(a, b) && FirstTaken(b, c)
    ensures FreshSet(a, c) == FreshSet(a, b) + FreshSet(b, c)
  {
    forall x: nat | x < |a|
      ensures Fresh(a, c, x) <==> Fresh(a, b, x) || Fresh(b, c, x)
    {
      assert !Fresh(b, a, x) && !Fresh(c, b, x);
    }
  }

  // ---------- Sizes and slots ----------

  function BlockCount(size: nat): nat {
    (size + BSIZE - 1) / BSIZE
  }

  /** How many slots a file of this size has: one for each block, and the indirect block. */
  function SlotCount(size: nat): nat {
    BlockCount(size) + if BlockCount(size) > NDIRECT then 1 else 0
  }

  lemma NeededIs(size: nat, k: nat)
    ensures Needed(size, k) <==> k < SlotCount(size)
  {
  }

  lemma SlotCountMono(size: nat, end: nat)
    requires size <= end
    ensures SlotCount(size) <= SlotCount(end)
  {
  }

  predicate Between(lo: nat, k: nat, hi: nat) {
    lo <= k < hi
  }

  /** The slots from lo up to hi. */
  ghost function Range(lo: nat, hi: nat): set<nat> {
    set k: nat | k < hi && Between(lo, k, hi)
  }

  lemma {:induction false} RangeSize(lo: nat, hi: nat)
    requires lo <= hi
    ensures |Range(lo, hi)| == hi - lo
    decreases hi
  {
    if lo < hi {
      RangeSize(lo, hi - 1);
      assert Range(lo, hi) == Range(lo, hi - 1) + {hi - 1};
    } else {
      assert Range(lo, hi) == {};
    }
  }

  lemma RangeOn(lo: nat, mid: nat, hi: nat)
    requires lo <= mid <= hi
    ensures Range(lo, hi) == Range(lo, mid) + Range(mid, hi)
  {
  }

  /** bmap fills for a stretch of the file exactly the slots that its end needs and the file does not have. */
  lemma MissingIs(fs: Fs, i: nat, off: nat, c: nat, K: set<nat>)
    requires i < |fs.table| && Compact(fs, i) && InOneBlock(fs.table[i].size, off, c)
    requires Missing(fs, i, off / BSIZE, K) && forall k :: k in K ==> k < SLOTS
    ensures var size := fs.table[i].size; K == Range(SlotCount(size), SlotCount(Max(size, off + c)))
  {
    var size := fs.table[i].size;
    var end := Max(size, off + c);
    assert SlotCount(end) <= SLOTS;
    forall k: nat
      ensures k in K <==> SlotCount(size) <= k < SlotCount(end)
    {
      if k < SLOTS {
        NeededAfter(size, off, c, k);
        NeededIs(size, k);
        NeededIs(end, k);
        assert Wants(off / BSIZE, k) || !Wants(off / BSIZE, k);
        assert SlotAt(fs, i, k) != 0 <==> Needed(size, k);
      }
    }
  }

  // ---------- A write ----------

  /** The data blocks a to b - 1 of a file. */
  ghost function DataSet(fs: Fs, i: nat, a: nat, b: nat): set<nat>
    requires i < |fs.table| && b <= NDIRECT + NINDIRECT
  {
    set q | a <= q < b :: SlotAt(fs, i, DataSlot(q))
  }

  /** Where the blocks end that a write from off to end touches. */
  function TouchedEnd(off: nat, end: nat): nat {
    if end == off then off / BSIZE else BlockCount(end)
  }

  /** Everything the rounds of a write pass on: the data blocks touched, and what filling the slots K takes. */
  ghost function WriteSet(bs: nat, fs: Fs, i: nat, a: nat, b: nat, K: set<nat>): set<nat>
    requires i < |fs.table| && b <= NDIRECT + NINDIRECT
  {
    DataSet(fs, i, a, b) + FillSet(bs, fs, i, K)
  }

  /** The data blocks a to b - 1 are there. */
  ghost predicate Present(fs: Fs, i: nat, a: nat, b: nat) {
    && i < |fs.table| && b <= NDIRECT + NINDIRECT
    && forall q {:trigger IsFileBlock(fs, i, q)} :: a <= q < b ==> IsFileBlock(fs, i, q)
  }

  lemma DataSetKept(fs: Fs, fs': Fs, i: nat, a: nat, b: nat)
    requires SlotsKept(fs, fs', i) && Present(fs, i, a, b)
    ensures DataSet(fs', i, a, b) == DataSet(fs, i, a, b) && Present(fs', i, a, b)
  {
    forall q | a <= q < b
      ensures SlotAt(fs', i, DataSlot(q)) == SlotAt(fs, i, DataSlot(q)) != 0
    {
      assert IsFileBlock(fs, i, q);
      assert SlotAt(fs', i, DataSlot(q)) == SlotAt(fs, i, DataSlot(q));
    }
  }

  /** One more round: data block n, at the end of those touched or the last of them, and the slots L. */
  lemma WriteSetStep(bs: nat, fs: Fs, fs': Fs, i: nat, a: nat, b: nat, n: nat, K: set<nat>, L: set<nat>)
    requires SlotsKept(fs, fs', i) && Present(fs, i, a, b) && Full(fs, i, K)
    requires a <= n && (n == b || n + 1 == b) && IsFileBlock(fs', i, n)
    ensures n + 1 <= NDIRECT + NINDIRECT && Present(fs', i, a, n + 1)
    ensures WriteSet(bs, fs', i, a, n + 1, K + L) ==
      WriteSet(bs, fs, i, a, b, K) + (FillSet(bs, fs', i, L) + {SlotAt(fs', i, DataSlot(n))})
  {
    DataSetKept(fs, fs', i, a, b);
    DataSetOn(fs', i, a, b, n);
    FillSetKept(bs, fs, fs', i, K);
    FillSetUnion(bs, fs', i, K, L);
    Regroup(DataSet(fs, i, a, b), FillSet(bs, fs, i, K), FillSet(bs, fs', i, L), {SlotAt(fs', i, DataSlot(n))});
  }

  lemma DataSetOn(fs: Fs, i: nat, a: nat, b: nat, n: nat)
    requires Present(fs, i, a, b) && a <= n && (n == b || n + 1 == b) && IsFileBlock(fs, i, n)
    ensures n + 1 <= NDIRECT + NINDIRECT && Present(fs, i, a, n + 1)
    ensures DataSet(fs, i, a, n + 1) == DataSet(fs, i, a, b) + {SlotAt(fs, i, DataSlot(n))}
  {
  }

  lemma Regroup(a: set<nat>, b: set<nat>, c: set<nat>, d: set<nat>)
    ensures (a + d) + (b + c) == (a + b) + (c + d)
  {
  }

  /** The size in an inode says nothing of what was passed on. */
  lemma ResizedSlots(bs: nat, fs: Fs, i: nat, size: Word, K: set<nat>)
    requires i < |fs.table|
    ensures var fs' := Resized(fs, i, size);
      FillSet(bs, fs', i, K) == FillSet(bs, fs, i, K) && SlotBlocks(fs', i, K) == SlotBlocks(fs, i, K)
    ensures forall k: nat :: k < SLOTS ==> SlotAt(Resized(fs, i, size), i, k) == SlotAt(fs, i, k)
  {
    var fs' := Resized(fs, i, size);
    forall k: nat | k < SLOTS
      ensures SlotAt(fs', i, k) == SlotAt(fs, i, k) && SlotSet(bs, fs', i, k) == SlotSet(bs, fs, i, k)
    {
    }
  }
}
