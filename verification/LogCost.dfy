/** How many blocks a write passes to log_write, computed before it starts, against what begin_op reserves. */
module LogCost {
  import opened Common
  import opened BlockWords
  import opened FileModel
  import opened DiskLayout
  import opened FileCost
  import opened FileState
  import Log

  // ---------- The first free blocks ----------

  predicate IsFree(used: seq<bool>, c: nat) {
    c < |used| && !used[c]
  }

  ghost function FreeBelow(used: seq<bool>, c: nat): set<nat> {
    set x: nat | x < c && IsFree(used, x)
  }

  ghost predicate IsEarly(used: seq<bool>, t: nat, c: nat) {
    IsFree(used, c) && |FreeBelow(used, c)| < t
  }

  /** The first t free blocks. */
  ghost function FirstFree(used: seq<bool>, t: nat): set<nat> {
    set c: nat | c < |used| && IsEarly(used, t, c)
  }

  lemma FreshBelow(used: seq<bool>, used': seq<bool>, c: nat)
    requires FirstTaken(used, used') && Fresh(used, used', c)
    ensures |FreeBelow(used, c)| < |FreshSet(used, used')|
  {
    var S := FreeBelow(used, c) + {c};
    forall x | x in S
      ensures x in FreshSet(used, used')
    {
      assert Fresh(used, used', x);
    }
    SubsetSize(S, FreshSet(used, used'));
  }

  lemma FreshAbove(used: seq<bool>, used': seq<bool>, c: nat)
    requires FirstTaken(used, used') && IsFree(used, c) && !Fresh(used, used', c)
    ensures |FreshSet(used, used')| <= |FreeBelow(used, c)|
  {
    forall x | x in FreshSet(used, used')
      ensures x in FreeBelow(used, c)
    {
      assert IsFree(used, x) && used'[x];
    }
    SubsetSize(FreshSet(used, used'), FreeBelow(used, c));
  }

  /** Which blocks are taken depends on their number alone. */
  lemma TakenAreFirst(used: seq<bool>, used': seq<bool>)
    requires FirstTaken(used, used')
    ensures FreshSet(used, used') == FirstFree(used, |FreshSet(used, used')|)
  {
    var t := |FreshSet(used, used')|;
    forall c: nat | c < |used|
      ensures Fresh(used, used', c) <==> IsEarly(used, t, c)
    {
      if Fresh(used, used', c) {
        FreshBelow(used, used', c);
      } else if IsFree(used, c) {
        FreshAbove(used, used', c);
      }
    }
  }

  lemma FreeOn(used: seq<bool>, c: nat)
    ensures |FreeBelow(used, c + 1)| == |FreeBelow(used, c)| + if IsFree(used, c) then 1 else 0
  {
    assert FreeBelow(used, c + 1) == if IsFree(used, c) then FreeBelow(used, c) + {c} else FreeBelow(used, c);
  }

  ghost function EarlySet(used: seq<bool>, t: nat, c: nat): set<nat> {
    set x: nat | x < c && IsEarly(used, t, x)
  }

  lemma EarlyOn(used: seq<bool>, t: nat, c: nat)
    ensures |EarlySet(used, t, c + 1)| == |EarlySet(used, t, c)| + if IsEarly(used, t, c) then 1 else 0
  {
    var R := EarlySet(used, t, c);
    assert EarlySet(used, t, c + 1) == if IsEarly(used, t, c) then R + {c} else R;
  }

  lemma {:induction false} EarlyBelow(used: seq<bool>, t: nat, c: nat)
    ensures |EarlySet(used, t, c)| <= Min(t, |FreeBelow(used, c)|)
  {
    if c == 0 {
      assert EarlySet(used, t, c) == {};
    } else {
      EarlyBelow(used, t, c - 1);
      FreeOn(used, c - 1);
      EarlyOn(used, t, c - 1);
    }
  }

  lemma FirstFreeSize(used: seq<bool>, t: nat)
    ensures |FirstFree(used, t)| <= t
  {
    EarlyBelow(used, t, |used|);
    assert FirstFree(used, t) == EarlySet(used, t, |used|);
  }

  // ---------- The bitmap blocks ----------

  ghost function MarkBlocks(bs: nat, S: set<nat>): set<nat> {
    set c | c in S :: BitmapBlock(bs, c)
  }

  lemma {:induction false} MarkBlocksSize(bs: nat, S: set<nat>)
    ensures |MarkBlocks(bs, S)| <= |S|
    decreases |S|
  {
    if S == {} {
      assert MarkBlocks(bs, S) == {};
    } else {
      var c :| c in S;
      MarkBlocksSize(bs, S - {c});
      assert MarkBlocks(bs, S) == MarkBlocks(bs, S - {c}) + {BitmapBlock(bs, c)};
    }
  }

  // ---------- The parts of what is passed on ----------

  /** The indirect block is written when a slot is filled and the file then reaches past its direct blocks. */
  ghost function IndirectSet(fs: Fs, i: nat, lo: nat, hi: nat): set<nat>
    requires i < |fs.table|
  {
    if lo < hi && hi > NDIRECT then {SlotAt(fs, i, NDIRECT)} else {}
  }

  /** Slots from lo on, other than the indirect block, are those of data blocks from a on. */
  predicate StartsAt(a: nat, lo: nat) {
    a <= lo && (lo > NDIRECT ==> a < lo)
  }

  lemma InData(fs: Fs, i: nat, a: nat, b: nat, lo: nat, k: nat)
    requires i < |fs.table| && b <= NDIRECT + NINDIRECT && k < SLOTS && k != NDIRECT
    requires StartsAt(a, lo) && lo <= k < DataSlot(b)
    ensures SlotAt(fs, i, k) in DataSet(fs, i, a, b)
  {
    var q := if k < NDIRECT then k else k - 1;
    assert DataSlot(q) == k;
  }

  lemma FillParts(bs: nat, fs: Fs, i: nat, a: nat, b: nat, lo: nat, hi: nat, x: nat)
    requires i < |fs.table| && b <= NDIRECT + NINDIRECT && hi <= SLOTS && hi != NDIRECT + 1
    requires StartsAt(a, lo) && (lo < hi ==> hi <= DataSlot(b))
    requires x in FillSet(bs, fs, i, Range(lo, hi))
    ensures || x in MarkBlocks(bs, SlotBlocks(fs, i, Range(lo, hi))) || x in IndirectSet(fs, i, lo, hi)
            || x in DataSet(fs, i, a, b)
  {
    var k :| k in Range(lo, hi) && k < SLOTS && x in SlotSet(bs, fs, i, k);
    assert SlotAt(fs, i, k) in SlotBlocks(fs, i, Range(lo, hi));
    if x == SlotAt(fs, i, k) && k != NDIRECT {
      InData(fs, i, a, b, lo, k);
    }
  }

  lemma PartsFill(bs: nat, fs: Fs, i: nat, lo: nat, hi: nat, x: nat)
    requires i < |fs.table| && hi <= SLOTS && hi != NDIRECT + 1
    requires x in MarkBlocks(bs, SlotBlocks(fs, i, Range(lo, hi))) || x in IndirectSet(fs, i, lo, hi)
    ensures x in FillSet(bs, fs, i, Range(lo, hi))
  {
    if x in IndirectSet(fs, i, lo, hi) {
      assert hi - 1 in Range(lo, hi) && x in SlotSet(bs, fs, i, hi - 1);
    } else {
      var c :| c in SlotBlocks(fs, i, Range(lo, hi)) && x == BitmapBlock(bs, c);
      var k :| k in Range(lo, hi) && k < SLOTS && c == SlotAt(fs, i, k);
      assert x in SlotSet(bs, fs, i, k);
    }
  }

  /** Data blocks, bitmap blocks and the indirect block, each once. */
  lemma WriteParts(bs: nat, fs: Fs, i: nat, a: nat, b: nat, lo: nat, hi: nat)
    requires i < |fs.table| && b <= NDIRECT + NINDIRECT && hi <= SLOTS && hi != NDIRECT + 1
    requires StartsAt(a, lo) && (lo < hi ==> hi <= DataSlot(b))
    ensures WriteSet(bs, fs, i, a, b, Range(lo, hi)) ==
      DataSet(fs, i, a, b) + MarkBlocks(bs, SlotBlocks(fs, i, Range(lo, hi))) + IndirectSet(fs, i, lo, hi)
  {
    forall x
      ensures x in WriteSet(bs, fs, i, a, b, Range(lo, hi)) <==>
        || x in DataSet(fs, i, a, b) || x in MarkBlocks(bs, SlotBlocks(fs, i, Range(lo, hi)))
        || x in IndirectSet(fs, i, lo, hi)
    {
      if x in FillSet(bs, fs, i, Range(lo, hi)) {
        FillParts(bs, fs, i, a, b, lo, hi, x);
      } else if x in MarkBlocks(bs, SlotBlocks(fs, i, Range(lo, hi))) || x in IndirectSet(fs, i, lo, hi) {
        PartsFill(bs, fs, i, lo, hi, x);
      }
    }
  }

  // ---------- Their sizes ----------

  lemma SlotDiffers(fs: Fs, m: map<nat, (nat, nat)>, i: nat, k: nat, l: nat)
    requires OwnedBy(fs, m) && HasSlot(fs, i, k) && HasSlot(fs, i, l) && k != l
    ensures SlotAt(fs, i, k) != SlotAt(fs, i, l)
  {
    BlockOwned(fs, m, i, k);
    BlockOwned(fs, m, i, l);
  }

  lemma SlotIsNew(fs: Fs, m: map<nat, (nat, nat)>, i: nat, K: set<nat>, l: nat)
    requires OwnedBy(fs, m) && Full(fs, i, K) && HasSlot(fs, i, l) && l !in K
    ensures SlotAt(fs, i, l) !in SlotBlocks(fs, i, K)
  {
    forall k | k in K
      ensures k < SLOTS && SlotAt(fs, i, k) != SlotAt(fs, i, l)
    {
      assert HasSlot(fs, i, k);
      SlotDiffers(fs, m, i, k, l);
    }
  }

  lemma SlotBlocksOn(fs: Fs, i: nat, K: set<nat>, l: nat)
    requires IsSlot(fs, i, l)
    ensures SlotBlocks(fs, i, K + {l}) == SlotBlocks(fs, i, K) + {SlotAt(fs, i, l) as nat}
  {
  }

  lemma {:induction false} SlotBlocksSize(fs: Fs, m: map<nat, (nat, nat)>, i: nat, K: set<nat>)
    requires OwnedBy(fs, m) && Full(fs, i, K)
    ensures |SlotBlocks(fs, i, K)| == |K|
    decreases |K|
  {
    if K == {} {
      assert SlotBlocks(fs, i, K) == {};
    } else {
      var l :| l in K;
      var L := K - {l};
      assert HasSlot(fs, i, l);
      SlotBlocksSize(fs, m, i, L);
      SlotIsNew(fs, m, i, L, l);
      SlotBlocksOn(fs, i, L, l);
      assert L + {l} == K;
    }
  }

  lemma DataSetOwned(fs: Fs, m: map<nat, (nat, nat)>, i: nat, a: nat, b: nat, x: nat)
    requires OwnedBy(fs, m) && Present(fs, i, a, b) && x in DataSet(fs, i, a, b)
    ensures fs.first <= x && x in m && m[x].0 == i && m[x].1 != NDIRECT && m[x].1 < DataSlot(b)
  {
    var q :| a <= q < b && x == SlotAt(fs, i, DataSlot(q));
    assert IsFileBlock(fs, i, q);
    BlockOwned(fs, m, i, DataSlot(q));
  }

  lemma DataIsNew(fs: Fs, m: map<nat, (nat, nat)>, i: nat, a: nat, b: nat)
    requires OwnedBy(fs, m) && Present(fs, i, a, b) && IsFileBlock(fs, i, b)
    ensures SlotAt(fs, i, DataSlot(b)) !in DataSet(fs, i, a, b)
  {
    BlockOwned(fs, m, i, DataSlot(b));
    if SlotAt(fs, i, DataSlot(b)) in DataSet(fs, i, a, b) {
      DataSetOwned(fs, m, i, a, b, SlotAt(fs, i, DataSlot(b)));
    }
  }

  lemma DataSetLast(fs: Fs, i: nat, a: nat, c: nat, b: nat)
    requires i < |fs.table| && a <= c && b == c + 1 <= NDIRECT + NINDIRECT
    ensures DataSet(fs, i, a, b) == DataSet(fs, i, a, c) + {SlotAt(fs, i, DataSlot(c)) as nat}
  {
  }

  lemma {:induction false} DataSetSize(fs: Fs, m: map<nat, (nat, nat)>, i: nat, a: nat, b: nat)
    requires OwnedBy(fs, m) && a <= b && Known(Present(fs, i, a, b))
    ensures |DataSet(fs, i, a, b)| == b - a
    decreases b
  {
    if a == b {
      assert DataSet(fs, i, a, b) == {};
    } else {
      var c := b - 1;
      assert Present(fs, i, a, c) && IsFileBlock(fs, i, c);
      DataSetSize(fs, m, i, a, c);
      DataIsNew(fs, m, i, a, c);
      DataSetLast(fs, i, a, c, b);
    }
  }

  lemma Sizes(D: set<nat>, M: set<nat>, X: set<nat>, N: set<nat>, lo: nat, mid: nat)
    requires X !! D && (forall x :: x in D ==> mid <= x) && (forall x :: x in X ==> mid <= x)
    requires (forall x :: x in M ==> lo <= x < mid) && (forall x :: x in N ==> x < lo <= mid)
    ensures |D + M + X + N| == |D| + |M| + |X| + |N|
  {
    assert D !! M;
    assert (D + M) !! X;
    assert (D + M + X) !! N;
  }

  // ---------- The cost of a write ----------

  /** How many slots the file lacks. */
  function NewCount(size: nat, end: nat): nat {
    SlotCountMono(size, Max(size, end));
    SlotCount(Max(size, end)) - SlotCount(size)
  }

  /** The blocks that n bytes at off touch. */
  function DataCost(off: nat, n: nat): nat {
    if n == 0 then 0 else (off % BSIZE + n + BSIZE - 1) / BSIZE
  }

  function IndirectCost(size: nat, end: nat): nat {
    if NewCount(size, end) > 0 && BlockCount(end) > NDIRECT then 1 else 0
  }

  function GrowCost(size: nat, end: nat): nat {
    if end > size then 1 else 0
  }

  /** What a write of n bytes at off of a file of the given size costs the log, from the bitmap at bs as it
      is before the write. */
  ghost function Cost(bs: nat, used: seq<bool>, size: nat, off: nat, n: nat): nat {
    var end := EndOf(off, n);
    DataCost(off, n) + |MarkBlocks(bs, FirstFree(used, NewCount(size, end)))|
    + IndirectCost(size, end) + GrowCost(size, end)
  }

  lemma DataCostIs(off: nat, n: nat)
    ensures var a, b := off / BSIZE, TouchedEnd(off, EndOf(off, n)); a <= b && b - a == DataCost(off, n)
  {
  }

  /** The new slots lie among those of the data blocks touched, apart from the indirect block. */
  lemma SlotsTouched(size: nat, off: nat, end: nat)
    requires off <= size <= MAXBYTES && off <= end <= MAXBYTES
    ensures var lo, hi := SlotCount(size), SlotCount(Max(size, end));
      && hi <= SLOTS && hi != NDIRECT + 1 && StartsAt(off / BSIZE, lo) && lo <= hi
      && (lo < hi ==> off < end && end > size && hi <= DataSlot(TouchedEnd(off, end)))
      && (lo < hi ==> (hi > NDIRECT <==> BlockCount(end) > NDIRECT))
  {
    SlotCountMono(size, Max(size, end));
  }

  lemma MarksLie(g: Geo, fs: Fs, m: map<nat, (nat, nat)>, i: nat, K: set<nat>, x: nat)
    requires GeoOk(g) && |fs.used| == g.size && OwnedBy(fs, m) && Full(fs, i, K)
    requires x in MarkBlocks(g.bmapstart, SlotBlocks(fs, i, K))
    ensures g.bmapstart <= x < g.first
  {
    var c :| c in SlotBlocks(fs, i, K) && x == BitmapBlock(g.bmapstart, c);
    var k :| k in K && k < SLOTS && c == SlotAt(fs, i, k);
    assert HasSlot(fs, i, k);
    BlockOwned(fs, m, i, k);
  }

  lemma IndirectLies(fs: Fs, m: map<nat, (nat, nat)>, i: nat, a: nat, b: nat, lo: nat, hi: nat)
    requires OwnedBy(fs, m) && Full(fs, i, Range(lo, hi)) && Present(fs, i, a, b) && hi != NDIRECT + 1
    ensures IndirectSet(fs, i, lo, hi) !! DataSet(fs, i, a, b)
    ensures forall x :: x in IndirectSet(fs, i, lo, hi) ==> fs.first <= x
  {
    if lo < hi && hi > NDIRECT {
      assert HasSlot(fs, i, hi - 1);
      IndirectOwned(fs, m, i);
      var x: nat := SlotAt(fs, i, NDIRECT);
      if x in DataSet(fs, i, a, b) {
        DataSetOwned(fs, m, i, a, b, x);
      }
    }
  }

  /** The parts lie in different regions of the disk. */
  lemma PartsApart(g: Geo, fs: Fs, m: map<nat, (nat, nat)>, i: nat, a: nat, b: nat, lo: nat, hi: nat, N: set<nat>)
    requires GeoOk(g) && fs.first == g.first && |fs.used| == g.size && i < g.ninodes && i < |fs.table|
    requires OwnedBy(fs, m) && Present(fs, i, a, b) && Full(fs, i, Range(lo, hi)) && hi != NDIRECT + 1
    requires N <= {InodeBlock(g, i)}
    ensures var D, M, X :=
        DataSet(fs, i, a, b), MarkBlocks(g.bmapstart, SlotBlocks(fs, i, Range(lo, hi))), IndirectSet(fs, i, lo, hi);
      |D + M + X + N| == |D| + |M| + |X| + |N|
  {
    var D, M, X :=
      DataSet(fs, i, a, b), MarkBlocks(g.bmapstart, SlotBlocks(fs, i, Range(lo, hi))), IndirectSet(fs, i, lo, hi);
    forall x | x in D
      ensures g.first <= x
    {
      DataSetOwned(fs, m, i, a, b, x);
    }
    forall x | x in M
      ensures g.bmapstart <= x < g.first
    {
      MarksLie(g, fs, m, i, Range(lo, hi), x);
    }
    IndirectLies(fs, m, i, a, b, lo, hi);
    Sizes(D, M, X, N, g.bmapstart, g.first);
  }

  lemma SetCosts(g: Geo, fs: Fs, m: map<nat, (nat, nat)>, i: nat, a: nat, b: nat, lo: nat, hi: nat, N: set<nat>)
    requires GeoOk(g) && fs.first == g.first && |fs.used| == g.size && i < g.ninodes && i < |fs.table|
    requires OwnedBy(fs, m) && Known(Present(fs, i, a, b)) && Known(Full(fs, i, Range(lo, hi)))
    requires a <= b && lo <= hi <= SLOTS && hi != NDIRECT + 1 && StartsAt(a, lo) && (lo < hi ==> hi <= DataSlot(b))
    requires N <= {InodeBlock(g, i)}
    ensures |WriteSet(g.bmapstart, fs, i, a, b, Range(lo, hi)) + N| ==
      (b - a) + |MarkBlocks(g.bmapstart, SlotBlocks(fs, i, Range(lo, hi)))| + |IndirectSet(fs, i, lo, hi)| + |N|
  {
    WriteParts(g.bmapstart, fs, i, a, b, lo, hi);
    PartsApart(g, fs, m, i, a, b, lo, hi, N);
    DataSetSize(fs, m, i, a, b);
  }

  /** The blocks taken for a stretch of slots are as many first free blocks. */
  lemma TookFirst(used: seq<bool>, fs: Fs, m: map<nat, (nat, nat)>, i: nat, lo: nat, hi: nat, t: nat)
    requires OwnedBy(fs, m) && lo <= hi && Full(fs, i, Range(lo, hi)) && Took(used, fs, i, Range(lo, hi)) && t == hi - lo
    ensures SlotBlocks(fs, i, Range(lo, hi)) == FirstFree(used, t)
  {
    SlotBlocksSize(fs, m, i, Range(lo, hi));
    RangeSize(lo, hi);
    TakenAreFirst(used, fs.used);
  }

  /** A write costs exactly what its offset, length, the file's size and the bitmap say beforehand. */
  lemma WriteCosts(g: Geo, fs: Fs, fs': Fs, m: map<nat, (nat, nat)>, i: nat, off: nat, n: nat, T: set<nat>)
    requires GeoOk(g) && fs'.first == g.first && |fs'.used| == g.size && i < g.ninodes
    requires OwnedBy(fs', m) && Known(Logs(g, fs, fs', i, off, n, {}, T))
    requires i < |fs.table| && off <= fs.table[i].size <= MAXBYTES
    ensures |T| == Cost(g.bmapstart, fs.used, fs.table[i].size, off, n)
  {
    var size, end := fs.table[i].size, EndOf(off, n);
    var a, b, lo, hi := off / BSIZE, TouchedEnd(off, end), SlotCount(size), SlotCount(Max(size, end));
    var N := GrowSet(g, i, size, end);
    assert T == WriteSet(g.bmapstart, fs', i, a, b, Range(lo, hi)) + N;
    SlotsTouched(size, off, end);
    DataCostIs(off, n);
    SetCosts(g, fs', m, i, a, b, lo, hi, N);
    TookFirst(fs.used, fs', m, i, lo, hi, NewCount(size, end));
    assert |IndirectSet(fs', i, lo, hi)| == IndirectCost(size, end);
    assert |N| == GrowCost(size, end);
  }

  // ---------- Against the free blocks ----------

  /** The free blocks. */
  ghost function Free(used: seq<bool>): set<nat> {
    FreeBelow(used, |used|)
  }

  lemma AllFresh(used: seq<bool>, used': seq<bool>)
    requires FirstTaken(used, used') && forall b :: 0 <= b < |used'| ==> used'[b]
    ensures FreshSet(used, used') == Free(used)
  {
  }

  lemma FreshFree(used: seq<bool>, used': seq<bool>)
    ensures FreshSet(used, used') <= Free(used)
  {
  }

  lemma {:induction false} SmallerSet(a: set<nat>, b: set<nat>)
    requires a < b
    ensures |a| < |b|
  {
    var x :| x in b && x !in a;
    SubsetSize(a + {x}, b);
  }

  /** A write that found no block had fewer free blocks than it needed. */
  lemma ShortMeans(fs: Fs, fs': Fs, m: map<nat, (nat, nat)>, i: nat, off: nat, n: nat)
    requires Known(Shortage(fs, fs', i, off, n)) && AllUsed(fs') && Known(OwnedBy(fs', m)) && i < |fs.table|
    ensures |Free(fs.used)| < NewCount(fs.table[i].size, off + n)
  {
    var size, end := fs.table[i].size, EndOf(off, n);
    var K :| K < NewSlots(size, end) && Full(fs', i, K) && Took(fs.used, fs', i, K);
    SlotBlocksSize(fs', m, i, K);
    AllFresh(fs.used, fs'.used);
    SmallerSet(K, NewSlots(size, end));
    SlotCountMono(size, Max(size, end));
    RangeSize(SlotCount(size), SlotCount(Max(size, end)));
  }

  /** A write that was done had enough. */
  lemma DoneMeans(g: Geo, fs: Fs, fs': Fs, m: map<nat, (nat, nat)>, i: nat, off: nat, n: nat, T: set<nat>, T': set<nat>)
    requires Known(Logs(g, fs, fs', i, off, n, T, T')) && Known(OwnedBy(fs', m)) && i < |fs.table|
    ensures |Free(fs.used)| >= NewCount(fs.table[i].size, off + n)
  {
    var size, end := fs.table[i].size, EndOf(off, n);
    SlotBlocksSize(fs', m, i, NewSlots(size, end));
    FreshFree(fs.used, fs'.used);
    SubsetSize(FreshSet(fs.used, fs'.used), Free(fs.used));
    SlotCountMono(size, Max(size, end));
    RangeSize(SlotCount(size), SlotCount(Max(size, end)));
  }

  // ---------- Against the log ----------

  lemma EarlierOutside(g: Geo, fs': Fs, m: map<nat, (nat, nat)>, i: nat, size: nat, off: nat, n: nat, end: nat,
                       T: set<nat>)
    requires GeoOk(g) && fs'.first == g.first && |fs'.used| == g.size && i < g.ninodes && i < |fs'.table|
    requires OwnedBy(fs', m) && off <= size < end <= MAXBYTES && end == EndOf(off, n)
    requires Known(Present(fs', i, off / BSIZE, TouchedEnd(off, end))) && Known(Full(fs', i, NewSlots(size, end)))
    requires T ==
      WriteSet(g.bmapstart, fs', i, off / BSIZE, TouchedEnd(off, end), NewSlots(size, end)) + GrowSet(g, i, size, end)
    ensures |Earlier(g.bmapstart, fs', i, size, off, end)| + 1 == |T|
  {
    var a, b, lo, hi := off / BSIZE, TouchedEnd(off, end), SlotCount(size), SlotCount(Max(size, end));
    var W, none: set<nat>, N := WriteSet(g.bmapstart, fs', i, a, b, Range(lo, hi)), {}, GrowSet(g, i, size, end);
    SlotsTouched(size, off, end);
    DataCostIs(off, n);
    SetCosts(g, fs', m, i, a, b, lo, hi, none);
    SetCosts(g, fs', m, i, a, b, lo, hi, N);
    assert W + none == W && T == W + N && |N| == 1;
  }

  /** All calls of log_write but the last are for one block less than the whole write. */
  lemma EarlierCosts(g: Geo, fs: Fs, fs': Fs, m: map<nat, (nat, nat)>, i: nat, off: nat, n: nat, T: set<nat>)
    requires GeoOk(g) && fs'.first == g.first && |fs'.used| == g.size && i < g.ninodes && n > 0
    requires OwnedBy(fs', m) && Known(Logs(g, fs, fs', i, off, n, {}, T))
    requires i < |fs.table| && off <= fs.table[i].size <= MAXBYTES
    ensures i < |fs'.table| && off < EndOf(off, n) <= MAXBYTES
    ensures |Earlier(g.bmapstart, fs', i, fs.table[i].size, off, EndOf(off, n))| + 1 ==
      Cost(g.bmapstart, fs.used, fs.table[i].size, off, n)
  {
    var size, end := fs.table[i].size, EndOf(off, n);
    if end > size {
      WriteCosts(g, fs, fs', m, i, off, n, T);
      EarlierOutside(g, fs', m, i, size, off, n, end, T);
    } else {
      InsideCosts(g.bmapstart, fs.used, size, off, n);
      InsideLast(fs', i, off, n, end);
      DataSetSize(fs', m, i, off / BSIZE, (end - 1) / BSIZE);
    }
  }

  lemma InsideLast(fs: Fs, i: nat, off: nat, n: nat, end: nat)
    requires n > 0 && end == off + n && Present(fs, i, off / BSIZE, TouchedEnd(off, end))
    ensures var a, b := off / BSIZE, (end - 1) / BSIZE; a <= b && b - a + 1 == DataCost(off, n) && Present(fs, i, a, b)
  {
  }

  /** From an empty log, log_write refuses one of the calls exactly if the write costs more than the log takes. */
  lemma RefusedIff(g: Geo, nlog: nat, fs: Fs, fs': Fs, m: map<nat, (nat, nat)>, i: nat, off: nat, n: nat, T: set<nat>,
                   refused: bool)
    requires GeoOk(g) && fs'.first == g.first && |fs'.used| == g.size && i < g.ninodes
    requires OwnedBy(fs', m) && Known(Logs(g, fs, fs', i, off, n, {}, T))
    requires Known(Refused(g.bmapstart, nlog, {}, fs, fs', i, off, n, {}, false, refused))
    requires i < |fs.table| && off <= fs.table[i].size <= MAXBYTES
    ensures refused <==> Cost(g.bmapstart, fs.used, fs.table[i].size, off, n) > Log.Capacity(nlog)
  {
    var size, end := fs.table[i].size, EndOf(off, n);
    if n > 0 {
      EarlierCosts(g, fs, fs', m, i, off, n, T);
      var e := Earlier(g.bmapstart, fs', i, size, off, end);
      var none: set<nat> := {};
      assert none + (none + e) == e;
      Log.TooManyIs(nlog, |e|);
    } else {
      InsideCosts(g.bmapstart, fs.used, size, off, n);
    }
  }

  /** A write of up to m whole blocks costs at most m + 1 data blocks, a bitmap block for every new one and for the
      indirect block, that block, and the inode. */
  lemma CostAtMost(bs: nat, used: seq<bool>, size: nat, off: nat, n: nat, m: nat)
    requires off <= size && n <= m * BSIZE
    ensures Cost(bs, used, size, off, n) <= (m + 1) + (m + 1) + 1 + 1
  {
    MarksAtMost(bs, used, NewCount(size, EndOf(off, n)));
    NewAtMost(size, off, EndOf(off, n));
    BlocksAtMost(off, n, m);
  }

  lemma BlocksAtMost(off: nat, n: nat, m: nat)
    requires n <= m * BSIZE
    ensures DataCost(off, n) <= m + 1 && (n + BSIZE - 1) / BSIZE <= m
  {
  }

  /** On a disk with one bitmap block it costs at most m + 1 data blocks and three more. */
  lemma OneBitmapAtMost(bs: nat, used: seq<bool>, size: nat, off: nat, n: nat, m: nat)
    requires |used| <= BPB && n <= m * BSIZE
    ensures Cost(bs, used, size, off, n) <= (m + 1) + 3
  {
    BlocksAtMost(off, n, m);
    OneBitmapMarks(bs, used, NewCount(size, EndOf(off, n)));
  }

  lemma OneBitmapMarks(bs: nat, used: seq<bool>, t: nat)
    requires |used| <= BPB
    ensures |MarkBlocks(bs, FirstFree(used, t))| <= 1
  {
    assert MarkBlocks(bs, FirstFree(used, t)) <= {bs};
    SubsetSize(MarkBlocks(bs, FirstFree(used, t)), {bs});
  }

  // ---------- Against the reservation ----------

  /** A write inside the file costs its data blocks. */
  lemma InsideCosts(bs: nat, used: seq<bool>, size: nat, off: nat, n: nat)
    requires off + n <= size
    ensures Cost(bs, used, size, off, n) == DataCost(off, n)
  {
    assert FirstFree(used, 0) == {};
    assert MarkBlocks(bs, FirstFree(used, 0)) == {};
  }

  lemma {:induction false} LeastFree(used: seq<bool>, c: nat) returns (x: nat)
    requires IsFree(used, c)
    ensures IsFree(used, x) && FreeBelow(used, x) == {}
    decreases c
  {
    x := c;
    if y :| y in FreeBelow(used, c) {
      x := LeastFree(used, y);
    }
  }

  /** On a disk with one bitmap block all new blocks are marked there. */
  lemma OneMarkBlock(bs: nat, used: seq<bool>, t: nat, c: nat)
    requires |used| <= BPB && t > 0 && IsFree(used, c)
    ensures |MarkBlocks(bs, FirstFree(used, t))| == 1
  {
    var x := LeastFree(used, c);
    assert IsEarly(used, t, x) && x in FirstFree(used, t);
    assert MarkBlocks(bs, FirstFree(used, t)) == {bs};
  }

  /** There the cost of a write that succeeds is a matter of sizes. */
  lemma OneBitmapCosts(bs: nat, used: seq<bool>, size: nat, off: nat, n: nat, c: nat)
    requires |used| <= BPB && IsFree(used, c)
    ensures Cost(bs, used, size, off, n) ==
      DataCost(off, n) + (if NewCount(size, off + n) > 0 then 1 else 0)
      + IndirectCost(size, off + n) + GrowCost(size, off + n)
  {
    if NewCount(size, EndOf(off, n)) > 0 {
      OneMarkBlock(bs, used, NewCount(size, EndOf(off, n)), c);
    } else {
      assert FirstFree(used, 0) == {};
      assert MarkBlocks(bs, FirstFree(used, 0)) == {};
    }
  }

  /** So there a write fits exactly when its data blocks do, with one block more for the inode if the file grows, one
      for the bitmap if it needs a new block, and one for the indirect block if that block is past the direct ones. */
  lemma OneBitmapFits(bs: nat, used: seq<bool>, size: nat, off: nat, n: nat, c: nat)
    requires |used| <= BPB && IsFree(used, c) && off <= size
    ensures Cost(bs, used, size, off, n) <= Log.MAXOPBLOCKS <==>
      DataCost(off, n) + (if off + n <= size then 0
                          else if BlockCount(off + n) == BlockCount(size) then 1
                          else if BlockCount(off + n) <= NDIRECT then 2 else 3) <= Log.MAXOPBLOCKS
  {
    OneBitmapCosts(bs, used, size, off, n, c);
    assert off + n > size ==> (NewCount(size, off + n) == 0 <==> BlockCount(off + n) == BlockCount(size));
  }

  /** A write marks no more bitmap blocks than it fills slots. */
  lemma MarksAtMost(bs: nat, used: seq<bool>, t: nat)
    ensures |MarkBlocks(bs, FirstFree(used, t))| <= t
  {
    FirstFreeSize(used, t);
    MarkBlocksSize(bs, FirstFree(used, t));
  }

  lemma NewAtMost(size: nat, off: nat, end: nat)
    requires off <= size && off <= end
    ensures NewCount(size, end) <= (end - off + BSIZE - 1) / BSIZE + 1
  {
  }

  /** The bound on a transaction that MAXOPBLOCKS gives: an inode, an indirect block, and two blocks of slop, the
      rest shared by data and bitmap. Up to it every write fits the reservation. */
  lemma SmallWriteFits(bs: nat, used: seq<bool>, size: nat, off: nat, n: nat)
    requires off <= size && n <= (Log.MAXOPBLOCKS - 1 - 1 - 2) / 2 * BSIZE
    ensures Cost(bs, used, size, off, n) <= Log.MAXOPBLOCKS
  {
    CostAtMost(bs, used, size, off, n, (Log.MAXOPBLOCKS - 1 - 1 - 2) / 2);
  }
}
