/** The file layer as values: inodes with their direct and indirect slots, the free bitmap, data blocks,
    who owns which block, and the byte sequence each file stands for. */
module FileModel {
  import opened BlockWords

  const NDIRECT := 12
  const NINDIRECT := 128
  const SLOTS := 141
  const MAXBYTES := 71680

  type Half = h: int | 0 <= h < 0x1_0000

  datatype Dinode = Dinode(kind: Half, major: Half, minor: Half, nlink: Half, size: Word, addrs: seq<Word>)

  type Inode = d: Dinode | |d.addrs| == NDIRECT + 1
    witness Dinode(0, 0, 0, 0, 0, [0, 0, 0, 0, 0, 0, 0, 0, 0, 0, 0, 0, 0])

  /** Blocks below `first` hold the boot block, superblock, log, inodes and bitmap. `table` is the inodes as
      the running system sees them. */
  datatype Fs = Fs(first: nat, used: seq<bool>, table: seq<Inode>, data: seq<Block>)

  predicate Shaped(fs: Fs) {
    0 < fs.first <= |fs.used| == |fs.data| < 0x1_0000_0000
  }

  // ---------- Slots ----------

  /** Slots 0 to 11 are the direct addresses, slot 12 the indirect block, slots 13 to 140 its words. */
  function SlotAt(fs: Fs, i: nat, k: nat): Word
    requires i < |fs.table| && k < SLOTS
  {
    if k <= NDIRECT then fs.table[i].addrs[k]
    else
      var a := fs.table[i].addrs[NDIRECT];
      if 0 < a < |fs.data| then WordAt(fs.data[a], k - 13) else 0
  }

  /** The slot of the n-th block of a file. */
  function DataSlot(n: nat): nat {
    if n < NDIRECT then n else n + 1
  }

  predicate IsSlot(fs: Fs, i: int, k: int) {
    0 <= i < |fs.table| && 0 <= k < SLOTS
  }

  // ---------- Ownership ----------

  /** `m` gives for every block in use outside the metadata the one slot that holds it. */
  ghost predicate OwnedBy(fs: Fs, m: map<nat, (nat, nat)>) {
    && Shaped(fs)
    && (forall b :: 0 <= b < |fs.used| ==> (fs.used[b] <==> b < fs.first || b in m))
    && (forall b :: b in m ==> OwnsOne(fs, b, m[b]))
    && (forall i, k {:trigger SlotAt(fs, i, k)} :: IsSlot(fs, i, k) && SlotAt(fs, i, k) != 0 ==>
          SlotAt(fs, i, k) in m && m[SlotAt(fs, i, k)] == (i, k))
  }

  predicate OwnsOne(fs: Fs, b: nat, s: (nat, nat)) {
    fs.first <= b < |fs.used| && IsSlot(fs, s.0, s.1) && SlotAt(fs, s.0, s.1) == b
  }

  /** What an owner map says without naming it: the bitmap marks exactly the metadata and the reachable
      blocks, and no block is reachable twice. */
  lemma OwnershipMeans(fs: Fs, m: map<nat, (nat, nat)>)
    requires OwnedBy(fs, m)
    ensures forall b :: 0 <= b < |fs.used| ==>
      (fs.used[b] <==> b < fs.first || exists i, k :: IsSlot(fs, i, k) && SlotAt(fs, i, k) == b)
    ensures forall i, k, i', k' ::
      IsSlot(fs, i, k) && IsSlot(fs, i', k') && SlotAt(fs, i, k) == SlotAt(fs, i', k') != 0 ==> i == i' && k == k'
  {
    forall b | 0 <= b < |fs.used|
      ensures fs.used[b] <==> b < fs.first || exists i, k :: IsSlot(fs, i, k) && SlotAt(fs, i, k) == b
    {
      if fs.used[b] && b >= fs.first {
        assert OwnsOne(fs, b, m[b]);
      }
    }
  }

  /** Block b, free until now, becomes slot k of inode i; balloc has zeroed it. */
  function Give(fs: Fs, i: nat, k: nat, b: nat): Fs
    requires Shaped(fs) && IsSlot(fs, i, k) && fs.first <= b < |fs.used|
    requires k > NDIRECT ==> 0 < fs.table[i].addrs[NDIRECT] < |fs.data|
  {
    var given := fs.(used := fs.used[b := true], data := fs.data[b := ZeroBlock()]);
    if k <= NDIRECT then
      var ip := fs.table[i];
      given.(table := fs.table[i := ip.(addrs := ip.addrs[k := b])])
    else
      var a := fs.table[i].addrs[NDIRECT];
      given.(data := given.data[a := SetWord(given.data[a], k - 13, b)])
  }

  /** A block that may be given to an empty slot. */
  ghost predicate CanGive(fs: Fs, m: map<nat, (nat, nat)>, i: nat, k: nat, b: nat) {
    && OwnedBy(fs, m) && IsSlot(fs, i, k) && SlotAt(fs, i, k) == 0
    && b < |fs.used| && !fs.used[b]
    && (k > NDIRECT ==> fs.table[i].addrs[NDIRECT] != 0)
  }

  lemma IndirectOwned(fs: Fs, m: map<nat, (nat, nat)>, i: nat)
    requires OwnedBy(fs, m) && i < |fs.table| && fs.table[i].addrs[NDIRECT] != 0
    ensures var a := fs.table[i].addrs[NDIRECT];
      fs.first <= a < |fs.data| && fs.used[a] && a in m && m[a] == (i, NDIRECT)
  {
    assert SlotAt(fs, i, NDIRECT) != 0;
    var a := fs.table[i].addrs[NDIRECT];
    assert OwnsOne(fs, a, m[a]);
  }

  /** Giving a block fills that slot and no other. */
  lemma GiveSlot(fs: Fs, m: map<nat, (nat, nat)>, i: nat, k: nat, b: nat, j: nat, l: nat)
    requires CanGive(fs, m, i, k, b) && IsSlot(fs, j, l)
    requires k > NDIRECT ==> 0 < fs.table[i].addrs[NDIRECT] < |fs.data|
    ensures fs.first <= b
    ensures SlotAt(Give(fs, i, k, b), j, l) == if j == i && l == k then b else SlotAt(fs, j, l)
  {
    var fs' := Give(fs, i, k, b);
    var a := fs.table[j].addrs[NDIRECT];
    if l > NDIRECT {
      if j == i && k == NDIRECT {
        ZeroWords(l - 13);
      } else if a != 0 {
        IndirectOwned(fs, m, j);
        assert a != b;
        if k > NDIRECT {
          IndirectOwned(fs, m, i);
          var c := fs.table[i].addrs[NDIRECT];
          SetWordAt(fs.data[c], k - 13, b, l - 13);
        }
      }
    }
  }

  lemma GiveOwned(fs: Fs, m: map<nat, (nat, nat)>, i: nat, k: nat, b: nat)
    requires CanGive(fs, m, i, k, b)
    requires k > NDIRECT ==> 0 < fs.table[i].addrs[NDIRECT] < |fs.data|
    ensures fs.first <= b && OwnedBy(Give(fs, i, k, b), m[b := (i, k)])
  {
    var fs' := Give(fs, i, k, b);
    var m' := m[b := (i, k)];
    forall c | c in m'
      ensures OwnsOne(fs', c, m'[c])
    {
      if c == b {
        GiveSlot(fs, m, i, k, b, i, k);
      } else {
        assert OwnsOne(fs, c, m[c]);
        GiveSlot(fs, m, i, k, b, m[c].0, m[c].1);
      }
    }
    forall j, l | IsSlot(fs', j, l) && SlotAt(fs', j, l) != 0
      ensures SlotAt(fs', j, l) in m' && m'[SlotAt(fs', j, l)] == (j, l)
    {
      GiveSlot(fs, m, i, k, b, j, l);
    }
  }

  // ---------- Blocks of files ----------

  /** The n-th block of a file, as far as it has one. */
  function BlockOf(fs: Fs, i: nat, n: nat): Block
    requires i < |fs.table| && DataSlot(n) < SLOTS
  {
    var a := SlotAt(fs, i, DataSlot(n));
    if 0 < a < |fs.data| then fs.data[a] else ZeroBlock()
  }

  predicate IsFileBlock(fs: Fs, i: int, n: int) {
    0 <= i < |fs.table| && 0 <= n && DataSlot(n) < SLOTS && SlotAt(fs, i, DataSlot(n)) != 0
  }

  /** fs' is fs with the empty slots K of inode i filled; nothing else of any file has changed. */
  ghost predicate Grew(fs: Fs, fs': Fs, i: nat, K: set<nat>) {
    && Shaped(fs) && Shaped(fs') && fs'.first == fs.first && |fs'.data| == |fs.data|
    && |fs'.table| == |fs.table| && i < |fs.table|
    && fs'.table == fs.table[i := fs.table[i].(addrs := fs'.table[i].addrs)]
    && (forall j, l {:trigger SlotGrew(fs, fs', i, K, j, l)} :: IsSlot(fs, j, l) ==> SlotGrew(fs, fs', i, K, j, l))
    && (forall j, n {:trigger BlockOf(fs', j, n)} :: IsFileBlock(fs, j, n) ==> BlockOf(fs', j, n) == BlockOf(fs, j, n))
  }

  predicate SlotGrew(fs: Fs, fs': Fs, i: nat, K: set<nat>, j: nat, l: nat)
    requires IsSlot(fs, j, l) && IsSlot(fs', j, l)
  {
    if j == i && l in K then SlotAt(fs, j, l) == 0 && SlotAt(fs', j, l) != 0
    else SlotAt(fs', j, l) == SlotAt(fs, j, l)
  }

  lemma GrewNothing(fs: Fs, i: nat)
    requires Shaped(fs) && i < |fs.table|
    ensures Grew(fs, fs, i, {})
  {
    forall j, l | IsSlot(fs, j, l)
      ensures SlotGrew(fs, fs, i, {}, j, l)
    {
    }
  }

  lemma GrewTwice(fs: Fs, fs1: Fs, fs2: Fs, i: nat, K: set<nat>, L: set<nat>)
    requires Grew(fs, fs1, i, K) && Grew(fs1, fs2, i, L)
    ensures Grew(fs, fs2, i, K + L)
  {
    forall j, l | IsSlot(fs, j, l)
      ensures SlotGrew(fs, fs2, i, K + L, j, l)
    {
      assert SlotGrew(fs, fs1, i, K, j, l);
      assert SlotGrew(fs1, fs2, i, L, j, l);
    }
    forall j, n | IsFileBlock(fs, j, n)
      ensures BlockOf(fs2, j, n) == BlockOf(fs, j, n)
    {
      assert SlotGrew(fs, fs1, i, K, j, DataSlot(n));
      assert IsFileBlock(fs1, j, n);
    }
  }

  /** The block of a file is owned by its slot alone. */
  lemma BlockOwned(fs: Fs, m: map<nat, (nat, nat)>, i: nat, l: nat)
    requires OwnedBy(fs, m) && IsSlot(fs, i, l) && SlotAt(fs, i, l) != 0
    ensures var a := SlotAt(fs, i, l); fs.first <= a < |fs.data| && fs.used[a] && a in m && m[a] == (i, l)
  {
    var a := SlotAt(fs, i, l);
    assert OwnsOne(fs, a, m[a]);
  }

  lemma GiveGrew(fs: Fs, m: map<nat, (nat, nat)>, i: nat, k: nat, b: nat)
    requires CanGive(fs, m, i, k, b)
    requires k > NDIRECT ==> 0 < fs.table[i].addrs[NDIRECT] < |fs.data|
    ensures fs.first <= b && Grew(fs, Give(fs, i, k, b), i, {k})
  {
    var fs' := Give(fs, i, k, b);
    forall j, l | IsSlot(fs, j, l)
      ensures SlotGrew(fs, fs', i, {k}, j, l)
    {
      GiveSlot(fs, m, i, k, b, j, l);
    }
    forall j, n | IsFileBlock(fs, j, n)
      ensures BlockOf(fs', j, n) == BlockOf(fs, j, n)
    {
      GiveSlot(fs, m, i, k, b, j, DataSlot(n));
      BlockOwned(fs, m, j, DataSlot(n));
      if k > NDIRECT {
        IndirectOwned(fs, m, i);
      }
    }
  }

  // ---------- Putting bytes in a block of a file ----------

  function Splice<T>(old': seq<T>, o: nat, chunk: seq<T>): seq<T>
    requires o + |chunk| <= |old'|
  {
    old'[..o] + chunk + old'[o + |chunk|..]
  }

  function Put(fs: Fs, i: nat, n: nat, block: Block): Fs
    requires IsFileBlock(fs, i, n) && SlotAt(fs, i, DataSlot(n)) < |fs.data|
  {
    fs.(data := fs.data[SlotAt(fs, i, DataSlot(n)) := block])
  }

  /** Writing a data block changes no slot, and the bytes of no other block of any file. */
  lemma PutSlot(fs: Fs, m: map<nat, (nat, nat)>, i: nat, n: nat, block: Block, j: nat, l: nat)
    requires OwnedBy(fs, m) && IsFileBlock(fs, i, n) && IsSlot(fs, j, l)
    requires SlotAt(fs, i, DataSlot(n)) < |fs.data|
    ensures SlotAt(Put(fs, i, n, block), j, l) == SlotAt(fs, j, l)
  {
    BlockOwned(fs, m, i, DataSlot(n));
    if fs.table[j].addrs[NDIRECT] != 0 {
      IndirectOwned(fs, m, j);
    }
  }

  lemma PutOwned(fs: Fs, m: map<nat, (nat, nat)>, i: nat, n: nat, block: Block)
    requires OwnedBy(fs, m) && IsFileBlock(fs, i, n) && SlotAt(fs, i, DataSlot(n)) < |fs.data|
    ensures OwnedBy(Put(fs, i, n, block), m)
  {
    var fs' := Put(fs, i, n, block);
    forall c | c in m
      ensures OwnsOne(fs', c, m[c])
    {
      assert OwnsOne(fs, c, m[c]);
      PutSlot(fs, m, i, n, block, m[c].0, m[c].1);
    }
    forall j, l | IsSlot(fs', j, l) && SlotAt(fs', j, l) != 0
      ensures SlotAt(fs', j, l) in m && m[SlotAt(fs', j, l)] == (j, l)
    {
      PutSlot(fs, m, i, n, block, j, l);
    }
  }

  lemma PutBlock(fs: Fs, m: map<nat, (nat, nat)>, i: nat, n: nat, block: Block, j: nat, q: nat)
    requires OwnedBy(fs, m) && IsFileBlock(fs, i, n) && SlotAt(fs, i, DataSlot(n)) < |fs.data|
    requires IsFileBlock(fs, j, q)
    ensures BlockOf(Put(fs, i, n, block), j, q) == if j == i && q == n then block else BlockOf(fs, j, q)
  {
    PutSlot(fs, m, i, n, block, j, DataSlot(q));
    BlockOwned(fs, m, i, DataSlot(n));
    BlockOwned(fs, m, j, DataSlot(q));
  }

  // ---------- Contents ----------

  /** Slot k is needed by a file of this many bytes. */
  predicate Needed(size: nat, k: nat) {
    if k < NDIRECT then k * BSIZE < size
    else if k == NDIRECT then NDIRECT * BSIZE < size
    else (k - 1) * BSIZE < size
  }

  /** The file has exactly the blocks below its size. */
  ghost predicate Compact(fs: Fs, i: nat)
    requires i < |fs.table|
  {
    fs.table[i].size <= MAXBYTES &&
    forall k {:trigger SlotAt(fs, i, k)} :: 0 <= k < SLOTS ==> (SlotAt(fs, i, k) != 0 <==> Needed(fs.table[i].size, k))
  }

  ghost predicate Good(fs: Fs, m: map<nat, (nat, nat)>) {
    OwnedBy(fs, m) && forall i {:trigger Compact(fs, i)} :: 0 <= i < |fs.table| ==> Compact(fs, i)
  }

  lemma GoodSize(fs: Fs, m: map<nat, (nat, nat)>, i: nat)
    requires Good(fs, m) && i < |fs.table|
    ensures fs.table[i].size <= MAXBYTES
  {
    assert Compact(fs, i);
  }

  function ByteOf(fs: Fs, i: nat, p: nat): Byte
    requires i < |fs.table| && p < MAXBYTES
  {
    BlockOf(fs, i, p / BSIZE)[p % BSIZE]
  }

  function BytesTo(fs: Fs, i: nat, n: nat): (c: seq<Byte>)
    requires i < |fs.table| && n <= MAXBYTES
    ensures |c| == n
  {
    if n == 0 then [] else BytesTo(fs, i, n - 1) + [ByteOf(fs, i, n - 1)]
  }

  /** The bytes of a file. */
  function Contents(fs: Fs, i: nat): (c: seq<Byte>)
    requires i < |fs.table| && fs.table[i].size <= MAXBYTES
    ensures |c| == fs.table[i].size
  {
    BytesTo(fs, i, fs.table[i].size)
  }

  lemma {:induction false} BytesToAt(fs: Fs, i: nat, n: nat, p: nat)
    requires i < |fs.table| && p < n <= MAXBYTES
    ensures BytesTo(fs, i, n)[p] == ByteOf(fs, i, p)
    decreases n
  {
    if p < n - 1 {
      BytesToAt(fs, i, n - 1, p);
    }
  }

  lemma ContentsAt(fs: Fs, i: nat, p: nat)
    requires i < |fs.table| && p < fs.table[i].size <= MAXBYTES
    ensures Contents(fs, i)[p] == ByteOf(fs, i, p)
  {
    BytesToAt(fs, i, fs.table[i].size, p);
  }

  /** c is the bytes of the file, said byte by byte. */
  ghost predicate Reads(fs: Fs, i: nat, c: seq<Byte>) {
    && i < |fs.table| && |c| == fs.table[i].size <= MAXBYTES
    && forall p {:trigger ByteOf(fs, i, p)} :: 0 <= p < |c| ==> ByteOf(fs, i, p) == c[p]
  }

  lemma ReadsContents(fs: Fs, i: nat, c: seq<Byte>)
    requires i < |fs.table| && fs.table[i].size <= MAXBYTES
    ensures Reads(fs, i, c) <==> c == Contents(fs, i)
  {
    var c' := Contents(fs, i);
    forall p | 0 <= p < |c'|
      ensures c'[p] == ByteOf(fs, i, p)
    {
      ContentsAt(fs, i, p);
    }
    if Reads(fs, i, c) {
      assert forall p :: 0 <= p < |c| ==> c[p] == c'[p];
    }
  }

  lemma SameContents(fs: Fs, fs': Fs, i: nat)
    requires i < |fs.table| && i < |fs'.table| && fs'.table[i].size == fs.table[i].size && Compact(fs, i)
    requires forall n {:trigger BlockOf(fs', i, n)} :: IsFileBlock(fs, i, n) ==> BlockOf(fs', i, n) == BlockOf(fs, i, n)
    ensures Contents(fs', i) == Contents(fs, i)
  {
    var c, c' := Contents(fs, i), Contents(fs', i);
    forall p | 0 <= p < |c|
      ensures c[p] == c'[p]
    {
      BelowSize(fs, i, p);
      ContentsAt(fs, i, p);
      ContentsAt(fs', i, p);
    }
  }

  lemma BelowSize(fs: Fs, i: nat, p: nat)
    requires i < |fs.table| && Compact(fs, i) && p < fs.table[i].size
    ensures IsFileBlock(fs, i, p / BSIZE)
  {
    var n := p / BSIZE;
    assert n * BSIZE <= p;
    assert Needed(fs.table[i].size, DataSlot(n));
  }

  /** The result of writing src at off, growing the file when it reaches past the end. */
  function Patch(c: seq<Byte>, off: nat, src: seq<Byte>): seq<Byte>
    requires off <= |c|
  {
    c[..off] + src + if off + |src| < |c| then c[off + |src|..] else []
  }

  lemma PatchAt(c: seq<Byte>, off: nat, src: seq<Byte>, p: nat)
    requires off <= |c| && p < Max(|c|, off + |src|)
    ensures |Patch(c, off, src)| == Max(|c|, off + |src|)
    ensures Patch(c, off, src)[p] == if off <= p < off + |src| then src[p - off] else c[p]
  {
  }

  /** Two writes, the second where the first ended, are one. */
  lemma PatchTwice(c: seq<Byte>, off: nat, a: seq<Byte>, b: seq<Byte>)
    requires off <= |c|
    ensures off + |a| <= |Patch(c, off, a)|
    ensures Patch(Patch(c, off, a), off + |a|, b) == Patch(c, off, a + b)
  {
  }

  // ---------- One round of writei ----------

  function Max(a: nat, b: nat): nat {
    if a < b then b else a
  }

  function Resized(fs: Fs, i: nat, size: Word): Fs
    requires i < |fs.table|
  {
    fs.(table := fs.table[i := fs.table[i].(size := size)])
  }

  /** A stretch of a file that lies in one block and starts no later than the file's end. */
  predicate InOneBlock(size: nat, off: nat, c: nat) {
    0 < c && off <= size <= MAXBYTES && off % BSIZE + c <= BSIZE && off + c <= MAXBYTES
  }

  /** The slots bmap has to fill for block n. */
  predicate Wants(n: nat, k: nat) {
    k == DataSlot(n) || (k == NDIRECT <= n)
  }

  lemma NeededAfter(size: nat, off: nat, c: nat, k: nat)
    requires InOneBlock(size, off, c) && k < SLOTS
    ensures Needed(Max(size, off + c), k) <==> Needed(size, k) || Wants(off / BSIZE, k)
  {
    var n := off / BSIZE;
    assert n * BSIZE <= off < off + c <= (n + 1) * BSIZE;
  }

  /** K is the slots that bmap fills for block n of inode i. */
  ghost predicate Missing(fs: Fs, i: nat, n: nat, K: set<nat>)
    requires i < |fs.table|
  {
    forall k {:trigger Wants(n, k)} :: 0 <= k < SLOTS ==> (k in K <==> Wants(n, k) && SlotAt(fs, i, k) == 0)
  }

  /** The state after bmap has made room and the bytes are in the block, with the size the file then has. */
  function Written(fs1: Fs, i: nat, off: nat, chunk: seq<Byte>): Fs
    requires i < |fs1.table| && InOneBlock(fs1.table[i].size, off, |chunk|)
    requires IsFileBlock(fs1, i, off / BSIZE) && SlotAt(fs1, i, DataSlot(off / BSIZE)) < |fs1.data|
  {
    var n := off / BSIZE;
    Resized(Put(fs1, i, n, Splice(BlockOf(fs1, i, n), off % BSIZE, chunk)), i, Max(fs1.table[i].size, off + |chunk|))
  }

  /** What a round starts from: a good state, the one bmap left, and the stretch to write. */
  ghost predicate Round(fs: Fs, m: map<nat, (nat, nat)>, fs1: Fs, m1: map<nat, (nat, nat)>,
                        i: nat, off: nat, chunk: seq<Byte>, K: set<nat>) {
    && Good(fs, m) && OwnedBy(fs1, m1) && Grew(fs, fs1, i, K)
    && InOneBlock(fs.table[i].size, off, |chunk|) && Missing(fs, i, off / BSIZE, K)
  }

  lemma RoundHasBlock(fs: Fs, m: map<nat, (nat, nat)>, fs1: Fs, m1: map<nat, (nat, nat)>,
                      i: nat, off: nat, chunk: seq<Byte>, K: set<nat>)
    requires Round(fs, m, fs1, m1, i, off, chunk, K)
    ensures fs1.table[i].size == fs.table[i].size
    ensures IsFileBlock(fs1, i, off / BSIZE) && SlotAt(fs1, i, DataSlot(off / BSIZE)) < |fs1.data|
  {
    var n := off / BSIZE;
    assert Wants(n, DataSlot(n));
    assert SlotGrew(fs, fs1, i, K, i, DataSlot(n));
    BlockOwned(fs1, m1, i, DataSlot(n));
  }

  lemma RoundSlot(fs: Fs, m: map<nat, (nat, nat)>, fs1: Fs, m1: map<nat, (nat, nat)>,
                  i: nat, off: nat, chunk: seq<Byte>, K: set<nat>, j: nat, l: nat)
    requires Round(fs, m, fs1, m1, i, off, chunk, K) && IsSlot(fs, j, l)
    requires IsFileBlock(fs1, i, off / BSIZE) && SlotAt(fs1, i, DataSlot(off / BSIZE)) < |fs1.data|
    ensures var fs2 := Written(fs1, i, off, chunk);
      SlotAt(fs2, j, l) == SlotAt(fs1, j, l) && SlotGrew(fs, fs1, i, K, j, l)
  {
    var n := off / BSIZE;
    PutSlot(fs1, m1, i, n, Splice(BlockOf(fs1, i, n), off % BSIZE, chunk), j, l);
  }

  lemma RoundGood(fs: Fs, m: map<nat, (nat, nat)>, fs1: Fs, m1: map<nat, (nat, nat)>,
                  i: nat, off: nat, chunk: seq<Byte>, K: set<nat>)
    requires Round(fs, m, fs1, m1, i, off, chunk, K)
    requires IsFileBlock(fs1, i, off / BSIZE) && SlotAt(fs1, i, DataSlot(off / BSIZE)) < |fs1.data|
    ensures Good(Written(fs1, i, off, chunk), m1)
  {
    var n := off / BSIZE;
    var fs2 := Written(fs1, i, off, chunk);
    PutOwned(fs1, m1, i, n, Splice(BlockOf(fs1, i, n), off % BSIZE, chunk));
    ResizedOwned(Put(fs1, i, n, Splice(BlockOf(fs1, i, n), off % BSIZE, chunk)), m1, i, fs2.table[i].size);
    forall j | 0 <= j < |fs2.table|
      ensures Compact(fs2, j)
    {
      assert Compact(fs, j);
      forall l | 0 <= l < SLOTS
        ensures SlotAt(fs2, j, l) != 0 <==> Needed(fs2.table[j].size, l)
      {
        RoundSlot(fs, m, fs1, m1, i, off, chunk, K, j, l);
        if j == i {
          NeededAfter(fs.table[i].size, off, |chunk|, l);
        }
      }
    }
  }

  lemma ResizedOwned(fs: Fs, m: map<nat, (nat, nat)>, i: nat, size: Word)
    requires OwnedBy(fs, m) && i < |fs.table|
    ensures OwnedBy(Resized(fs, i, size), m)
  {
    var fs' := Resized(fs, i, size);
    forall j, l | IsSlot(fs, j, l)
      ensures SlotAt(fs', j, l) == SlotAt(fs, j, l)
    {
    }
    forall c | c in m
      ensures OwnsOne(fs', c, m[c])
    {
      assert OwnsOne(fs, c, m[c]);
    }
  }

  lemma RoundBlock(fs: Fs, m: map<nat, (nat, nat)>, fs1: Fs, m1: map<nat, (nat, nat)>,
                   i: nat, off: nat, chunk: seq<Byte>, K: set<nat>, j: nat, q: nat)
    requires Round(fs, m, fs1, m1, i, off, chunk, K)
    requires IsFileBlock(fs1, i, off / BSIZE) && SlotAt(fs1, i, DataSlot(off / BSIZE)) < |fs1.data|
    requires IsFileBlock(fs, j, q)
    ensures BlockOf(Written(fs1, i, off, chunk), j, q) ==
      if j == i && q == off / BSIZE then Splice(BlockOf(fs, i, q), off % BSIZE, chunk) else BlockOf(fs, j, q)
  {
    var n := off / BSIZE;
    var block := Splice(BlockOf(fs1, i, n), off % BSIZE, chunk);
    assert SlotGrew(fs, fs1, i, K, j, DataSlot(q));
    PutBlock(fs1, m1, i, n, block, j, q);
    RoundSlot(fs, m, fs1, m1, i, off, chunk, K, j, DataSlot(q));
    PutSlot(fs1, m1, i, n, block, j, DataSlot(q));
    assert BlockOf(fs1, j, q) == BlockOf(fs, j, q);
  }

  /** No other file changes. */
  lemma RoundOthers(fs: Fs, m: map<nat, (nat, nat)>, fs1: Fs, m1: map<nat, (nat, nat)>,
                    i: nat, off: nat, chunk: seq<Byte>, K: set<nat>, j: nat)
    requires Round(fs, m, fs1, m1, i, off, chunk, K) && j < |fs.table| && j != i
    requires IsFileBlock(fs1, i, off / BSIZE) && SlotAt(fs1, i, DataSlot(off / BSIZE)) < |fs1.data|
    ensures var fs2 := Written(fs1, i, off, chunk);
      fs2.table[j] == fs.table[j] && fs.table[j].size <= MAXBYTES && Contents(fs2, j) == Contents(fs, j)
  {
    var fs2 := Written(fs1, i, off, chunk);
    forall q | IsFileBlock(fs, j, q)
      ensures BlockOf(fs2, j, q) == BlockOf(fs, j, q)
    {
      RoundBlock(fs, m, fs1, m1, i, off, chunk, K, j, q);
    }
    SameContents(fs, fs2, j);
  }

  /** The written file reads as the old one with the chunk patched in. */
  lemma RoundContents(fs: Fs, m: map<nat, (nat, nat)>, fs1: Fs, m1: map<nat, (nat, nat)>,
                      i: nat, off: nat, chunk: seq<Byte>, K: set<nat>)
    requires Round(fs, m, fs1, m1, i, off, chunk, K)
    requires IsFileBlock(fs1, i, off / BSIZE) && SlotAt(fs1, i, DataSlot(off / BSIZE)) < |fs1.data|
    ensures Contents(Written(fs1, i, off, chunk), i) == Patch(Contents(fs, i), off, chunk)
  {
    var c2 := Contents(Written(fs1, i, off, chunk), i);
    var c := Contents(fs, i);
    PatchAt(c, off, chunk, off);
    forall p | 0 <= p < |c2|
      ensures c2[p] == Patch(c, off, chunk)[p]
    {
      RoundByte(fs, m, fs1, m1, i, off, chunk, K, p);
      PatchAt(c, off, chunk, p);
      ContentsAt(Written(fs1, i, off, chunk), i, p);
      if p < |c| {
        ContentsAt(fs, i, p);
      }
    }
  }

  /** Every file but i is what it was. */
  ghost predicate OthersSame(fs: Fs, fs': Fs, i: nat) {
    && |fs'.table| == |fs.table| && i < |fs.table| && fs'.table == fs.table[i := fs'.table[i]]
    && forall j {:trigger Contents(fs', j)} ::
         0 <= j < |fs.table| && j != i && fs.table[j].size <= MAXBYTES ==> Contents(fs', j) == Contents(fs, j)
  }

  lemma OthersSameTwice(fs: Fs, fs1: Fs, fs2: Fs, i: nat)
    requires OthersSame(fs, fs1, i) && OthersSame(fs1, fs2, i)
    ensures OthersSame(fs, fs2, i)
  {
    forall j | 0 <= j < |fs.table| && j != i && fs.table[j].size <= MAXBYTES
      ensures Contents(fs2, j) == Contents(fs, j)
    {
      assert Contents(fs1, j) == Contents(fs, j);
    }
  }

  lemma RoundAllOthers(fs: Fs, m: map<nat, (nat, nat)>, fs1: Fs, m1: map<nat, (nat, nat)>,
                       i: nat, off: nat, chunk: seq<Byte>, K: set<nat>)
    requires Round(fs, m, fs1, m1, i, off, chunk, K)
    requires IsFileBlock(fs1, i, off / BSIZE) && SlotAt(fs1, i, DataSlot(off / BSIZE)) < |fs1.data|
    ensures OthersSame(fs, Written(fs1, i, off, chunk), i)
  {
    var fs2 := Written(fs1, i, off, chunk);
    assert fs2.table == fs.table[i := fs2.table[i]];
    forall j | 0 <= j < |fs.table| && j != i && fs.table[j].size <= MAXBYTES
      ensures Contents(fs2, j) == Contents(fs, j)
    {
      RoundOthers(fs, m, fs1, m1, i, off, chunk, K, j);
    }
  }

  lemma RoundByte(fs: Fs, m: map<nat, (nat, nat)>, fs1: Fs, m1: map<nat, (nat, nat)>,
                  i: nat, off: nat, chunk: seq<Byte>, K: set<nat>, p: nat)
    requires Round(fs, m, fs1, m1, i, off, chunk, K)
    requires IsFileBlock(fs1, i, off / BSIZE) && SlotAt(fs1, i, DataSlot(off / BSIZE)) < |fs1.data|
    requires p < Max(fs.table[i].size, off + |chunk|)
    ensures var fs2 := Written(fs1, i, off, chunk);
      ByteOf(fs2, i, p) == if off <= p < off + |chunk| then chunk[p - off] else ByteOf(fs, i, p)
  {
    if off <= p < off + |chunk| {
      NewByte(fs1, m1, i, off, chunk, p);
    } else {
      BelowSize(fs, i, p);
      RoundBlock(fs, m, fs1, m1, i, off, chunk, K, i, p / BSIZE);
      if p / BSIZE == off / BSIZE {
        SpliceOutside(BlockOf(fs, i, p / BSIZE), off, chunk, p);
      }
    }
  }

  lemma SpliceOutside(block: Block, off: nat, chunk: seq<Byte>, p: nat)
    requires off % BSIZE + |chunk| <= BSIZE && p / BSIZE == off / BSIZE && !(off <= p < off + |chunk|)
    ensures Splice(block, off % BSIZE, chunk)[p % BSIZE] == block[p % BSIZE]
  {
    assert p - off == p % BSIZE - off % BSIZE;
  }

  lemma NewByte(fs1: Fs, m1: map<nat, (nat, nat)>, i: nat, off: nat, chunk: seq<Byte>, p: nat)
    requires OwnedBy(fs1, m1) && i < |fs1.table| && InOneBlock(fs1.table[i].size, off, |chunk|)
    requires IsFileBlock(fs1, i, off / BSIZE) && SlotAt(fs1, i, DataSlot(off / BSIZE)) < |fs1.data|
    requires off <= p < off + |chunk|
    ensures ByteOf(Written(fs1, i, off, chunk), i, p) == chunk[p - off]
  {
    var n := off / BSIZE;
    var block := Splice(BlockOf(fs1, i, n), off % BSIZE, chunk);
    assert p / BSIZE == n && p % BSIZE == off % BSIZE + (p - off);
    PutBlock(fs1, m1, i, n, block, i, n);
    PutSlot(fs1, m1, i, n, block, i, DataSlot(n));
    ResizedBlock(Put(fs1, i, n, block), i, Max(fs1.table[i].size, off + |chunk|), n);
  }

  lemma ResizedBlock(fs: Fs, i: nat, size: Word, n: nat)
    requires i < |fs.table| && DataSlot(n) < SLOTS
    ensures BlockOf(Resized(fs, i, size), i, n) == BlockOf(fs, i, n)
  {
  }

  function EmptyInode(): Inode {
    Dinode(0, 0, 0, 0, 0, [0, 0, 0, 0, 0, 0, 0, 0, 0, 0, 0, 0, 0])
  }

  /** No file, and the first k blocks marked. */
  function Blank(first: nat, size: nat, n: nat, k: nat): Fs {
    Fs(first, seq(size, b => b < k), seq(n, _ => EmptyInode()), seq(size, _ => ZeroBlock()))
  }

  /** A disk as it is laid out, with no file on it, is good. */
  lemma BlankGood(first: nat, size: nat, n: nat)
    requires 0 < first <= size < 0x1_0000_0000
    ensures Good(Blank(first, size, n, first), map[])
  {
    var fs := Blank(first, size, n, first);
    forall i, k | IsSlot(fs, i, k)
      ensures SlotAt(fs, i, k) == 0
    {
    }
    forall i | 0 <= i < n
      ensures Compact(fs, i)
    {
    }
  }

  lemma BlankMarked(first: nat, size: nat, n: nat, k: nat)
    requires k < size
    ensures var fs := Blank(first, size, n, k); fs.(used := fs.used[k := true]) == Blank(first, size, n, k + 1)
  {
  }
}
