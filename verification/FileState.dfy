/** The file layer's states as methods see them: how the blocks of the disk hold a state, and what each stage of
    allocation, writing and truncation does to it. */
module FileState {
  import opened Common
  import opened BlockWords
  import opened FileModel
  import opened FileTrunc
  import opened DiskLayout
  import opened FileCost
  import opened WriteTrace
  import Log

  /** The record of an operation: the calls of log_write since begin_op, when the disk was `base` and the log
      listed lh0, lead to these blocks and this log. */
  ghost predicate Recorded(nlog: nat, base: Disk, lh0: set<nat>, trace: Trace, blocks: Disk, touched: set<nat>,
                           lh: set<nat>, refused: bool) {
    Effect(nlog, base, lh0, trace) == Outcome(blocks, touched, lh, refused)
  }

  /** The superblock. `first` is where the data blocks start. */
  datatype Geo = Geo(size: nat, first: nat, ninodes: nat, inodestart: nat, bmapstart: nat)

  predicate GeoOk(g: Geo) {
    && 0 < g.first <= g.size < 0x1_0000_0000
    && g.inodestart + (g.ninodes + 7) / 8 <= g.bmapstart
    && g.bmapstart + (g.size + 4095) / 4096 <= g.first
  }

  /** The block that holds inode i. */
  function InodeBlock(g: Geo, i: nat): nat {
    g.inodestart + i / IPB
  }

  /** The blocks of the bitmap. */
  ghost function Bitmap(g: Geo): set<nat> {
    set c: nat | c < g.size :: BitmapBlock(g.bmapstart, c)
  }

  predicate Marked(g: Geo, blocks: Disk, b: nat)
    requires GeoOk(g) && |blocks| == g.size && b < g.size
  {
    MarkedIn(blocks[g.bmapstart + b / BPB], b % BPB)
  }

  /** The inode as the disk has it. */
  function OnDisk(g: Geo, blocks: Disk, i: nat): Inode
    requires GeoOk(g) && |blocks| == g.size && i < g.ninodes
  {
    InodeIn(blocks[g.inodestart + i / IPB], i % IPB)
  }

  /** The blocks, with the inodes in memory, hold the state fs. */
  ghost predicate Couples(g: Geo, blocks: Disk, mem: seq<Inode>, fs: Fs) {
    && GeoOk(g) && |blocks| == |fs.used| == |fs.data| == g.size
    && fs.first == g.first && fs.table == mem && |mem| == g.ninodes
    && MarksAgree(g, blocks, fs.used) && DataAgrees(g, blocks, fs.data)
  }

  ghost predicate MarksAgree(g: Geo, blocks: Disk, used: seq<bool>)
    requires GeoOk(g) && |blocks| == |used| == g.size
  {
    forall b {:trigger Marked(g, blocks, b)} :: 0 <= b < g.size ==> used[b] == Marked(g, blocks, b)
  }

  ghost predicate DataAgrees(g: Geo, blocks: Disk, data: Disk)
    requires GeoOk(g) && |blocks| == |data| == g.size
  {
    forall b {:trigger blocks[b]} :: g.first <= b < g.size ==> data[b] == blocks[b]
  }

  ghost predicate SameInodes(g: Geo, blocks: Disk, blocks': Disk)
    requires GeoOk(g) && |blocks| == |blocks'| == g.size
  {
    forall i {:trigger OnDisk(g, blocks', i)} :: 0 <= i < g.ninodes ==> OnDisk(g, blocks', i) == OnDisk(g, blocks, i)
  }

  lemma KeepsInodes(g: Geo, blocks: Disk, x: nat, block: Block)
    requires GeoOk(g) && |blocks| == g.size && g.bmapstart <= x < g.size
    ensures SameInodes(g, blocks, blocks[x := block])
  {
  }

  lemma KeepsMarks(g: Geo, blocks: Disk, x: nat, block: Block, c: nat)
    requires GeoOk(g) && |blocks| == g.size && x < g.size && (x < g.bmapstart || g.first <= x) && c < g.size
    ensures Marked(g, blocks[x := block], c) == Marked(g, blocks, c)
  {
  }

  lemma MarkedAfter(g: Geo, blocks: Disk, b: nat, v: bool, c: nat)
    requires GeoOk(g) && |blocks| == g.size && b < g.size && c < g.size
    ensures var bb := g.bmapstart + b / BPB;
      Marked(g, blocks[bb := SetMark(blocks[bb], b % BPB, v)], c) == if c == b then v else Marked(g, blocks, c)
  {
    var bb := g.bmapstart + b / BPB;
    if c / BPB == b / BPB {
      SetMarkAt(blocks[bb], b % BPB, v, c % BPB);
      assert c == b <==> c % BPB == b % BPB;
    }
  }

  lemma MarkCouples(g: Geo, blocks: Disk, mem: seq<Inode>, fs: Fs, b: nat, v: bool)
    requires Couples(g, blocks, mem, fs) && b < g.size
    ensures var bb := g.bmapstart + b / BPB;
      var blocks' := blocks[bb := SetMark(blocks[bb], b % BPB, v)];
      Couples(g, blocks', mem, fs.(used := fs.used[b := v])) && SameInodes(g, blocks, blocks')
  {
    var bb := g.bmapstart + b / BPB;
    var block := SetMark(blocks[bb], b % BPB, v);
    KeepsInodes(g, blocks, bb, block);
    var blocks' := blocks[bb := block];
    forall c | 0 <= c < g.size
      ensures fs.used[b := v][c] == Marked(g, blocks', c)
    {
      assert fs.used[c] == Marked(g, blocks, c);
      MarkedAfter(g, blocks, b, v, c);
    }
    KeepsData(g, blocks, fs.data, bb, block);
  }

  lemma KeepsData(g: Geo, blocks: Disk, data: Disk, x: nat, block: Block)
    requires GeoOk(g) && |blocks| == |data| == g.size && x < g.first && DataAgrees(g, blocks, data)
    ensures DataAgrees(g, blocks[x := block], data)
  {
    var blocks' := blocks[x := block];
    forall b | g.first <= b < g.size
      ensures data[b] == blocks'[b]
    {
      assert data[b] == blocks[b];
    }
  }

  lemma KeepsAllMarks(g: Geo, blocks: Disk, used: seq<bool>, x: nat, block: Block)
    requires GeoOk(g) && |blocks| == |used| == g.size && x < g.size && (x < g.bmapstart || g.first <= x)
    requires MarksAgree(g, blocks, used)
    ensures MarksAgree(g, blocks[x := block], used)
  {
    var blocks' := blocks[x := block];
    forall c | 0 <= c < g.size
      ensures used[c] == Marked(g, blocks', c)
    {
      assert used[c] == Marked(g, blocks, c);
      KeepsMarks(g, blocks, x, block, c);
    }
  }

  lemma DataCouples(g: Geo, blocks: Disk, mem: seq<Inode>, fs: Fs, b: nat, block: Block)
    requires Couples(g, blocks, mem, fs) && g.first <= b < g.size
    ensures Couples(g, blocks[b := block], mem, fs.(data := fs.data[b := block]))
    ensures SameInodes(g, blocks, blocks[b := block])
  {
    KeepsInodes(g, blocks, b, block);
    KeepsAllMarks(g, blocks, fs.used, b, block);
    var blocks', data' := blocks[b := block], fs.data[b := block];
    forall c | g.first <= c < g.size
      ensures data'[c] == blocks'[c]
    {
      assert fs.data[c] == blocks[c];
    }
  }

  lemma OnDiskAfter(g: Geo, blocks: Disk, i: nat, ip: Inode, j: nat)
    requires GeoOk(g) && |blocks| == g.size && i < g.ninodes && j < g.ninodes
    ensures var ib := g.inodestart + i / IPB;
      OnDisk(g, blocks[ib := StoreWords(blocks[ib], i % IPB, WordsOf(ip), 16)], j) ==
        if j == i then ip else OnDisk(g, blocks, j)
  {
    var b, p, q := g.inodestart + i / IPB, i % IPB, j % IPB;
    if j / IPB == i / IPB {
      assert j == i <==> q == p;
      StoreRoundTrip(blocks[b], p, ip, q);
    }
  }

  /** Storing an inode in its place is seen there and nowhere else. */
  lemma InodeCouples(g: Geo, blocks: Disk, mem: seq<Inode>, fs: Fs, i: nat, ip: Inode, block: Block)
    requires Couples(g, blocks, mem, fs) && i < g.ninodes
    requires block == StoreWords(blocks[g.inodestart + i / IPB], i % IPB, WordsOf(ip), 16)
    ensures var blocks' := blocks[g.inodestart + i / IPB := block];
      && Couples(g, blocks', mem, fs) && OnDisk(g, blocks', i) == ip
      && forall j {:trigger OnDisk(g, blocks', j)} ::
           0 <= j < g.ninodes && j != i ==> OnDisk(g, blocks', j) == OnDisk(g, blocks, j)
  {
    var ib := g.inodestart + i / IPB;
    KeepsAllMarks(g, blocks, fs.used, ib, block);
    KeepsData(g, blocks, fs.data, ib, block);
    forall j | 0 <= j < g.ninodes
      ensures OnDisk(g, blocks[ib := block], j) == if j == i then ip else OnDisk(g, blocks, j)
    {
      OnDiskAfter(g, blocks, i, ip, j);
    }
    OnDiskAfter(g, blocks, i, ip, i);
  }

  method StoreInode(block: Block, k: nat, ip: Inode) returns (block': Block)
    requires k < IPB
    ensures block' == StoreWords(block, k, WordsOf(ip), 16)
  {
    block' := block;
    var ws := WordsOf(ip);
    for w := 0 to 16
      invariant block' == StoreWords(block, k, ws, w)
    {
      block' := SetWord(block', 16 * k + w, ws[w]);
    }
  }

  lemma BlankInode(k: nat)
    requires k < IPB
    ensures InodeIn(ZeroBlock(), k) == EmptyInode()
  {
    forall w | 0 <= w < 16
      ensures WordsIn(ZeroBlock(), k)[w] == 0
    {
      ZeroWords(16 * k + w);
    }
  }

  /** A disk of zeroes holds no file and marks no block. */
  lemma BlankCouples(g: Geo)
    requires GeoOk(g)
    ensures var blocks, fs := seq(g.size, _ => ZeroBlock()), Blank(g.first, g.size, g.ninodes, 0);
      Couples(g, blocks, fs.table, fs) && Synced(g, blocks, fs.table)
  {
    var blocks, fs := seq(g.size, _ => ZeroBlock()), Blank(g.first, g.size, g.ninodes, 0);
    forall b | 0 <= b < g.size
      ensures fs.used[b] == Marked(g, blocks, b)
    {
      ZeroBits(b % BPB % 8);
    }
    forall i | 0 <= i < g.ninodes
      ensures OnDisk(g, blocks, i) == fs.table[i]
    {
      BlankInode(i % IPB);
    }
  }

  /** What bmap answers, and its two panics. */
  datatype Addr = At(b: nat) | OutOfBlocks | OutOfRange

  /** The inode itself is free as well. */
  ghost predicate Released(fs: Fs, fs': Fs, i: nat) {
    && i < |fs.table| && Freed(fs, fs'.used, i, SLOTS) && OthersSame(fs, fs', i)
    && fs' == Rekinded(Emptied(fs, fs'.used, i), i, 0)
  }

  /** What truncation leaves of an inode: its type, numbers and links, but no bytes and no blocks. */
  predicate Hollow(ip: Inode, ip': Inode) {
    && ip'.major == ip.major && ip'.minor == ip.minor && ip'.nlink == ip.nlink && ip'.size == 0
    && forall x :: 0 <= x < |ip'.addrs| ==> ip'.addrs[x] == 0
  }

  function Rekinded(fs: Fs, i: nat, kind: Half): Fs
    requires i < |fs.table|
  {
    fs.(table := fs.table[i := fs.table[i].(kind := kind)])
  }

  lemma RekindedOwned(fs: Fs, m: map<nat, (nat, nat)>, fs': Fs, i: nat, kind: Half)
    requires OwnedBy(fs, m) && i < |fs.table| && fs' == Rekinded(fs, i, kind)
    ensures OwnedBy(fs', m)
  {
    forall j, l | IsSlot(fs, j, l)
      ensures SlotAt(fs', j, l) == SlotAt(fs, j, l)
    {
    }
    forall c | c in m
      ensures OwnsOne(fs', c, m[c])
    {
      assert OwnsOne(fs, c, m[c]);
    }
  }

  lemma RekindedCompact(fs: Fs, fs': Fs, i: nat, kind: Half, j: nat)
    requires i < |fs.table| && fs' == Rekinded(fs, i, kind) && j < |fs.table| && Compact(fs, j)
    ensures Compact(fs', j) && Contents(fs', j) == Contents(fs, j)
  {
    forall l | 0 <= l < SLOTS
      ensures SlotAt(fs', j, l) == SlotAt(fs, j, l)
    {
    }
    SameContents(fs, fs', j);
  }

  lemma RekindedGood(fs: Fs, m: map<nat, (nat, nat)>, fs': Fs, i: nat, kind: Half)
    requires Good(fs, m) && i < |fs.table| && fs' == Rekinded(fs, i, kind)
    ensures Good(fs', m) && OthersSame(fs, fs', i)
  {
    RekindedOwned(fs, m, fs', i, kind);
    forall j | 0 <= j < |fs.table|
      ensures Compact(fs', j) && fs.table[j].size <= MAXBYTES && Contents(fs', j) == Contents(fs, j)
    {
      assert Compact(fs, j);
      RekindedCompact(fs, fs', i, kind, j);
    }
  }

  lemma ReleaseEnds(fs0: Fs, fs1: Fs, m: map<nat, (nat, nat)>, fs': Fs, i: nat)
    requires Known(Truncated(fs0, fs1, i)) && Known(Good(fs1, m)) && i < |fs1.table| && fs' == Rekinded(fs1, i, 0)
    ensures Known(Good(fs', m)) && Known(Released(fs0, fs', i))
    ensures i < |fs0.table| && fs'.table[i].kind == 0 && Hollow(fs0.table[i], fs'.table[i])
  {
    RekindedGood(fs1, m, fs', i, 0);
    OthersSameTwice(fs0, fs1, fs', i);
  }

  /** Inode i has no blocks and no bytes, exactly the blocks it had are free, and nothing else changed. */
  ghost predicate Truncated(fs: Fs, fs': Fs, i: nat) {
    && i < |fs.table| && fs' == Emptied(fs, fs'.used, i) && OthersSame(fs, fs', i)
    && Freed(fs, fs'.used, i, SLOTS)
  }

  lemma TruncEnds(fs0: Fs, m: map<nat, (nat, nat)>, fs1: Fs, fs': Fs, m': map<nat, (nat, nat)>, i: nat)
    requires Known(Good(fs0, m)) && Known(Cleared(fs0, fs1, i, NDIRECT + 1) && Freed(fs0, fs1.used, i, SLOTS))
    requires i < |fs1.table| && fs' == Resized(fs1, i, 0) && m' == Without(m, i)
    ensures Known(Good(fs', m')) && Known(Truncated(fs0, fs', i))
    ensures i < |fs0.table| && fs'.table[i].kind == fs0.table[i].kind && Hollow(fs0.table[i], fs'.table[i])
  {
    assert fs'.table[i].addrs == [0, 0, 0, 0, 0, 0, 0, 0, 0, 0, 0, 0, 0];
    assert fs' == Emptied(fs0, fs'.used, i);
    EmptiedGood(fs0, m, fs'.used, i);
    forall j | 0 <= j < |fs0.table| && j != i && fs0.table[j].size <= MAXBYTES
      ensures Contents(fs', j) == Contents(fs0, j)
    {
      assert Compact(fs0, j);
      EmptiedOthers(fs0, fs'.used, i, j);
    }
  }

  /** The first k addresses of inode i are zero; apart from them and the bitmap nothing has changed. */
  ghost predicate Cleared(fs0: Fs, fs: Fs, i: nat, k: nat)
    requires k <= NDIRECT + 1
  {
    && i < |fs0.table| && i < |fs.table|
    && fs == fs0.(used := fs.used, table := fs0.table[i := fs0.table[i].(addrs := fs.table[i].addrs)])
    && forall x :: 0 <= x <= NDIRECT ==> fs.table[i].addrs[x] == if x < k then 0 else fs0.table[i].addrs[x]
  }

  lemma ClearedAll(fs0: Fs, fs: Fs, i: nat)
    requires Cleared(fs0, fs, i, NDIRECT) && fs.table[i].addrs[NDIRECT] == 0
    ensures Cleared(fs0, fs, i, NDIRECT + 1)
  {
  }

  ghost predicate OthersOnDisk(g: Geo, blocks: Disk, blocks': Disk, i: nat)
    requires GeoOk(g) && |blocks| == |blocks'| == g.size
  {
    forall j {:trigger OnDisk(g, blocks', j)} ::
      0 <= j < g.ninodes && j != i ==> OnDisk(g, blocks', j) == OnDisk(g, blocks, j)
  }

  lemma SyncedAfter(g: Geo, blocks: Disk, blocks': Disk, t: seq<Inode>, t': seq<Inode>, i: nat)
    requires GeoOk(g) && |blocks| == |blocks'| == g.size && |t| == |t'| == g.ninodes && i < g.ninodes
    requires Synced(g, blocks, t) && OthersOnDisk(g, blocks, blocks', i)
    requires t' == t[i := t'[i]] && OnDisk(g, blocks', i) == t'[i]
    ensures Synced(g, blocks', t')
  {
    forall j | 0 <= j < g.ninodes
      ensures OnDisk(g, blocks', j) == t'[j]
    {
      assert OnDisk(g, blocks, j) == t[j];
    }
  }

  lemma TruncSynced(g: Geo, blocks: Disk, blocks': Disk, t: seq<Inode>, t': seq<Inode>, i: nat)
    requires GeoOk(g) && |blocks| == |blocks'| == g.size && |t| == |t'| == g.ninodes && i < g.ninodes
    requires Known(Synced(g, blocks, t)) && Known(OthersOnDisk(g, blocks, blocks', i))
    requires t' == t[i := t'[i]] && OnDisk(g, blocks', i) == t'[i]
    ensures Known(Synced(g, blocks', t'))
  {
    SyncedAfter(g, blocks, blocks', t, t', i);
  }

  lemma SyncedStays(g: Geo, blocks: Disk, blocks': Disk, t: seq<Inode>)
    requires GeoOk(g) && |blocks| == |blocks'| == g.size && |t| == g.ninodes
    requires Synced(g, blocks, t) && SameInodes(g, blocks, blocks')
    ensures Synced(g, blocks', t)
  {
    forall j | 0 <= j < g.ninodes
      ensures OnDisk(g, blocks', j) == t[j]
    {
      assert OnDisk(g, blocks, j) == t[j];
    }
  }

  /** dst is the n bytes of file i from off on. */
  ghost predicate ReadsSlice(fs: Fs, i: nat, off: nat, n: nat, dst: seq<Byte>) {
    i < |fs.table| && Compact(fs, i) && off + n <= fs.table[i].size && dst == Contents(fs, i)[off..off + n]
  }

  /** What writei accepts. */
  predicate Fits(size: nat, off: nat, n: nat) {
    off <= size && off + n <= MAXBYTES
  }

  /** The test for wrap-around is exact. */
  lemma WrapTest(off: Word, n: Word)
    ensures (off + n) % 0x1_0000_0000 < off <==> off + n >= 0x1_0000_0000
  {
  }

  /** One file has src written at off; its other attributes and every other file are as they were. */
  ghost predicate WroteFile(fs: Fs, fs': Fs, i: nat, off: nat, src: seq<Byte>) {
    && i < |fs.table| && OthersSame(fs, fs', i)
    && fs.table[i].size <= MAXBYTES && fs'.table[i].size <= MAXBYTES && off <= fs.table[i].size
    && Contents(fs', i) == Patch(Contents(fs, i), off, src)
    && fs'.table[i] == fs.table[i].(size := fs'.table[i].size, addrs := fs'.table[i].addrs)
  }

  /** writei after tot bytes. */
  ghost predicate SoFar(fs0: Fs, fs: Fs, m: map<nat, (nat, nat)>, i: nat, off: nat, src: seq<Byte>, tot: nat,
                        c: seq<Byte>) {
    && i < |fs0.table| && i < |fs.table| && tot <= |src| && off <= |c| == fs0.table[i].size && off + |src| <= MAXBYTES
    && |c| <= MAXBYTES
    && Midway(fs, m, i, Max(|c|, off + tot), Patch(c, off, src[..tot]))
    && OthersSame(fs0, Resized(fs, i, Max(|c|, off + tot)), i)
    && fs.table == fs0.table[i := fs0.table[i].(addrs := fs.table[i].addrs)]
    && (off + tot <= |c| ==> fs.table == fs0.table)
  }

  lemma SoFarStart(fs: Fs, m: map<nat, (nat, nat)>, i: nat, off: nat, src: seq<Byte>, c: seq<Byte>)
    requires Good(fs, m) && Reads(fs, i, c) && off <= |c| && off + |src| <= MAXBYTES
    ensures SoFar(fs, fs, m, i, off, src, 0, c)
  {
    assert Resized(fs, i, |c|) == fs;
    assert Patch(c, off, src[..0]) == c;
  }

  lemma SoFarStep(fs0: Fs, fs1: Fs, m1: map<nat, (nat, nat)>, fs2: Fs, m: map<nat, (nat, nat)>, i: nat, off: nat,
                  src: seq<Byte>, tot: nat, tot': nat, c: seq<Byte>, p: nat, chunk: seq<Byte>, E: Word, c1: seq<Byte>)
    requires Known(SoFar(fs0, fs1, m1, i, off, src, tot, c)) && tot <= tot' <= |src| && off <= |c|
    requires p == off + tot && chunk == src[tot..tot'] && E == Max(|c|, p) && c1 == Patch(c, off, src[..tot])
    requires Known(RoundDone(fs1, fs2, m, i, p, chunk, E, c1))
    ensures SoFar(fs0, fs2, m, i, off, src, tot', c)
  {
    PatchTwice(c, off, src[..tot], chunk);
    assert src[..tot] + chunk == src[..tot'];
    var E': Word := Max(E, p + |chunk|);
    assert E' == Max(|c|, off + tot');
    OthersSameTwice(fs0, Resized(fs1, i, E), Resized(fs2, i, E'), i);
  }

  lemma SoFarSize(fs0: Fs, fs: Fs, m: map<nat, (nat, nat)>, i: nat, off: nat, src: seq<Byte>, c: seq<Byte>)
    requires Known(SoFar(fs0, fs, m, i, off, src, |src|, c))
    ensures fs.table[i].size == |c| && off + |src| <= MAXBYTES && (|src| == 0 ==> off <= |c|)
    ensures fs.table == fs0.table[i := fs.table[i]] && (off + |src| <= |c| ==> fs.table == fs0.table)
  {
  }

  lemma SoFarEnds(fs0: Fs, fs: Fs, fs': Fs, m: map<nat, (nat, nat)>, i: nat, off: nat, src: seq<Byte>, c: seq<Byte>,
                  size: Word)
    requires Known(SoFar(fs0, fs, m, i, off, src, |src|, c)) && Reads(fs0, i, c)
    requires i < |fs.table| && size == Max(|c|, off + |src|) && fs' == Resized(fs, i, size)
    ensures Good(fs', m) && WroteFile(fs0, fs', i, off, src)
  {
    assert src[..|src|] == src;
    ReadsContents(fs0, i, c);
    ReadsContents(fs', i, Patch(c, off, src));
  }

  /** The file system in the middle of a write: with the size E for inode i it would be good, and that file
      would read c. */
  ghost predicate Midway(fs: Fs, m: map<nat, (nat, nat)>, i: nat, E: Word, c: seq<Byte>) {
    i < |fs.table| && Good(Resized(fs, i, E), m) && Reads(Resized(fs, i, E), i, c)
  }

  /** What a round leaves. */
  ghost predicate RoundDone(fs: Fs, fs': Fs, m': map<nat, (nat, nat)>, i: nat, off: nat, chunk: seq<Byte>,
                            E: Word, c: seq<Byte>) {
    && i < |fs.table| && i < |fs'.table| && off <= |c| && InOneBlock(E, off, |chunk|)
    && Midway(fs', m', i, Max(E, off + |chunk|), Patch(c, off, chunk))
    && OthersSame(Resized(fs, i, E), Resized(fs', i, Max(E, off + |chunk|)), i)
    && fs'.table == fs.table[i := fs.table[i].(addrs := fs'.table[i].addrs)]
    && (off + |chunk| <= E ==> fs'.table == fs.table)
  }

  lemma ResizedGood(fs: Fs, m: map<nat, (nat, nat)>, i: nat, E: Word)
    requires i < |fs.table| && Good(Resized(fs, i, E), m)
    ensures OwnedBy(fs, m)
  {
    var G := Resized(fs, i, E);
    ResizedOwned(G, m, i, fs.table[i].size);
    assert Resized(G, i, fs.table[i].size) == fs;
  }

  lemma ResizedGrew(fs: Fs, fs1: Fs, i: nat, K: set<nat>, E: Word)
    requires Grew(fs, fs1, i, K)
    ensures Grew(Resized(fs, i, E), Resized(fs1, i, E), i, K)
  {
    var G, G1 := Resized(fs, i, E), Resized(fs1, i, E);
    forall j, l | IsSlot(G, j, l)
      ensures SlotGrew(G, G1, i, K, j, l)
    {
      assert SlotGrew(fs, fs1, i, K, j, l);
    }
    forall j, n | IsFileBlock(G, j, n)
      ensures BlockOf(G1, j, n) == BlockOf(G, j, n)
    {
      assert IsFileBlock(fs, j, n);
      assert BlockOf(fs1, j, n) == BlockOf(fs, j, n);
    }
  }

  lemma RoundStarts(fs: Fs, m: map<nat, (nat, nat)>, fs1: Fs, m1: map<nat, (nat, nat)>, i: nat, off: nat,
                    chunk: seq<Byte>, K: set<nat>, E: Word, c: seq<Byte>, b: nat)
    requires Midway(fs, m, i, E, c) && InOneBlock(E, off, |chunk|)
    requires OwnedBy(fs1, m1) && Mapped(fs, fs1, i, off / BSIZE, At(b), K)
    ensures Round(Resized(fs, i, E), m, Resized(fs1, i, E), m1, i, off, chunk, K)
  {
    ResizedGrew(fs, fs1, i, K, E);
    ResizedOwned(fs1, m1, i, E);
    ResizedMissing(fs, i, off / BSIZE, K, E);
  }

  lemma RoundEnds(G: Fs, m: map<nat, (nat, nat)>, G1: Fs, m1: map<nat, (nat, nat)>, i: nat, off: nat,
                  chunk: seq<Byte>, K: set<nat>, c: seq<Byte>)
    requires Round(G, m, G1, m1, i, off, chunk, K) && Reads(G, i, c)
    ensures G1.table[i].size == G.table[i].size
    ensures IsFileBlock(G1, i, off / BSIZE) && SlotAt(G1, i, DataSlot(off / BSIZE)) < |G1.data|
    ensures var G2 := Written(G1, i, off, chunk);
      Good(G2, m1) && Reads(G2, i, Patch(c, off, chunk)) && OthersSame(G, G2, i)
  {
    RoundHasBlock(G, m, G1, m1, i, off, chunk, K);
    RoundGood(G, m, G1, m1, i, off, chunk, K);
    RoundAllOthers(G, m, G1, m1, i, off, chunk, K);
    RoundContents(G, m, G1, m1, i, off, chunk, K);
    ReadsContents(G, i, c);
    ReadsContents(Written(G1, i, off, chunk), i, Patch(c, off, chunk));
  }

  lemma RoundRuns(fs: Fs, m: map<nat, (nat, nat)>, fs1: Fs, m1: map<nat, (nat, nat)>, i: nat, off: nat,
                  chunk: seq<Byte>, K: set<nat>, E: Word, c: seq<Byte>, b: nat)
    requires Midway(fs, m, i, E, c) && InOneBlock(E, off, |chunk|)
    requires OwnedBy(fs1, m1) && Mapped(fs, fs1, i, off / BSIZE, At(b), K)
    ensures fs1.first <= b < |fs1.data|
    ensures var fs2 := fs1.(data := fs1.data[b := Splice(fs1.data[b], off % BSIZE, chunk)]);
      RoundDone(fs, fs2, m1, i, off, chunk, E, c)
  {
    var n := off / BSIZE;
    var G, G1 := Resized(fs, i, E), Resized(fs1, i, E);
    BlockOwned(fs1, m1, i, DataSlot(n));
    RoundStarts(fs, m, fs1, m1, i, off, chunk, K, E, c, b);
    RoundEnds(G, m, G1, m1, i, off, chunk, K, c);
    var fs2 := fs1.(data := fs1.data[b := Splice(fs1.data[b], off % BSIZE, chunk)]);
    assert Written(G1, i, off, chunk) == Resized(fs2, i, Max(E, off + |chunk|));
    if off + |chunk| <= E {
      BelowSize(G, i, off);
      assert HasSlot(fs, i, DataSlot(n));
    }
  }

  lemma ResizedMissing(fs: Fs, i: nat, n: nat, K: set<nat>, E: Word)
    requires i < |fs.table| && Missing(fs, i, n, K)
    ensures Missing(Resized(fs, i, E), i, n, K)
  {
    forall k | 0 <= k < SLOTS
      ensures SlotAt(Resized(fs, i, E), i, k) == SlotAt(fs, i, k)
    {
    }
  }

  const T_DEV: Half := 3

  /** What readi and writei return: a device's answer, -1, a number of bytes, or the panic of balloc or of
      log_write. */
  datatype Io = Device | Failed | Count(n: nat) | Panicked | TooBig

  function Min(a: int, b: int): int {
    if a < b then a else b
  }

  /** What is left of the transfer, or of the block. */
  function RoundLength(off: nat, left: nat): (m: nat)
    requires left > 0
    ensures 0 < m <= left && off % BSIZE + m <= BSIZE && (m == left || (off + m) % BSIZE == 0)
  {
    Min(left, BSIZE - off % BSIZE)
  }

  /** The bytes of the next round of writei, after tot bytes and at p, and where it ends. */
  method NextRound(src: seq<Byte>, tot: nat, p: nat) returns (chunk: seq<Byte>, tot': nat, p': nat)
    requires tot < |src|
    ensures tot < tot' <= |src| && p' == p + |chunk| && chunk == src[tot..tot'] && |chunk| == tot' - tot
    ensures p % BSIZE + |chunk| <= BSIZE && (tot' == |src| || p' % BSIZE == 0)
  {
    var m := RoundLength(p, |src| - tot);
    tot', p' := tot + m, p + m;
    chunk := src[tot..tot'];
  }

  lemma SliceOn(c: seq<Byte>, a: nat, b: nat, d: nat)
    requires a <= b <= d <= |c|
    ensures c[a..b] + c[b..d] == c[a..d]
  {
  }

  lemma ReadSlice(fs: Fs, i: nat, off: nat, m: nat, c: seq<Byte>)
    requires Reads(fs, i, c) && 0 < m && off % BSIZE + m <= BSIZE && off + m <= |c|
    ensures BlockOf(fs, i, off / BSIZE)[off % BSIZE..off % BSIZE + m] == c[off..off + m]
  {
    var o := off % BSIZE;
    var got, want := BlockOf(fs, i, off / BSIZE)[o..o + m], c[off..off + m];
    forall k | 0 <= k < m
      ensures got[k] == want[k]
    {
      assert ByteOf(fs, i, off + k) == c[off + k];
      assert (off + k) / BSIZE == off / BSIZE && (off + k) % BSIZE == o + k;
    }
  }

  /** Filling the slots K took the first free blocks and passed to log_write exactly what that takes. */
  ghost predicate Charged(bs: nat, fs0: Fs, fs: Fs, i: nat, K: set<nat>, T0: set<nat>, T: set<nat>) {
    Full(fs, i, K) && Took(fs0.used, fs, i, K) && T == T0 + FillSet(bs, fs, i, K)
  }

  lemma ChargedNothing(bs: nat, fs: Fs, i: nat, T: set<nat>)
    requires i < |fs.table|
    ensures Charged(bs, fs, fs, i, {}, T, T)
  {
    FillSetNone(bs, fs, i);
    TookNone(fs, i);
  }

  lemma ChargedOne(bs: nat, fs0: Fs, fs: Fs, i: nat, k: nat, b: nat, T0: set<nat>, T: set<nat>)
    requires IsSlot(fs, i, k) && SlotAt(fs, i, k) == b != 0
    requires b < |fs0.used| && !fs0.used[b] && fs.used == fs0.used[b := true]
    requires forall c :: 0 <= c < b ==> fs0.used[c]
    requires T == T0 + SlotSet(bs, fs, i, k)
    ensures Charged(bs, fs0, fs, i, {k}, T0, T)
  {
    FillSetOne(bs, fs, i, k);
    TookOne(fs0.used, fs, i, k, b);
  }

  lemma ChargedTwice(bs: nat, fs0: Fs, fs1: Fs, fs2: Fs, i: nat, K: set<nat>, L: set<nat>, M: set<nat>,
                     T0: set<nat>, T1: set<nat>, T2: set<nat>)
    requires Charged(bs, fs0, fs1, i, K, T0, T1) && Charged(bs, fs1, fs2, i, L, T1, T2)
    requires Grew(fs1, fs2, i, L) && M == K + L
    ensures Charged(bs, fs0, fs2, i, M, T0, T2)
  {
    GrewKeeps(fs1, fs2, i, L);
    FullTwice(fs1, fs2, i, K, L);
    TookTwice(fs0.used, fs1, fs2, i, K, L);
    FillsTwice(bs, fs1, fs2, i, K, L, T0);
  }

  lemma FillsTwice(bs: nat, fs1: Fs, fs2: Fs, i: nat, K: set<nat>, L: set<nat>, T: set<nat>)
    requires SlotsKept(fs1, fs2, i) && Full(fs1, i, K)
    ensures T + FillSet(bs, fs1, i, K) + FillSet(bs, fs2, i, L) == T + FillSet(bs, fs2, i, K + L)
  {
    FillSetKept(bs, fs1, fs2, i, K);
    FillSetUnion(bs, fs2, i, K, L);
  }

  lemma FullTwice(fs1: Fs, fs2: Fs, i: nat, K: set<nat>, L: set<nat>)
    requires Full(fs1, i, K) && Full(fs2, i, L) && SlotsKept(fs1, fs2, i)
    ensures Full(fs2, i, K + L)
  {
    forall k | k in K + L
      ensures HasSlot(fs2, i, k)
    {
      if k in K {
        assert HasSlot(fs1, i, k);
        assert SlotAt(fs2, i, k) == SlotAt(fs1, i, k);
      }
    }
  }

  lemma WordNeedsBlock(fs: Fs, i: nat, k: nat)
    requires k > NDIRECT
    ensures HasSlot(fs, i, k) ==> HasSlot(fs, i, NDIRECT)
  {
  }

  ghost predicate Loaded(fs: Fs, fs': Fs, i: nat, ok: bool, K: set<nat>) {
    && Grew(fs, fs', i, K)
    && K == (if ok && !HasSlot(fs, i, NDIRECT) then {NDIRECT} else {})
    && (if ok then HasSlot(fs', i, NDIRECT) else AllUsed(fs'))
    && (HasSlot(fs, i, NDIRECT) ==> ok && fs' == fs)
  }

  /** Of the slots missing for block bn only the indirect block, at most, has been filled. */
  ghost predicate Stopped(fs: Fs, i: nat, bn: nat, K: set<nat>)
    requires i < |fs.table| && bn < NDIRECT + NINDIRECT
  {
    && (forall k :: k in K ==> k == NDIRECT <= bn && SlotAt(fs, i, NDIRECT) == 0)
    && SlotAt(fs, i, DataSlot(bn)) == 0
  }

  /** What bmap does for a block of the file: either it fills exactly the missing slots, or it stops with
      no block left. */
  ghost predicate Mapped(fs: Fs, fs': Fs, i: nat, bn: nat, r: Addr, K: set<nat>)
    requires bn < NDIRECT + NINDIRECT
  {
    && Grew(fs, fs', i, K)
    && r != OutOfRange && (r == OutOfBlocks ==> AllUsed(fs') && Stopped(fs, i, bn, K))
    && (r.At? ==> Missing(fs, i, bn, K) && SlotAt(fs', i, DataSlot(bn)) == r.b != 0)
    && (HasSlot(fs, i, DataSlot(bn)) ==> r.At? && fs' == fs)
  }

  lemma MappedFails(fs: Fs, fs': Fs, i: nat, bn: nat, K: set<nat>)
    requires NDIRECT <= bn < NDIRECT + NINDIRECT && Loaded(fs, fs', i, false, K)
    ensures Mapped(fs, fs', i, bn, OutOfBlocks, K)
  {
    WordNeedsBlock(fs, i, bn + 1);
  }

  lemma WordThere(fs: Fs, fs': Fs, i: nat, bn: nat, b: nat, K: set<nat>)
    requires NDIRECT <= bn < NDIRECT + NINDIRECT && Loaded(fs, fs', i, true, K) && SlotAt(fs', i, bn + 1) == b != 0
    ensures Mapped(fs, fs', i, bn, At(b), K)
  {
    WordNeedsBlock(fs, i, bn + 1);
    assert SlotGrew(fs, fs', i, K, i, bn + 1);
    assert SlotGrew(fs, fs', i, K, i, NDIRECT);
  }

  lemma WordFails(fs: Fs, fs': Fs, i: nat, bn: nat, K: set<nat>)
    requires NDIRECT <= bn < NDIRECT + NINDIRECT && Loaded(fs, fs', i, true, K) && AllUsed(fs')
    requires SlotAt(fs', i, bn + 1) == 0
    ensures Mapped(fs, fs', i, bn, OutOfBlocks, K)
  {
    assert SlotGrew(fs, fs', i, K, i, bn + 1);
  }

  /** A fresh block in slot k, or none left. */
  ghost predicate Filled(bs: nat, fs: Fs, fs': Fs, i: nat, k: nat, r: Option<nat>, T: set<nat>, T': set<nat>)
    requires k < SLOTS
  {
    if r.None? then fs' == fs && T' == T && AllUsed(fs)
    else
      && Grew(fs, fs', i, {k}) && SlotAt(fs', i, k) == r.value != 0
      && Charged(bs, fs, fs', i, {k}, T, T')
  }

  lemma GiveFills(bs: nat, fs: Fs, m: map<nat, (nat, nat)>, fs': Fs, i: nat, k: nat, b: nat, T: set<nat>, T': set<nat>)
    requires CanGive(fs, m, i, k, b) && (k > NDIRECT ==> 0 < fs.table[i].addrs[NDIRECT] < |fs.data|) && fs.first <= b
    requires forall c :: 0 <= c < b ==> fs.used[c]
    requires fs' == Give(fs, i, k, b)
    requires T' == T + {BitmapBlock(bs, b), b} + if k > NDIRECT then {fs.table[i].addrs[NDIRECT]} else {}
    ensures Known(OwnedBy(fs', m[b := (i, k)])) && Known(Filled(bs, fs, fs', i, k, Some(b), T, T'))
  {
    GiveOwned(fs, m, i, k, b);
    GiveGrew(fs, m, i, k, b);
    GiveSlot(fs, m, i, k, b, i, k);
    ChargedOne(bs, fs, fs', i, k, b, T, T');
  }

  lemma WordEnds(bs: nat, fs0: Fs, fs1: Fs, fs: Fs, i: nat, bn: nat, k: nat, r: Option<nat>, K: set<nat>,
                 T0: set<nat>, T1: set<nat>, T: set<nat>, before: bool, after: bool) returns (M: set<nat>)
    requires NDIRECT <= bn < NDIRECT + NINDIRECT && k == bn + 1 && before && after
    requires before == (Loaded(fs0, fs1, i, true, K) && Charged(bs, fs0, fs1, i, K, T0, T1))
    requires after == Filled(bs, fs1, fs, i, k, r, T1, T)
    requires i < |fs1.table| && SlotAt(fs1, i, k) == 0
    ensures Mapped(fs0, fs, i, bn, if r.None? then OutOfBlocks else At(r.value), M)
    ensures Charged(bs, fs0, fs, i, M, T0, T)
  {
    if r.None? {
      M := K;
      WordFails(fs0, fs, i, bn, K);
    } else {
      M := K + {bn + 1};
      WordFilled(bs, fs0, fs1, fs, i, bn, r.value, K, M, T0, T1, T);
    }
  }

  lemma WordFilled(bs: nat, fs0: Fs, fs1: Fs, fs: Fs, i: nat, bn: nat, b: nat, K: set<nat>, M: set<nat>,
                   T0: set<nat>, T1: set<nat>, T: set<nat>)
    requires NDIRECT <= bn < NDIRECT + NINDIRECT && M == K + {bn + 1}
    requires Loaded(fs0, fs1, i, true, K) && Charged(bs, fs0, fs1, i, K, T0, T1)
    requires Grew(fs1, fs, i, {bn + 1}) && SlotAt(fs, i, bn + 1) == b != 0
    requires Charged(bs, fs1, fs, i, {bn + 1}, T1, T)
    ensures Mapped(fs0, fs, i, bn, At(b), M) && Charged(bs, fs0, fs, i, M, T0, T)
  {
    ChargedTwice(bs, fs0, fs1, fs, i, K, {bn + 1}, M, T0, T1, T);
    GrewTwice(fs0, fs1, fs, i, K, {bn + 1});
    WordNeedsBlock(fs0, i, bn + 1);
    assert SlotGrew(fs0, fs1, i, K, i, bn + 1);
    assert SlotGrew(fs0, fs1, i, K, i, NDIRECT);
    assert SlotGrew(fs1, fs, i, {bn + 1}, i, bn + 1);
  }

  // ---------- What a write passes on ----------

  /** The slots that a file lacks when it grows from size to end. */
  ghost function NewSlots(size: nat, end: nat): set<nat> {
    Range(SlotCount(size), SlotCount(Max(size, end)))
  }

  /** What a round of writei passes on: what its new slots take, and the data block. */
  ghost predicate RoundCharged(bs: nat, fs: Fs, fs': Fs, i: nat, off: nat, E: nat, end: nat, T: set<nat>, T': set<nat>) {
    && SlotsKept(fs, fs', i) && Full(fs', i, NewSlots(E, end)) && Took(fs.used, fs', i, NewSlots(E, end))
    && IsFileBlock(fs', i, off / BSIZE)
    && T' == T + (FillSet(bs, fs', i, NewSlots(E, end)) + {SlotAt(fs', i, DataSlot(off / BSIZE))})
  }

  /** Bytes put in a block of a file leave all its slots and what they were charged. */
  lemma PutCharged(bs: nat, fs0: Fs, fs: Fs, m: map<nat, (nat, nat)>, fs': Fs, i: nat, n: nat, block: Block,
                   K: set<nat>, T: set<nat>, T': set<nat>)
    requires Charged(bs, fs0, fs, i, K, T, T') && SlotsKept(fs0, fs, i)
    requires OwnedBy(fs, m) && IsFileBlock(fs, i, n) && SlotAt(fs, i, DataSlot(n)) < |fs.data|
    requires fs' == fs.(data := fs.data[SlotAt(fs, i, DataSlot(n)) := block])
    ensures Charged(bs, fs0, fs', i, K, T, T') && SlotsKept(fs0, fs', i)
    ensures IsFileBlock(fs', i, n) && SlotAt(fs', i, DataSlot(n)) == SlotAt(fs, i, DataSlot(n))
  {
    assert fs' == Put(fs, i, n, block);
    forall k: nat | k < SLOTS
      ensures SlotAt(fs', i, k) == SlotAt(fs, i, k)
    {
      PutSlot(fs, m, i, n, block, i, k);
    }
    PutKeeps(bs, fs0, fs, fs', i, K, T, T');
  }

  lemma PutKeeps(bs: nat, fs0: Fs, fs: Fs, fs': Fs, i: nat, K: set<nat>, T: set<nat>, T': set<nat>)
    requires Charged(bs, fs0, fs, i, K, T, T') && SlotsKept(fs0, fs, i) && fs'.used == fs.used && i < |fs'.table|
    requires forall k :: 0 <= k < SLOTS ==> SlotAt(fs', i, k) == SlotAt(fs, i, k)
    ensures Charged(bs, fs0, fs', i, K, T, T') && SlotsKept(fs0, fs', i)
  {
    assert SlotsKept(fs, fs', i);
    FillSetKept(bs, fs, fs', i, K);
    SlotBlocksKept(fs, fs', i, K);
    forall k | k in K
      ensures HasSlot(fs', i, k)
    {
      assert HasSlot(fs, i, k);
    }
  }

  lemma FullSlots(fs: Fs, i: nat, K: set<nat>)
    requires Full(fs, i, K)
    ensures forall k :: k in K ==> k < SLOTS
  {
    forall k | k in K
      ensures k < SLOTS
    {
      assert HasSlot(fs, i, k);
    }
  }

  /** The slots that a round fills are those that its end needs and the file lacks. */
  lemma RoundSlots(fs: Fs, m: map<nat, (nat, nat)>, i: nat, E: Word, c: seq<Byte>, off: nat, n: nat, K: set<nat>)
    requires Midway(fs, m, i, E, c) && InOneBlock(E, off, n) && Missing(fs, i, off / BSIZE, K)
    requires forall k :: k in K ==> k < SLOTS
    ensures K == NewSlots(E, off + n)
  {
    var G := Resized(fs, i, E);
    assert Compact(G, i);
    ResizedMissing(fs, i, off / BSIZE, K, E);
    MissingIs(G, i, off, n, K);
  }

  lemma RoundCharges(bs: nat, fs: Fs, m: map<nat, (nat, nat)>, fs1: Fs, m1: map<nat, (nat, nat)>, fs2: Fs, i: nat,
                     off: nat, end: nat, K: set<nat>, E: Word, c: seq<Byte>, b: nat, block: Block,
                     T: set<nat>, T1: set<nat>, T2: set<nat>)
    requires Midway(fs, m, i, E, c) && off < end && InOneBlock(E, off, end - off)
    requires OwnedBy(fs1, m1) && Mapped(fs, fs1, i, off / BSIZE, At(b), K) && Charged(bs, fs, fs1, i, K, T, T1)
    requires b < |fs1.data| && fs2 == fs1.(data := fs1.data[b := block]) && T2 == T1 + {b}
    ensures RoundCharged(bs, fs, fs2, i, off, E, end, T, T2)
  {
    FullSlots(fs1, i, K);
    RoundSlots(fs, m, i, E, c, off, end - off, K);
    GrewKeeps(fs, fs1, i, K);
    PutCharged(bs, fs, fs1, m1, fs2, i, off / BSIZE, block, K, T, T1);
    ChargedRound(bs, fs, fs2, i, off, E, end, K, b, T, T1);
  }

  lemma MappedBlock(fs: Fs, fs1: Fs, m1: map<nat, (nat, nat)>, i: nat, n: nat, b: nat, K: set<nat>)
    requires n < NDIRECT + NINDIRECT && Known(OwnedBy(fs1, m1)) && Known(Mapped(fs, fs1, i, n, At(b), K))
    ensures fs1.first <= b < |fs1.data|
  {
    BlockOwned(fs1, m1, i, DataSlot(n));
  }

  /** A round from its start to the bytes in the block. */
  lemma RoundWhole(bs: nat, fs: Fs, m: map<nat, (nat, nat)>, fs1: Fs, m1: map<nat, (nat, nat)>, fs2: Fs, i: nat, off: nat,
                   end: nat, chunk: seq<Byte>, K: set<nat>, E: Word, c: seq<Byte>, b: nat, block: Block,
                   T: set<nat>, T1: set<nat>, T2: set<nat>)
    requires Known(Midway(fs, m, i, E, c)) && InOneBlock(E, off, |chunk|) && end == off + |chunk|
    requires Known(OwnedBy(fs1, m1)) && Known(Mapped(fs, fs1, i, off / BSIZE, At(b), K))
    requires Known(Charged(bs, fs, fs1, i, K, T, T1)) && T2 == T1 + {b}
    requires b < |fs1.data| && block == Splice(fs1.data[b], off % BSIZE, chunk) && fs2 == fs1.(data := fs1.data[b := block])
    ensures Known(RoundDone(fs, fs2, m1, i, off, chunk, E, c)) && Known(SlotsKept(fs, fs2, i))
    ensures Known(RoundCharged(bs, fs, fs2, i, off, E, end, T, T2))
  {
    RoundRuns(fs, m, fs1, m1, i, off, chunk, K, E, c, b);
    RoundCharges(bs, fs, m, fs1, m1, fs2, i, off, end, K, E, c, b, block, T, T1, T2);
  }

  lemma ChargedRound(bs: nat, fs: Fs, fs': Fs, i: nat, off: nat, E: nat, end: nat, K: set<nat>, b: nat,
                     T: set<nat>, T': set<nat>)
    requires Charged(bs, fs, fs', i, K, T, T') && SlotsKept(fs, fs', i) && K == NewSlots(E, end)
    requires IsFileBlock(fs', i, off / BSIZE) && SlotAt(fs', i, DataSlot(off / BSIZE)) == b
    ensures RoundCharged(bs, fs, fs', i, off, E, end, T, T' + {b})
  {
    Assoc(T, FillSet(bs, fs', i, K), {b});
  }

  /** A round inside the file finds its block there. */
  lemma RoundInside(fs: Fs, m: map<nat, (nat, nat)>, i: nat, off: nat, n: nat, E: Word, c: seq<Byte>)
    requires Midway(fs, m, i, E, c) && InOneBlock(E, off, n) && off + n <= E
    ensures HasSlot(fs, i, DataSlot(off / BSIZE))
  {
    assert Compact(Resized(fs, i, E), i);
    BelowSize(Resized(fs, i, E), i, off);
  }

  /** What writei has passed on when it has come from off to p. */
  ghost predicate Spent(bs: nat, fs0: Fs, fs: Fs, i: nat, size: nat, off: nat, p: nat, T: set<nat>, T': set<nat>) {
    && off <= p <= MAXBYTES && Present(fs, i, off / BSIZE, TouchedEnd(off, p))
    && Full(fs, i, NewSlots(size, p)) && Took(fs0.used, fs, i, NewSlots(size, p))
    && T' == T + WriteSet(bs, fs, i, off / BSIZE, TouchedEnd(off, p), NewSlots(size, p))
  }

  lemma SpentStart(bs: nat, fs: Fs, i: nat, size: nat, off: nat, T: set<nat>)
    requires i < |fs.table| && off <= size && off <= MAXBYTES
    ensures Spent(bs, fs, fs, i, size, off, off, T, T)
  {
    assert NewSlots(size, off) == {};
    FillSetNone(bs, fs, i);
    TookNone(fs, i);
    assert DataSet(fs, i, off / BSIZE, off / BSIZE) == {};
  }

  lemma SpentStep(bs: nat, fs0: Fs, fs1: Fs, fs2: Fs, i: nat, size: nat, off: nat, p: nat, end: nat, E: nat,
                  T: set<nat>, T1: set<nat>, T2: set<nat>)
    requires Known(Spent(bs, fs0, fs1, i, size, off, p, T, T1))
    requires E == Max(size, p) && off <= p < end <= MAXBYTES && p % BSIZE + (end - p) <= BSIZE
    requires Known(RoundCharged(bs, fs1, fs2, i, p, E, end, T1, T2))
    ensures Spent(bs, fs0, fs2, i, size, off, end, T, T2)
  {
    var K, L, M := NewSlots(size, p), NewSlots(E, end), NewSlots(size, end);
    var a, b, b' := off / BSIZE, TouchedEnd(off, p), TouchedEnd(off, end);
    NewSlotsOn(size, p, end);
    BlocksOn(off, p, end);
    SpentOn(bs, fs0, fs1, fs2, i, a, b, p / BSIZE, b', K, L, M, T, T1, T2);
  }

  lemma SpentOn(bs: nat, fs0: Fs, fs1: Fs, fs2: Fs, i: nat, a: nat, b: nat, n: nat, b': nat,
                K: set<nat>, L: set<nat>, M: set<nat>, T: set<nat>, T1: set<nat>, T2: set<nat>)
    requires Known(Present(fs1, i, a, b)) && Known(Full(fs1, i, K)) && Known(Took(fs0.used, fs1, i, K))
    requires T1 == T + WriteSet(bs, fs1, i, a, b, K)
    requires Known(SlotsKept(fs1, fs2, i)) && Known(Full(fs2, i, L)) && Known(Took(fs1.used, fs2, i, L))
    requires a <= n && (n == b || n + 1 == b) && IsFileBlock(fs2, i, n) && b' == n + 1 && M == K + L
    requires T2 == T1 + (FillSet(bs, fs2, i, L) + {SlotAt(fs2, i, DataSlot(n))})
    ensures Present(fs2, i, a, b') && Full(fs2, i, M)
    ensures Took(fs0.used, fs2, i, M) && T2 == T + WriteSet(bs, fs2, i, a, b', M)
  {
    FullTwice(fs1, fs2, i, K, L);
    TookTwice(fs0.used, fs1, fs2, i, K, L);
    SpentSet(bs, fs1, fs2, i, a, b, n, K, L, T);
  }

  lemma NewSlotsOn(size: nat, mid: nat, end: nat)
    requires mid <= end
    ensures NewSlots(size, end) == NewSlots(size, mid) + NewSlots(Max(size, mid), end)
  {
    SlotCountMono(size, Max(size, mid));
    SlotCountMono(Max(size, mid), Max(size, end));
    RangeOn(SlotCount(size), SlotCount(Max(size, mid)), SlotCount(Max(size, end)));
  }

  lemma SpentSet(bs: nat, fs: Fs, fs': Fs, i: nat, a: nat, b: nat, n: nat, K: set<nat>, L: set<nat>, T: set<nat>)
    requires SlotsKept(fs, fs', i) && Present(fs, i, a, b) && Full(fs, i, K)
    requires a <= n && (n == b || n + 1 == b) && IsFileBlock(fs', i, n)
    ensures n + 1 <= NDIRECT + NINDIRECT && Present(fs', i, a, n + 1)
    ensures T + WriteSet(bs, fs', i, a, n + 1, K + L) ==
      T + WriteSet(bs, fs, i, a, b, K) + (FillSet(bs, fs', i, L) + {SlotAt(fs', i, DataSlot(n))})
  {
    WriteSetStep(bs, fs, fs', i, a, b, n, K, L);
    Assoc(T, WriteSet(bs, fs, i, a, b, K), FillSet(bs, fs', i, L) + {SlotAt(fs', i, DataSlot(n))});
  }

  /** A file that grows has its inode written. */
  function GrowSet(g: Geo, i: nat, size: nat, end: nat): set<nat> {
    if end > size then {InodeBlock(g, i)} else {}
  }

  /** What a write from off to end has passed to log_write: T before it and T' after it. */
  ghost predicate LogsTo(g: Geo, fs: Fs, fs': Fs, i: nat, off: nat, end: nat, T: set<nat>, T': set<nat>) {
    && i < |fs.table| && i < |fs'.table| && off <= end <= MAXBYTES
    && Took(fs.used, fs', i, NewSlots(fs.table[i].size, end))
    && Present(fs', i, off / BSIZE, TouchedEnd(off, end)) && Full(fs', i, NewSlots(fs.table[i].size, end))
    && T' == T + WriteSet(g.bmapstart, fs', i, off / BSIZE, TouchedEnd(off, end), NewSlots(fs.table[i].size, end))
              + GrowSet(g, i, fs.table[i].size, end)
  }

  /** What a write of n bytes at off has passed to log_write. */
  ghost predicate Logs(g: Geo, fs: Fs, fs': Fs, i: nat, off: nat, n: nat, T: set<nat>, T': set<nat>) {
    LogsTo(g, fs, fs', i, off, EndOf(off, n), T, T')
  }

  function EndOf(off: nat, n: nat): nat {
    off + n
  }

  /** The same of a write of n bytes. */
  ghost predicate Refused(bs: nat, nlog: nat, lh: set<nat>, fs: Fs, fs': Fs, i: nat, off: nat, n: nat, T: set<nat>,
                          before: bool, refused: bool) {
    i < |fs.table| && RefusedAt(bs, nlog, lh, fs', i, fs.table[i].size, off, EndOf(off, n), T, before, refused)
  }

  lemma RefusedIs(bs: nat, nlog: nat, lh: set<nat>, fs: Fs, fs': Fs, i: nat, size: nat, off: nat, n: nat, end: nat,
                  T: set<nat>, before: bool, refused: bool)
    requires Known(RefusedAt(bs, nlog, lh, fs', i, size, off, end, T, before, refused)) && end == off + n
    requires i < |fs.table| && fs.table[i].size == size
    ensures Known(Refused(bs, nlog, lh, fs, fs', i, off, n, T, before, refused))
  {
    assert EndOf(off, n) == end;
  }

  /** A write of n bytes has been stopped with some of its slots not filled. */
  ghost predicate Shortage(fs: Fs, fs': Fs, i: nat, off: nat, n: nat) {
    i < |fs.table| && Short(fs, fs', i, fs.table[i].size, EndOf(off, n))
  }

  lemma ShortageIs(fs: Fs, fs': Fs, i: nat, size: nat, off: nat, n: nat, end: nat)
    requires i < |fs.table| && fs.table[i].size == size && Known(Short(fs, fs', i, size, end)) && end == off + n
    ensures Known(Shortage(fs, fs', i, off, n))
  {
    assert EndOf(off, n) == end;
  }

  lemma LogsAt(g: Geo, fs: Fs, fs': Fs, i: nat, off: nat, n: nat, end: nat, T: set<nat>, T': set<nat>)
    requires Known(LogsTo(g, fs, fs', i, off, end, T, T')) && end == off + n
    ensures Known(Logs(g, fs, fs', i, off, n, T, T'))
  {
    assert EndOf(off, n) == end;
  }

  lemma SpentEnds(g: Geo, fs0: Fs, fs: Fs, fs': Fs, i: nat, size: nat, size': Word, off: nat, end: nat,
                  T: set<nat>, T1: set<nat>, T2: set<nat>)
    requires i < |fs0.table| && fs0.table[i].size == size
    requires Known(Spent(g.bmapstart, fs0, fs, i, size, off, end, T, T1))
    requires i < |fs.table| && fs' == Resized(fs, i, size') && T2 == T1 + GrowSet(g, i, size, end)
    ensures LogsTo(g, fs0, fs', i, off, end, T, T2)
  {
    ResizedSlots(g.bmapstart, fs, i, size', NewSlots(size, end));
    ResizedFile(fs, fs', i, off / BSIZE, TouchedEnd(off, end), NewSlots(size, end));
  }

  lemma ResizedFile(fs: Fs, fs': Fs, i: nat, a: nat, b: nat, K: set<nat>)
    requires Present(fs, i, a, b) && Full(fs, i, K) && i < |fs'.table|
    requires forall k: nat :: k < SLOTS ==> SlotAt(fs', i, k) == SlotAt(fs, i, k)
    ensures Present(fs', i, a, b) && Full(fs', i, K) && DataSet(fs', i, a, b) == DataSet(fs, i, a, b)
  {
    forall q | a <= q < b
      ensures IsFileBlock(fs', i, q)
    {
      assert IsFileBlock(fs, i, q);
    }
    forall k | k in K
      ensures HasSlot(fs', i, k)
    {
      assert HasSlot(fs, i, k);
    }
  }

  lemma Assoc(a: set<nat>, b: set<nat>, c: set<nat>)
    ensures (a + b) + c == a + (b + c)
  {
  }

  /** A round stays in the last block touched or enters the next. */
  lemma BlocksOn(off: nat, p: nat, end: nat)
    requires off <= p < end && p % BSIZE + (end - p) <= BSIZE
    ensures var n, b := p / BSIZE, TouchedEnd(off, p);
      off / BSIZE <= n && (n == b || n + 1 == b) && TouchedEnd(off, end) == n + 1
  {
  }

  // ---------- A write that finds no block ----------

  /** A write from size to end has been stopped with some of its slots not filled. */
  ghost predicate Short(fs0: Fs, fs: Fs, i: nat, size: nat, end: nat) {
    exists K :: K < NewSlots(size, end) && Full(fs, i, K) && Took(fs0.used, fs, i, K)
  }

  lemma StoppedShort(fs: Fs, m: map<nat, (nat, nat)>, i: nat, E: Word, c: seq<Byte>, off: nat, n: nat, K: set<nat>)
    requires Midway(fs, m, i, E, c) && InOneBlock(E, off, n) && Stopped(fs, i, off / BSIZE, K)
    ensures K < NewSlots(E, off + n)
  {
    var M := set k: nat | k < SLOTS && Wants(off / BSIZE, k) && SlotAt(fs, i, k) == 0;
    RoundSlots(fs, m, i, E, c, off, n, M);
    assert Wants(off / BSIZE, NDIRECT) || off / BSIZE < NDIRECT;
    assert Wants(off / BSIZE, DataSlot(off / BSIZE)) && DataSlot(off / BSIZE) in M;
  }

  lemma RoundStops(fs: Fs, m: map<nat, (nat, nat)>, fs1: Fs, i: nat, off: nat, end: nat, K: set<nat>, E: Word,
                   c: seq<Byte>, bs: nat, T: set<nat>, T1: set<nat>)
    requires Known(Midway(fs, m, i, E, c)) && off < end && InOneBlock(E, off, end - off)
    requires off / BSIZE < NDIRECT + NINDIRECT && Known(Mapped(fs, fs1, i, off / BSIZE, OutOfBlocks, K))
    requires Known(Charged(bs, fs, fs1, i, K, T, T1))
    ensures Known(Short(fs, fs1, i, E, end)) && Known(SlotsKept(fs, fs1, i)) && AllUsed(fs1) && end > E
  {
    StoppedShort(fs, m, i, E, c, off, end - off, K);
    GrewKeeps(fs, fs1, i, K);
  }

  /** Rounds that were done and then one that was stopped. */
  lemma ShortOn(bs: nat, fs0: Fs, fs1: Fs, fs2: Fs, i: nat, size: nat, off: nat, p: nat, p': nat, end: nat, E: nat,
                T: set<nat>, T1: set<nat>)
    requires Known(Spent(bs, fs0, fs1, i, size, off, p, T, T1))
    requires E == Max(size, p) && p <= p' <= end && Known(Short(fs1, fs2, i, E, p')) && Known(SlotsKept(fs1, fs2, i))
    ensures Short(fs0, fs2, i, size, end)
  {
    var K :| K < NewSlots(E, p') && Full(fs2, i, K) && Took(fs1.used, fs2, i, K);
    var J, L := NewSlots(size, p), NewSlots(size, p) + K;
    FullTwice(fs1, fs2, i, J, K);
    TookTwice(fs0.used, fs1, fs2, i, J, K);
    ShortSets(size, p, p', end, K);
  }

  lemma ShortSets(size: nat, p: nat, p': nat, end: nat, K: set<nat>)
    requires p <= p' <= end && K < NewSlots(Max(size, p), p')
    ensures NewSlots(size, p) + K < NewSlots(size, end)
  {
    NewSlotsOn(size, p, p');
    NewSlotsOn(size, p', end);
    var x :| x in NewSlots(Max(size, p), p') && x !in K;
    assert x !in NewSlots(size, p) && x in NewSlots(size, end);
  }

  // ---------- When log_write refuses ----------

  /** What a write from off to end has passed on before its last call of log_write, which is for the inode if the
      file has grown and for the last data block if it has not. */
  ghost function Earlier(bs: nat, fs: Fs, i: nat, size: nat, off: nat, end: nat): set<nat>
    requires i < |fs.table| && off < end <= MAXBYTES
  {
    if end > size then WriteSet(bs, fs, i, off / BSIZE, TouchedEnd(off, end), NewSlots(size, end))
    else DataSet(fs, i, off / BSIZE, (end - 1) / BSIZE)
  }

  /** log_write has refused exactly if the last call found the log full; a write of nothing calls it not at all. */
  ghost predicate RefusedAt(bs: nat, nlog: nat, lh: set<nat>, fs: Fs, i: nat, size: nat, off: nat, end: nat,
                            T: set<nat>, before: bool, refused: bool) {
    && i < |fs.table| && off <= end <= MAXBYTES
    && (refused <==> if off < end then Log.TooMany(nlog, |lh + (T + Earlier(bs, fs, i, size, off, end))|) else before)
  }

  /** All but the last round of a write inside the file. */
  ghost predicate LastIs(fs: Fs, i: nat, off: nat, p: nat, T: set<nat>, T1: set<nat>) {
    i < |fs.table| && off < p <= MAXBYTES && T1 == T + DataSet(fs, i, off / BSIZE, (p - 1) / BSIZE)
  }

  lemma LastRound(bs: nat, fs0: Fs, fs1: Fs, fs2: Fs, i: nat, size: nat, off: nat, p: nat, end: nat,
                  T: set<nat>, T1: set<nat>)
    requires Known(Spent(bs, fs0, fs1, i, size, off, p, T, T1)) && Known(SlotsKept(fs1, fs2, i))
    requires off <= p < end <= size && end <= MAXBYTES && (p == off || p % BSIZE == 0) && p % BSIZE + (end - p) <= BSIZE
    ensures LastIs(fs2, i, off, end, T, T1)
  {
    var a, b := off / BSIZE, TouchedEnd(off, p);
    assert b == (end - 1) / BSIZE;
    assert NewSlots(size, p) == {};
    FillSetNone(bs, fs1, i);
    DataSetKept(fs1, fs2, i, a, b);
  }

  /** What a round adds to the rounds before it. */
  lemma NextEnds(bs: nat, fs0: Fs, fs1: Fs, m1: map<nat, (nat, nat)>, fs2: Fs, m: map<nat, (nat, nat)>, i: nat, off: nat,
                 src: seq<Byte>, tot: nat, tot': nat, c: seq<Byte>, p: nat, p': nat, chunk: seq<Byte>, E: Word, c1: seq<Byte>,
                 T: set<nat>, T1: set<nat>, T2: set<nat>)
    requires Known(SoFar(fs0, fs1, m1, i, off, src, tot, c)) && Known(Spent(bs, fs0, fs1, i, |c|, off, p, T, T1))
    requires Known(RoundDone(fs1, fs2, m, i, p, chunk, E, c1)) && Known(RoundCharged(bs, fs1, fs2, i, p, E, p', T1, T2))
    requires Known(SlotsKept(fs1, fs2, i)) && tot < tot' <= |src| && off <= |c| && p == off + tot && p' == off + tot'
    requires chunk == src[tot..tot'] && E == Max(|c|, p) && c1 == Patch(c, off, src[..tot])
    requires (p == off || p % BSIZE == 0) && p % BSIZE + (p' - p) <= BSIZE
    ensures Known(SoFar(fs0, fs2, m, i, off, src, tot', c)) && Known(Spent(bs, fs0, fs2, i, |c|, off, p', T, T2))
    ensures p' <= |c| ==> Known(LastIs(fs2, i, off, p', T, T1))
  {
    SoFarStep(fs0, fs1, m1, fs2, m, i, off, src, tot, tot', c, p, chunk, E, c1);
    SpentStep(bs, fs0, fs1, fs2, i, |c|, off, p, p', E, T, T1, T2);
    if p' <= |c| {
      LastRound(bs, fs0, fs1, fs2, i, |c|, off, p, p', T, T1);
    }
  }

  lemma SoFarRoom(fs0: Fs, fs: Fs, m: map<nat, (nat, nat)>, i: nat, off: nat, src: seq<Byte>, tot: nat, c: seq<Byte>)
    requires Known(SoFar(fs0, fs, m, i, off, src, tot, c))
    ensures off <= |c| <= MAXBYTES && off + |src| <= MAXBYTES && tot <= |src|
    ensures Known(Midway(fs, m, i, Max(|c|, off + tot), Patch(c, off, src[..tot])))
  {
  }

  lemma RefusedInside(bs: nat, nlog: nat, lh: set<nat>, fs: Fs, fs': Fs, i: nat, size: nat, size': Word, off: nat, end: nat,
                      T: set<nat>, T1: set<nat>, before: bool, refused: bool)
    requires Known(LastIs(fs, i, off, end, T, T1)) && end <= size && fs' == Resized(fs, i, size')
    requires refused <==> Log.TooMany(nlog, |lh + T1|)
    ensures RefusedAt(bs, nlog, lh, fs', i, size, off, end, T, before, refused)
  {
    ResizedData(fs, i, size', off / BSIZE, (end - 1) / BSIZE);
  }

  lemma RefusedOutside(bs: nat, nlog: nat, lh: set<nat>, fs0: Fs, fs: Fs, fs': Fs, i: nat, size: nat, size': Word, off: nat,
                       end: nat, T: set<nat>, T1: set<nat>, before: bool, refused: bool)
    requires Known(Spent(bs, fs0, fs, i, size, off, end, T, T1)) && size < end && off < end && fs' == Resized(fs, i, size')
    requires refused <==> Log.TooMany(nlog, |lh + T1|)
    ensures RefusedAt(bs, nlog, lh, fs', i, size, off, end, T, before, refused)
  {
    ResizedSlots(bs, fs, i, size', NewSlots(size, end));
    ResizedData(fs, i, size', off / BSIZE, TouchedEnd(off, end));
  }

  /** What the rounds of a write of n bytes say of the last call of log_write before the inode's. */
  ghost predicate RoundsRefused(nlog: nat, lh: set<nat>, fs: Fs, i: nat, size: nat, off: nat, n: nat, end: nat, T: set<nat>,
                                T1: set<nat>, before: bool, refused: bool) {
    && (n == 0 ==> refused == before)
    && (n > 0 && end <= size ==> LastIs(fs, i, off, end, T, T1) && (refused <==> Log.TooMany(nlog, |lh + T1|)))
  }

  lemma RefusedEnds(bs: nat, nlog: nat, lh: set<nat>, fs0: Fs, fs: Fs, fs': Fs, i: nat, size: Word, size': Word, off: nat,
                    n: nat, end: nat, T: set<nat>, T1: set<nat>, T2: set<nat>, before: bool, refused1: bool,
                    refused: bool)
    requires end == off + n && off <= size && Known(Spent(bs, fs0, fs, i, size, off, end, T, T2))
    requires i < |fs.table| && fs' == Resized(fs, i, size')
    requires Known(RoundsRefused(nlog, lh, fs, i, size, off, n, end, T, T1, before, refused1))
    requires refused <==> if end > size then Log.TooMany(nlog, |lh + T2|) else refused1
    ensures RefusedAt(bs, nlog, lh, fs', i, size, off, end, T, before, refused)
  {
    if end > size {
      RefusedOutside(bs, nlog, lh, fs0, fs, fs', i, size, size', off, end, T, T2, before, refused);
    } else if n > 0 {
      RefusedInside(bs, nlog, lh, fs, fs', i, size, size', off, end, T, T1, before, refused);
    }
  }

  /** The end of a write, from the rounds to the inode. */
  lemma WriteEnds(g: Geo, nlog: nat, lh: set<nat>, fs0: Fs, fs: Fs, fs': Fs, m: map<nat, (nat, nat)>, i: nat, size: Word,
                  size': Word, off: nat, end: nat, src: seq<Byte>, c: seq<Byte>, T: set<nat>, T1: set<nat>, T2: set<nat>,
                  T3: set<nat>, before: bool, refused1: bool, refused: bool)
    requires size == |c| && end == off + |src| && Known(Reads(fs0, i, c))
    requires Known(SoFar(fs0, fs, m, i, off, src, |src|, c)) && Known(Spent(g.bmapstart, fs0, fs, i, size, off, end, T, T2))
    requires Known(RoundsRefused(nlog, lh, fs, i, size, off, |src|, end, T, T1, before, refused1))
    requires size' == Max(size, end) && i < |fs.table| && fs' == Resized(fs, i, size')
    requires T3 == T2 + GrowSet(g, i, size, end)
    requires refused <==> if end > size then Log.TooMany(nlog, |lh + T2|) else refused1
    ensures Known(Good(fs', m)) && Known(WroteFile(fs0, fs', i, off, src)) && Known(LogsTo(g, fs0, fs', i, off, end, T, T3))
    ensures Known(RefusedAt(g.bmapstart, nlog, lh, fs', i, size, off, end, T, before, refused))
  {
    RefusedEnds(g.bmapstart, nlog, lh, fs0, fs, fs', i, size, size', off, |src|, end, T, T1, T2, before, refused1, refused);
    SpentEnds(g, fs0, fs, fs', i, size, size', off, end, T, T2, T3);
    SoFarEnds(fs0, fs, fs', m, i, off, src, c, size');
  }

  lemma ResizedData(fs: Fs, i: nat, size: Word, a: nat, b: nat)
    requires i < |fs.table| && b <= NDIRECT + NINDIRECT
    ensures DataSet(Resized(fs, i, size), i, a, b) == DataSet(fs, i, a, b)
  {
    forall k: nat | k < SLOTS
      ensures SlotAt(Resized(fs, i, size), i, k) == SlotAt(fs, i, k)
    {
    }
  }

  ghost predicate AllUsed(fs: Fs) {
    forall b :: 0 <= b < |fs.used| ==> fs.used[b]
  }

  ghost predicate Synced(g: Geo, blocks: Disk, mem: seq<Inode>)
    requires GeoOk(g) && |blocks| == g.size && |mem| == g.ninodes
  {
    forall i {:trigger OnDisk(g, blocks, i)} :: 0 <= i < g.ninodes ==> OnDisk(g, blocks, i) == mem[i]
  }
}
