/** The format of the disk in bytes (fs.h, log.c): which byte of which block holds what, in plain numbers. */
module DiskFormat {
  import opened Common
  import opened BlockWords
  import opened FileModel
  import opened DiskLayout
  import opened FileState
  import opened Directory
  import DiskImage
  import Log

  // ---------- Numbers ----------

  /** Two and four bytes of a block from `at` on, the lowest first. */
  function Short(b: seq<Byte>, at: nat): nat
    requires at + 2 <= |b|
  {
    var b0: int, b1: int := b[at], b[at + 1];
    b0 + 256 * b1
  }

  function Long(b: seq<Byte>, at: nat): nat
    requires at + 4 <= |b|
  {
    Short(b, at) + 65536 * Short(b, at + 2)
  }

  lemma WordFormat(b: Block, i: nat)
    requires i < 128
    ensures WordAt(b, i) == Long(b, 4 * i)
  {
  }

  /** Storing a word writes its four bytes, the lowest first. */
  lemma SetWordFormat(b: Block, i: nat, w: Word, j: nat)
    requires i < 128 && j < 512
    ensures SetWord(b, i, w)[j] ==
      if j == 4 * i then w % 256 else if j == 4 * i + 1 then w / 256 % 256
      else if j == 4 * i + 2 then w / 65536 % 256 else if j == 4 * i + 3 then w / 16777216 else b[j]
  {
  }

  // ---------- The log ----------

  /** The header holds a count and that many block numbers; the blocks themselves follow it. */
  lemma LogFormat(g: Log.Geometry, d: Disk, i: nat)
    requires Log.ValidLog(g, d) && i < Log.HeaderCount(d[g.start])
    ensures Log.HeaderCount(d[g.start]) == Long(d[g.start], 0)
    ensures Log.HeaderList(d[g.start])[i] == Long(d[g.start], 4 + 4 * i) && Log.LogBlock(g, d, i) == d[g.start + 1 + i]
  {
    WordFormat(d[g.start], 0);
    WordFormat(d[g.start], 1 + i);
  }

  // ---------- Inodes and bitmap ----------

  lemma Shorts(b: Block, i: nat)
    requires i < 128
    ensures Low(WordAt(b, i)) == Short(b, 4 * i) && High(WordAt(b, i)) == Short(b, 4 * i + 2)
  {
    WordFormat(b, i);
    var lo, hi := Short(b, 4 * i), Short(b, 4 * i + 2);
    assert WordAt(b, i) == lo + 65536 * hi && lo < 65536;
  }

  /** Eight inodes of 64 bytes to a block: type, major, minor and link count in two bytes each, size and addresses in
      four. */
  lemma InodeFormat(g: Geo, blocks: Disk, i: nat, x: nat)
    requires GeoOk(g) && |blocks| == g.size && i < g.ninodes && x < 13
    ensures var b, at, ip := blocks[g.inodestart + i / 8], 64 * (i % 8), OnDisk(g, blocks, i);
      && ip.kind == Short(b, at) && ip.major == Short(b, at + 2) && ip.minor == Short(b, at + 4)
      && ip.nlink == Short(b, at + 6) && ip.size == Long(b, at + 8) && ip.addrs[x] == Long(b, at + 12 + 4 * x)
  {
    var b, w := blocks[g.inodestart + i / 8], 16 * (i % 8);
    Shorts(b, w);
    Shorts(b, w + 1);
    WordFormat(b, w + 2);
    WordFormat(b, w + 3 + x);
  }

  const POWERS := [1, 2, 4, 8, 16, 32, 64, 128]

  lemma {:induction false} BitIs(b: nat, k: nat)
    requires k < 8
    ensures Bit(b, k) <==> b / POWERS[k] % 2 == 1
    decreases k
  {
    if k > 0 {
      BitIs(b / 2, k - 1);
      assert POWERS[k] == 2 * POWERS[k - 1];
      assert b / 2 / 2 == b / 4 && b / 2 / 4 == b / 8 && b / 2 / 8 == b / 16 && b / 2 / 16 == b / 32;
      assert b / 2 / 32 == b / 64 && b / 2 / 64 == b / 128;
    }
  }

  /** Block b is in use exactly if bit b % 8 of byte b % 4096 / 8 of its bitmap block is set. */
  lemma BitmapFormat(g: Geo, blocks: Disk, b: nat)
    requires GeoOk(g) && |blocks| == g.size && b < g.size
    ensures Marked(g, blocks, b) <==>
      blocks[g.bmapstart + b / 4096][b % 4096 / 8] / POWERS[b % 8] % 2 == 1
  {
    assert b % 4096 % 8 == b % 8;
    BitIs(blocks[g.bmapstart + b / 4096][b % 4096 / 8], b % 8);
  }

  // ---------- Files ----------

  /** The number of the disk block with the n-th block of inode i: one of twelve in the inode, or one of 128 in the block
      that the thirteenth names. */
  function RawBlock(g: Geo, blocks: Disk, i: nat, n: nat): nat
    requires GeoOk(g) && |blocks| == g.size && i < g.ninodes && n < 140
  {
    var b, at := blocks[g.inodestart + i / 8], 64 * (i % 8) + 12;
    if n < 12 then Long(b, at + 4 * n)
    else
      var a := Long(b, at + 48);
      if a < |blocks| then Long(blocks[a], 4 * (n - 12)) else 0
  }

  lemma SlotOwned(fs: Fs, m: map<nat, (nat, nat)>, i: nat, k: nat)
    requires Good(fs, m) && i < |fs.table| && k < SLOTS && Needed(fs.table[i].size, k)
    ensures fs.first <= SlotAt(fs, i, k) < |fs.data|
  {
    assert Compact(fs, i);
    assert SlotAt(fs, i, k) != 0;
    assert IsSlot(fs, i, k);
  }

  lemma BlocksOwned(fs: Fs, m: map<nat, (nat, nat)>, i: nat, n: nat)
    requires Good(fs, m) && i < |fs.table| && n < 140 && 512 * n < fs.table[i].size
    ensures fs.first <= SlotAt(fs, i, DataSlot(n)) < |fs.data|
    ensures n >= 12 ==> fs.first <= fs.table[i].addrs[12] < |fs.data|
  {
    SlotOwned(fs, m, i, DataSlot(n));
    if n >= 12 {
      SlotOwned(fs, m, i, NDIRECT);
    }
  }

  lemma RawSlot(g: Geo, blocks: Disk, fs: Fs, i: nat, n: nat)
    requires GeoOk(g) && |blocks| == |fs.data| == g.size && i < g.ninodes && i < |fs.table| && n < 140
    requires OnDisk(g, blocks, i) == fs.table[i]
    requires var a := fs.table[i].addrs[12]; n >= 12 ==> 0 < a < g.size && fs.data[a] == blocks[a]
    ensures RawBlock(g, blocks, i, n) == SlotAt(fs, i, DataSlot(n))
  {
    if n < 12 {
      InodeFormat(g, blocks, i, n);
    } else {
      InodeFormat(g, blocks, i, 12);
      WordFormat(blocks[fs.table[i].addrs[12]], n - 12);
    }
  }

  lemma SlotFormat(g: Geo, blocks: Disk, mem: seq<Inode>, fs: Fs, m: map<nat, (nat, nat)>, i: nat, n: nat)
    requires Couples(g, blocks, mem, fs) && Good(fs, m) && Synced(g, blocks, mem)
    requires i < g.ninodes && n < 140 && 512 * n < fs.table[i].size
    ensures var a := RawBlock(g, blocks, i, n); g.first <= a < g.size && BlockOf(fs, i, n) == blocks[a]
  {
    BlocksOwned(fs, m, i, n);
    assert OnDisk(g, blocks, i) == mem[i] == fs.table[i];
    RawSlot(g, blocks, fs, i, n);
  }

  /** Read from the raw blocks of the disk: a file's size is in its inode, and its p-th byte is byte p % 512 of the block
      that the inode names for it. */
  lemma FileFormat(g: Geo, blocks: Disk, mem: seq<Inode>, fs: Fs, m: map<nat, (nat, nat)>, i: nat, p: nat)
    requires Couples(g, blocks, mem, fs) && Good(fs, m) && Synced(g, blocks, mem) && i < g.ninodes
    ensures fs.table[i].size == Long(blocks[g.inodestart + i / 8], 64 * (i % 8) + 8) <= 140 * 512
    ensures p < fs.table[i].size ==>
      var a := RawBlock(g, blocks, i, p / 512);
      a < g.size && Contents(fs, i)[p] == blocks[a][p % 512]
  {
    GoodSize(fs, m, i);
    assert OnDisk(g, blocks, i) == mem[i] == fs.table[i];
    InodeFormat(g, blocks, i, 0);
    if p < fs.table[i].size {
      SlotFormat(g, blocks, mem, fs, m, i, p / 512);
      ContentsAt(fs, i, p);
    }
  }

  /** So it is on every disk that holds the file system, such as one that recovery has left. */
  lemma ImageFormat(geo: Geo, d: Disk, fs: Fs, i: nat, p: nat)
    requires DiskImage.Holds(geo, d, fs) && i < geo.ninodes
    ensures fs.table[i].size == Long(d[geo.inodestart + i / 8], 64 * (i % 8) + 8) <= 140 * 512
    ensures p < fs.table[i].size ==>
      var a := RawBlock(geo, d, i, p / 512);
      a < geo.size && Contents(fs, i)[p] == d[a][p % 512]
  {
    var m: map<nat, (nat, nat)> :| Good(fs, m);
    FileFormat(geo, d, fs.table, fs, m, i, p);
  }

  // ---------- Directories ----------

  /** Sixteen bytes to an entry: the inode number, and a name that ends at its first zero byte or at fourteen. */
  lemma EntryFormat(c: seq<Byte>, k: nat, key: Name)
    requires 16 * k + 16 <= |c| && 0 !in key && |key| <= 14
    ensures IsEntry(c, k) && EInum(EntryOf(c, k)) == Short(c, 16 * k)
    ensures EName(EntryOf(c, k)) == key <==>
      c[16 * k + 2..16 * k + 2 + |key|] == key && (|key| < 14 ==> c[16 * k + 2 + |key|] == 0)
  {
    var f := EntryOf(c, k)[2..];
    assert f == c[16 * k + 2..16 * k + 16];
    NulFormat(f, key);
    assert f[..|key|] == c[16 * k + 2..16 * k + 2 + |key|];
  }

  lemma {:induction false} NulFormat(f: seq<Byte>, key: Name)
    requires 0 !in key && |key| <= |f|
    ensures UpToNul(f) == key <==> f[..|key|] == key && (|key| < |f| ==> f[|key|] == 0)
    decreases |f|
  {
    if key != [] {
      assert key[0] in key;
      NulFormat(f[1..], key[1..]);
      assert f[..|key|] == [f[0]] + f[1..][..|key| - 1] && key == [key[0]] + key[1..];
    }
  }
}
