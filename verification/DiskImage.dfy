/** Disks as images of file systems: what an image depends on, and what is read from one after an operation. */
module DiskImage {
  import opened Common
  import opened BlockWords
  import opened FileModel
  import opened FileState
  import opened DirectoryOps

  /** Disk d holds the file system fs: bitmap, inodes and block ownership agree, every file has exactly the
      blocks below its size, and no inode is newer in memory. */
  ghost predicate Holds(geo: Geo, d: Disk, fs: Fs) {
    Couples(geo, d, fs.table, fs) && Synced(geo, d, fs.table) && exists m: map<nat, (nat, nat)> :: Good(fs, m)
  }

  ghost predicate Consistent(geo: Geo, d: Disk) {
    exists fs :: Holds(geo, d, fs)
  }

  lemma HoldsSize(geo: Geo, d: Disk, fs: Fs, i: nat)
    requires Holds(geo, d, fs) && i < geo.ninodes
    ensures fs.table[i].size <= MAXBYTES
  {
    var m :| Good(fs, m);
    GoodSize(fs, m, i);
  }

  ghost predicate SameHome(geo: Geo, d: Disk, d': Disk) {
    |d| == |d'| && forall b {:trigger d'[b]} :: geo.inodestart <= b < |d| ==> d'[b] == d[b]
  }

  lemma SameHomeMarks(geo: Geo, d: Disk, d': Disk, c: nat)
    requires GeoOk(geo) && |d| == geo.size && SameHome(geo, d, d') && c < geo.size
    ensures Marked(geo, d', c) == Marked(geo, d, c)
  {
    var b := geo.bmapstart + c / 4096;
    assert d'[b] == d[b];
  }

  lemma SameHomeInodes(geo: Geo, d: Disk, d': Disk, i: nat)
    requires GeoOk(geo) && |d| == geo.size && SameHome(geo, d, d') && i < geo.ninodes
    ensures OnDisk(geo, d', i) == OnDisk(geo, d, i)
  {
    var b := geo.inodestart + i / 8;
    assert d'[b] == d[b];
  }

  /** What a disk holds does not depend on the log area. */
  lemma SameHomeHolds(geo: Geo, d: Disk, d': Disk, fs: Fs)
    requires Holds(geo, d, fs) && SameHome(geo, d, d')
    ensures Holds(geo, d', fs)
  {
    forall c | 0 <= c < geo.size
      ensures fs.used[c] == Marked(geo, d', c)
    {
      assert fs.used[c] == Marked(geo, d, c);
      SameHomeMarks(geo, d, d', c);
    }
    forall b | geo.first <= b < geo.size
      ensures fs.data[b] == d'[b]
    {
      assert fs.data[b] == d[b];
    }
    forall i | 0 <= i < geo.ninodes
      ensures OnDisk(geo, d', i) == fs.table[i]
    {
      assert OnDisk(geo, d, i) == fs.table[i];
      SameHomeInodes(geo, d, d', i);
    }
  }

  // ---------- One disk, one file system ----------

  lemma SameTable(geo: Geo, d: Disk, fs: Fs, fs': Fs)
    requires Holds(geo, d, fs) && Holds(geo, d, fs')
    ensures fs.table == fs'.table
  {
    forall j | 0 <= j < |fs.table|
      ensures fs.table[j] == fs'.table[j]
    {
      assert OnDisk(geo, d, j) == fs.table[j];
      assert OnDisk(geo, d, j) == fs'.table[j];
    }
  }

  lemma SameSlot(geo: Geo, d: Disk, fs: Fs, fs': Fs, m: map<nat, (nat, nat)>, j: nat, l: nat)
    requires Couples(geo, d, fs.table, fs) && Couples(geo, d, fs.table, fs') && OwnedBy(fs, m) && IsSlot(fs, j, l)
    ensures SlotAt(fs', j, l) == SlotAt(fs, j, l)
  {
    var a := fs.table[j].addrs[NDIRECT];
    if a != 0 {
      IndirectOwned(fs, m, j);
      assert fs.data[a] == d[a] == fs'.data[a];
    }
  }

  lemma SameBlock(geo: Geo, d: Disk, fs: Fs, fs': Fs, m: map<nat, (nat, nat)>, j: nat, n: nat)
    requires Couples(geo, d, fs.table, fs) && Couples(geo, d, fs.table, fs') && OwnedBy(fs, m) && IsFileBlock(fs, j, n)
    ensures BlockOf(fs', j, n) == BlockOf(fs, j, n)
  {
    var l := DataSlot(n);
    SameSlot(geo, d, fs, fs', m, j, l);
    BlockOwned(fs, m, j, l);
    var a := SlotAt(fs, j, l);
    assert fs.data[a] == d[a] == fs'.data[a];
  }

  /** The inodes and the bytes of all files are the same. */
  ghost predicate SameFiles(fs: Fs, fs': Fs) {
    && fs'.table == fs.table
    && forall j {:trigger Contents(fs', j)} ::
         0 <= j < |fs.table| && fs.table[j].size <= MAXBYTES ==> Contents(fs', j) == Contents(fs, j)
  }

  /** A disk holds one file system. */
  lemma HoldsOne(geo: Geo, d: Disk, fs: Fs, fs': Fs)
    requires Holds(geo, d, fs) && Holds(geo, d, fs')
    ensures SameFiles(fs, fs')
  {
    SameTable(geo, d, fs, fs');
    var m :| Good(fs, m);
    forall j | 0 <= j < |fs.table| && fs.table[j].size <= MAXBYTES
      ensures Contents(fs', j) == Contents(fs, j)
    {
      assert Compact(fs, j);
      forall n | IsFileBlock(fs, j, n)
        ensures BlockOf(fs', j, n) == BlockOf(fs, j, n)
      {
        SameBlock(geo, d, fs, fs', m, j, n);
      }
      SameContents(fs, fs', j);
    }
  }

  // ---------- After an operation that may have been cut off ----------

  /** All files are as in fs0 or all are as in fs1. */
  ghost predicate OneOf(fs0: Fs, fs1: Fs, fs: Fs) {
    SameFiles(fs0, fs) || SameFiles(fs1, fs)
  }

  /** After writei: the file reads its old bytes or those with src patched in, and every other file its own. */
  lemma WriteRecovered(fs0: Fs, fs1: Fs, fs: Fs, i: nat, off: nat, src: seq<Byte>, j: nat)
    requires OneOf(fs0, fs1, fs) && Known(WroteFile(fs0, fs1, i, off, src))
    requires j < |fs0.table| && fs0.table[j].size <= MAXBYTES
    ensures i < |fs.table| && fs.table[i].size <= MAXBYTES && j < |fs.table| && fs.table[j].size <= MAXBYTES
    ensures i < |fs0.table| && fs0.table[i].size <= MAXBYTES && off <= fs0.table[i].size
    ensures Contents(fs, i) == Contents(fs0, i) || Contents(fs, i) == Patch(Contents(fs0, i), off, src)
    ensures j != i ==> Contents(fs, j) == Contents(fs0, j)
  {
    if SameFiles(fs0, fs) {
      assert Contents(fs, i) == Contents(fs0, i);
    } else {
      assert Contents(fs, i) == Contents(fs1, i);
      assert j != i ==> Contents(fs1, j) == Contents(fs0, j);
    }
  }

  /** After dirlink or the clearing of an entry: the directory has its old bytes or its new ones, so it binds what
      it did or what it should. */
  lemma DirRecovered(fs0: Fs, fs1: Fs, fs: Fs, d: nat, c0: seq<Byte>, c1: seq<Byte>)
    requires OneOf(fs0, fs1, fs) && IsDir(fs0, d, c0) && IsDir(fs1, d, c1)
    ensures IsDir(fs, d, c0) || IsDir(fs, d, c1)
  {
    ReadsContents(fs0, d, c0);
    ReadsContents(fs1, d, c1);
    if SameFiles(fs0, fs) {
      assert Contents(fs, d) == c0;
      ReadsContents(fs, d, c0);
    } else {
      assert Contents(fs, d) == c1;
      ReadsContents(fs, d, c1);
    }
  }

  /** After itrunc: the file has its old bytes or none. */
  lemma TruncRecovered(fs0: Fs, fs1: Fs, fs: Fs, i: nat)
    requires OneOf(fs0, fs1, fs) && Truncated(fs0, fs1, i) && fs0.table[i].size <= MAXBYTES
    ensures i < |fs.table| && fs.table[i].size <= MAXBYTES
    ensures Contents(fs, i) == Contents(fs0, i) || Contents(fs, i) == []
  {
    if SameFiles(fs0, fs) {
      assert Contents(fs, i) == Contents(fs0, i);
    } else {
      assert |Contents(fs, i)| == 0;
    }
  }
}
