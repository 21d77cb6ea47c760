/** file.c's filewrite: one write cut into chunks small enough for a log transaction. */
module FileWrite {
  import opened Common
  import opened BlockWords
  import opened FileModel
  import opened DiskLayout
  import opened FileState
  import opened FileSystem
  import opened LogCost
  import Log

  const CHUNK := (Log.LOGSIZE - 1 - 1 - 2) / 2 * 512

  /** What a chunk costs at most on a disk with one bitmap block. */
  const ONE_BITMAP := 17

  // ---------- What a chunk costs the log ----------

  /** filewrite sizes its chunks from LOGSIZE, so a full chunk exceeds what was reserved for it, wherever it
      starts and whether or not the file grows. */
  lemma FullChunkExceeds(bs: nat, used: seq<bool>, size: nat, off: nat)
    ensures Cost(bs, used, size, off, CHUNK) > Log.MAXOPBLOCKS
  {
  }

  /** But every chunk fits an empty log of LOGSIZE blocks beside its header, as the comment promises, and on a disk
      with one bitmap block also the log that mkfs lays out, which takes one block less. */
  lemma ChunkFitsLog(bs: nat, used: seq<bool>, size: nat, off: nat, n: nat)
    requires off <= size && n <= CHUNK
    ensures Cost(bs, used, size, off, n) <= Log.LOGSIZE == Log.Capacity(Log.LOGSIZE + 1)
    ensures |used| <= BPB ==> Cost(bs, used, size, off, n) <= ONE_BITMAP < Log.Capacity(Log.LOGSIZE)
  {
    CostAtMost(bs, used, size, off, n, 13);
    if |used| <= BPB {
      OneBitmapAtMost(bs, used, size, off, n, 13);
    }
  }

  /** A log that takes every chunk. */
  predicate TakesChunks(g: Geo, nlog: nat) {
    Log.Capacity(nlog) >= Log.LOGSIZE || (g.size <= BPB && Log.Capacity(nlog) >= ONE_BITMAP)
  }

  lemma ChunkExceedsReservation(disk: FileSys, fs: Fs, i: nat, off: nat, T: set<nat>)
    requires disk.Coupled() && Known(OwnedBy(disk.fs, disk.owner)) && i < disk.g.ninodes
    requires i < |fs.table| && off <= fs.table[i].size <= MAXBYTES
    requires Known(Logs(disk.g, fs, disk.fs, i, off, CHUNK, {}, T))
    ensures |T| > Log.MAXOPBLOCKS
  {
    WriteCosts(disk.g, fs, disk.fs, disk.owner, i, off, CHUNK, T);
    FullChunkExceeds(disk.g.bmapstart, fs.used, fs.table[i].size, off);
  }

  /** What the end of a write says of the write before it started. */
  lemma OpEnds(disk: FileSys, fs: Fs, i: nat, off: nat, n: nat, done: bool)
    requires disk.Coupled() && Known(OwnedBy(disk.fs, disk.owner)) && i < disk.g.ninodes && i < |fs.table|
    requires off <= fs.table[i].size <= MAXBYTES && disk.lh0 == {}
    requires done ==> Known(Logs(disk.g, fs, disk.fs, i, off, n, {}, disk.touched))
    requires done ==>
      Known(Refused(disk.g.bmapstart, disk.nlog, disk.lh0, fs, disk.fs, i, off, n, {}, false, disk.refused))
    requires !done ==> AllUsed(disk.fs) && Known(Shortage(fs, disk.fs, i, off, n))
    ensures done <==> |Free(fs.used)| >= NewCount(fs.table[i].size, off + n)
    ensures done ==> |disk.touched| == Cost(disk.g.bmapstart, fs.used, fs.table[i].size, off, n)
    ensures done ==>
      (disk.refused <==> Cost(disk.g.bmapstart, fs.used, fs.table[i].size, off, n) > Log.Capacity(disk.nlog))
  {
    if done {
      DoneMeans(disk.g, fs, disk.fs, disk.owner, i, off, n, {}, disk.touched);
      WriteCosts(disk.g, fs, disk.fs, disk.owner, i, off, n, disk.touched);
      RefusedIff(disk.g, disk.nlog, fs, disk.fs, disk.owner, i, off, n, disk.touched, disk.refused);
    } else {
      ShortMeans(fs, disk.fs, disk.owner, i, off, n);
    }
  }

  /** One transaction of filewrite, from an empty log: how it ends is known before it starts. */
  method WriteOp(disk: FileSys, i: nat, src: seq<Byte>, off: Word) returns (r: Io)
    requires disk.Valid() && i < disk.g.ninodes && |src| < 0x1_0000_0000
    modifies disk
    ensures var ip := old(disk.fs).table[i];
      && (r == Device <==> ip.kind == T_DEV) && (r == Failed <==> ip.kind != T_DEV && !Fits(ip.size, off, |src|))
    ensures r == Device || r == Failed ==> disk.Valid() && disk.fs == old(disk.fs) && disk.touched == {}
    ensures disk.base == old(disk.blocks) && disk.lh0 == {} && (r == TooBig <==> disk.refused)
    ensures var fs0 := old(disk.fs);
      var enough := |Free(fs0.used)| >= NewCount(fs0.table[i].size, off + |src|);
      var cost := Cost(disk.g.bmapstart, fs0.used, fs0.table[i].size, off, |src|);
      && (r.Count? ==> enough && |disk.touched| == cost <= Log.Capacity(disk.nlog))
      && (r == TooBig && enough ==> cost > Log.Capacity(disk.nlog))
      && (r == Panicked ==> !enough)
    ensures r == Panicked || (r == TooBig && |Free(old(disk.fs).used)| < NewCount(old(disk.fs).table[i].size, off + |src|)) ==>
      AllUsed(disk.fs) && off + |src| > old(disk.fs).table[i].size
    ensures r.Count? ==> disk.Valid() && Known(WroteFile(old(disk.fs), disk.fs, i, off, src))
  {
    ghost var fs0, owner0 := disk.fs, disk.owner;
    GoodSize(fs0, owner0, i);
    disk.BeginOp({});
    ghost var done;
    r, done := disk.WriteI(i, src, off);
    if r != Device && r != Failed {
      OpEnds(disk, fs0, i, off, |src|, done);
    }
  }

  /** The same for at most a chunk: a log that takes every chunk refuses only a write that runs out of blocks. */
  method ChunkOp(disk: FileSys, i: nat, src: seq<Byte>, off: Word) returns (r: Io)
    requires disk.Valid() && i < disk.g.ninodes && |src| <= CHUNK
    modifies disk
    ensures var ip := old(disk.fs).table[i];
      && (r == Device <==> ip.kind == T_DEV) && (r == Failed <==> ip.kind != T_DEV && !Fits(ip.size, off, |src|))
    ensures r == Failed ==> disk.Valid() && disk.fs == old(disk.fs)
    ensures r == Panicked || (r == TooBig && TakesChunks(disk.g, disk.nlog)) ==>
      AllUsed(disk.fs) && off + |src| > old(disk.fs).table[i].size
    ensures r.Count? ==> disk.Valid() && Known(WroteFile(old(disk.fs), disk.fs, i, off, src))
  {
    ghost var fs0 := disk.fs;
    r := WriteOp(disk, i, src, off);
    if fs0.table[i].size >= off {
      ChunkFitsLog(disk.g.bmapstart, fs0.used, fs0.table[i].size, off, |src|);
    }
  }

  // ---------- Chunks compose ----------

  /** Writes that follow one another in a file are one write. */
  lemma WroteTwice(fs0: Fs, fs1: Fs, fs2: Fs, i: nat, off: nat, a: seq<Byte>, b: seq<Byte>)
    requires WroteFile(fs0, fs1, i, off, a) && WroteFile(fs1, fs2, i, off + |a|, b)
    ensures WroteFile(fs0, fs2, i, off, a + b)
  {
    OthersSameTwice(fs0, fs1, fs2, i);
    PatchTwice(Contents(fs0, i), off, a, b);
  }

  /** The first k bytes of src are in the file, or it has not been touched at all. */
  ghost predicate WrotePart(fs0: Fs, fs: Fs, i: nat, off: nat, src: seq<Byte>, k: nat) {
    k <= |src| && if k == 0 then fs == fs0 else WroteFile(fs0, fs, i, off, src[..k])
  }

  lemma WroteMore(fs0: Fs, fs1: Fs, fs2: Fs, i: nat, off: nat, src: seq<Byte>, k: nat, n: nat)
    requires k + n <= |src| && n > 0
    requires WrotePart(fs0, fs1, i, off, src, k) && WroteFile(fs1, fs2, i, off + k, src[k..k + n])
    ensures WrotePart(fs0, fs2, i, off, src, k + n)
    ensures fs2.table[i].kind == fs0.table[i].kind
    ensures fs2.table[i].size == Max(fs1.table[i].size, off + k + n)
  {
    PatchAt(Contents(fs1, i), off + k, src[k..k + n], off + k);
    if k > 0 {
      WroteTwice(fs0, fs1, fs2, i, off, src[..k], src[k..k + n]);
    }
    assert src[..k] + src[k..k + n] == src[..k + n];
  }

  /** filewrite after k bytes. */
  ghost predicate Chunks(fs0: Fs, fs: Fs, i: nat, off: nat, src: seq<Byte>, k: nat) {
    && i < |fs0.table| && i < |fs.table| && WrotePart(fs0, fs, i, off, src, k)
    && fs.table[i].kind == fs0.table[i].kind
    && (k > 0 ==> fs0.table[i].kind != T_DEV && Fits(fs0.table[i].size, off, k) && off + k <= fs.table[i].size)
  }

  lemma ChunksMore(fs0: Fs, fs1: Fs, fs2: Fs, i: nat, off: nat, src: seq<Byte>, k: nat, k': nat, part: seq<Byte>)
    requires Chunks(fs0, fs1, i, off, src, k) && k < k' <= |src| && part == src[k..k']
    requires fs1.table[i].kind != T_DEV && Fits(fs1.table[i].size, off + k, k' - k)
    requires WroteFile(fs1, fs2, i, off + k, part)
    ensures Chunks(fs0, fs2, i, off, src, k')
  {
    WroteMore(fs0, fs1, fs2, i, off, src, k, k' - k);
  }

  /** A chunk is refused only when the whole write does not fit. */
  lemma ChunkRefused(fs0: Fs, fs: Fs, i: nat, off: nat, src: seq<Byte>, k: nat, n: nat)
    requires Chunks(fs0, fs, i, off, src, k) && k + n <= |src| && 0 < n <= CHUNK && off + k < 0x1_0000_0000
    requires fs.table[i].size <= MAXBYTES && !Fits(fs.table[i].size, off + k, n)
    ensures !Fits(fs0.table[i].size, off, |src|)
  {
  }

  /** The next piece of src, as much of it as a transaction is given. */
  function Chunk(src: seq<Byte>, k: nat): (part: seq<Byte>)
    requires k < |src|
    ensures 0 < |part| <= CHUNK && k + |part| <= |src| && part == src[k..k + |part|]
    ensures |part| == if |src| - k < 6656 then |src| - k else 6656
  {
    src[k..k + Min(|src| - k, CHUNK)]
  }

  /** What one call of writei makes of the state after k bytes. */
  lemma ChunkEnds(fs0: Fs, fs1: Fs, fs2: Fs, i: nat, off: Word, src: seq<Byte>, k: nat, k': nat, place: Word,
                  part: seq<Byte>, r: Io, before: bool)
    requires before == Chunks(fs0, fs1, i, off, src, k) && before
    requires k < |src| && fs1.table[i].size <= MAXBYTES && place == off + k && part == Chunk(src, k)
    requires r == Device <==> fs1.table[i].kind == T_DEV
    requires r == Failed <==> fs1.table[i].kind != T_DEV && !Fits(fs1.table[i].size, place, |part|)
    requires r == Failed ==> fs2 == fs1
    requires r.Count? ==> Known(WroteFile(fs1, fs2, i, place, part))
    requires k' == if r.Count? then k + |part| else k
    ensures r == Device <==> fs0.table[i].kind == T_DEV
    ensures r == Failed ==> !Fits(fs0.table[i].size, off, |src|)
    ensures r.Count? || r.Failed? ==> Chunks(fs0, fs2, i, off, src, k')
  {
    if r.Count? {
      ChunksMore(fs0, fs1, fs2, i, off, src, k, k', part);
    } else if r == Failed {
      ChunkRefused(fs0, fs1, i, off, src, k, |part|);
    }
  }

  /** An open file on an inode. */
  class File {
    const writable: bool
    const i: nat
    var off: Word

    /** One transaction of filewrite: from k bytes to k'. */
    method WriteChunk(disk: FileSys, src: seq<Byte>, k: nat, ghost fs0: Fs, ghost off0: Word) returns (r: Io, k': nat)
      requires disk.Valid() && i < disk.g.ninodes && k < |src| && off == off0 + k
      requires Chunks(fs0, disk.fs, i, off0, src, k)
      modifies `off, disk
      ensures r == Device <==> fs0.table[i].kind == T_DEV
      ensures r == Panicked || (r == TooBig && TakesChunks(disk.g, disk.nlog)) ==>
        AllUsed(disk.fs) && off0 + |src| > fs0.table[i].size
      ensures r == Failed ==> !Fits(fs0.table[i].size, off0, |src|)
      ensures r.Count? || r.Failed? ==> disk.Valid() && off == off0 + k' && Chunks(fs0, disk.fs, i, off0, src, k')
      ensures k <= k' <= |src| && (r.Count? ==> k < k')
    {
      var part := Chunk(src, k);
      ghost var fs1, place, before := disk.fs, off, Chunks(fs0, disk.fs, i, off0, src, k);
      GoodSize(fs1, disk.owner, i);
      r := ChunkOp(disk, i, part, off);
      k' := k;
      if r.Count? {
        k' := k + |part|;
        off := off + |part|;
      }
      ChunkEnds(fs0, fs1, disk.fs, i, off0, src, k, k', place, part, r, before);
    }

    /** filewrite: all of src is written and the offset moves past it, exactly when the file is writable and
        the bytes fit; otherwise a prefix of src, as long as the offset has moved, is in the file. On a log that
        takes every chunk it panics only for want of a block. */
    method Write(disk: FileSys, src: seq<Byte>) returns (r: Io, ghost k: nat)
      requires disk.Valid() && i < disk.g.ninodes
      modifies `off, disk
      ensures r == Device <==> writable && src != [] && old(disk.fs).table[i].kind == T_DEV
      ensures r == Panicked || (r == TooBig && TakesChunks(disk.g, disk.nlog)) ==>
        AllUsed(disk.fs) && old(off) + |src| > old(disk.fs).table[i].size
      ensures !writable ==> r == Failed && k == 0
      ensures writable && r.Failed? ==> src != [] && !Fits(old(disk.fs).table[i].size, old(off), |src|)
      ensures r.Count? ==> writable && (src == [] || Fits(old(disk.fs).table[i].size, old(off), |src|))
      ensures r.Count? ==> r.n == |src| == k
      ensures r.Count? || r.Failed? ==> disk.Valid() && off == old(off) + k
      ensures r.Count? || r.Failed? ==> WrotePart(old(disk.fs), disk.fs, i, old(off), src, k)
    {
      if !writable {
        return Failed, 0;
      }
      var j := 0;
      while j < |src|
        invariant 0 <= j <= |src| && off == old(off) + j
        invariant disk.Valid() && Chunks(old(disk.fs), disk.fs, i, old(off), src, j)
      {
        r, j := WriteChunk(disk, src, j, old(disk.fs), old(off));
        if !r.Count? {
          return r, j;
        }
      }
      r, k := Count(|src|), j;
    }
  }
}
