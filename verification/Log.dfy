/** The redo log of log.c over a disk whose single-block writes are atomic (memide.c): the on-disk format of
    its header, and what recovery does to a disk image however often it is cut off. */
module Log {
  import opened Common
  import opened BlockWords

  const MAXOPBLOCKS := 10
  const LOGSIZE := 3 * MAXOPBLOCKS
  const NBUF := 3 * MAXOPBLOCKS

  /** log.start and log.size, in blocks; the header is block `start`. */
  datatype Geometry = Geometry(start: nat, size: nat)

  /** log_write's test for "too big a transaction" when n blocks are in a log of this size. */
  predicate TooMany(size: nat, n: nat) {
    n >= LOGSIZE || n >= size - 1
  }

  /** How many different blocks a transaction takes. */
  function Capacity(size: nat): nat {
    if size == 0 then 0 else if size - 1 < LOGSIZE then size - 1 else LOGSIZE
  }

  lemma MoreTooMany(size: nat, lh: set<nat>, all: set<nat>)
    requires lh <= all
    ensures TooMany(size, |lh|) ==> TooMany(size, |all|)
  {
    SubsetSize(lh, all);
  }

  lemma TooManyIs(size: nat, n: nat)
    ensures TooMany(size, n) <==> n >= Capacity(size)
    ensures TooMany(size, n) <==> n >= 30 || n + 1 >= size
  {
  }

  predicate InLog(g: Geometry, b: nat) {
    g.start <= b < g.start + g.size
  }

  predicate Fits(g: Geometry, d: Disk) {
    1 <= g.size && g.start + g.size <= |d| < 0x1_0000_0000
  }

  /** A block number outside the log area. */
  predicate Home(g: Geometry, d: Disk, b: nat) {
    b < |d| && !InLog(g, b)
  }

  predicate AllHome(g: Geometry, d: Disk, lh: seq<nat>) {
    forall i :: 0 <= i < |lh| ==> Home(g, d, lh[i])
  }

  /** The i-th block of the log area after its header. */
  function LogBlock(g: Geometry, d: Disk, i: nat): Block
    requires Fits(g, d) && i + 1 < g.size
  {
    d[g.start + 1 + i]
  }

  // ---------- The header block ----------

  function HeaderCount(h: Block): nat {
    WordAt(h, 0)
  }

  function HeaderList(h: Block): (lh: seq<nat>)
    requires HeaderCount(h) <= LOGSIZE
    ensures |lh| == HeaderCount(h)
  {
    seq(HeaderCount(h), i requires 0 <= i < HeaderCount(h) => WordAt(h, 1 + i))
  }

  predicate Loggable(lh: seq<nat>) {
    |lh| <= LOGSIZE && forall i :: 0 <= i < |lh| ==> lh[i] < 0x1_0000_0000
  }

  /** The header block after its first `k` entries have been stored, the rest being left as it was. */
  function StampEntries(h: Block, lh: seq<nat>, k: nat): Block
    requires Loggable(lh) && k <= |lh|
  {
    if k == 0 then h else SetWord(StampEntries(h, lh, k - 1), k, lh[k - 1])
  }

  /** write_head's new header contents. */
  function Stamp(h: Block, lh: seq<nat>): Block
    requires Loggable(lh)
  {
    StampEntries(SetWord(h, 0, |lh|), lh, |lh|)
  }

  lemma {:induction false} StampEntriesAt(h: Block, lh: seq<nat>, k: nat, j: nat)
    requires Loggable(lh) && k <= |lh| && j <= |lh|
    ensures WordAt(StampEntries(h, lh, k), j) == if 1 <= j <= k then lh[j - 1] else WordAt(h, j)
  {
    if k > 0 {
      StampEntriesAt(h, lh, k - 1, j);
      SetWordAt(StampEntries(h, lh, k - 1), k, lh[k - 1], j);
    }
  }

  /** Reading back a written header gives exactly the list that was written. */
  lemma StampReads(h: Block, lh: seq<nat>)
    requires Loggable(lh)
    ensures HeaderCount(Stamp(h, lh)) == |lh| && HeaderList(Stamp(h, lh)) == lh
  {
    var h0 := SetWord(h, 0, |lh|);
    SetWordAt(h, 0, |lh|, 0);
    StampEntriesAt(h0, lh, |lh|, 0);
    forall i | 0 <= i < |lh| ensures WordAt(Stamp(h, lh), 1 + i) == lh[i] {
      StampEntriesAt(h0, lh, |lh|, 1 + i);
    }
  }

  // ---------- Recovery of a disk image ----------

  /** A disk whose header names a list of home blocks that the log area can hold. */
  predicate ValidLog(g: Geometry, d: Disk) {
    && Fits(g, d)
    && HeaderCount(d[g.start]) <= LOGSIZE
    && HeaderCount(d[g.start]) < g.size
    && AllHome(g, d, HeaderList(d[g.start]))
  }

  /** install_trans: copy log block i to home block lh[i], in order. */
  function Replay(g: Geometry, d: Disk, lh: seq<nat>): (r: Disk)
    requires Fits(g, d) && |lh| < g.size && AllHome(g, d, lh)
    ensures |r| == |d|
  {
    if lh == [] then d
    else
      var r := Replay(g, d, lh[..|lh| - 1]);
      r[lh[|lh| - 1] := LogBlock(g, r, |lh| - 1)]
  }

  function ClearHeader(g: Geometry, d: Disk): Disk
    requires Fits(g, d)
  {
    d[g.start := Stamp(d[g.start], [])]
  }

  /** What a completed recover_from_log leaves on the disk. */
  function Recovered(g: Geometry, d: Disk): Disk
    requires ValidLog(g, d)
  {
    ClearHeader(g, Replay(g, d, HeaderList(d[g.start])))
  }

  /** The position of the last occurrence of b in lh. */
  function LastIndex(lh: seq<nat>, b: nat): (i: nat)
    requires b in lh
    ensures i < |lh| && lh[i] == b && b !in lh[i + 1..]
  {
    if lh[|lh| - 1] == b then |lh| - 1 else LastIndex(lh[..|lh| - 1], b)
  }

  /** Block by block: a replayed home block holds the last log copy made for it,
      and nothing else has changed. */
  lemma {:induction false} ReplayAt(g: Geometry, d: Disk, lh: seq<nat>, b: nat)
    requires Fits(g, d) && |lh| < g.size && AllHome(g, d, lh) && b < |d|
    ensures Replay(g, d, lh)[b] == if b in lh then LogBlock(g, d, LastIndex(lh, b)) else d[b]
  {
    if lh != [] {
      var front := lh[..|lh| - 1];
      assert lh == front + [lh[|lh| - 1]];
      ReplayAt(g, d, front, b);
      if lh[|lh| - 1] == b {
        assert LastIndex(lh, b) == |lh| - 1;
        assert g.start + |lh| !in front;
        ReplayAt(g, d, front, g.start + |lh|);
      }
    }
  }

  lemma ReplaySkipsLog(g: Geometry, d: Disk, lh: seq<nat>)
    requires Fits(g, d) && |lh| < g.size && AllHome(g, d, lh)
    ensures forall b :: 0 <= b < |d| && InLog(g, b) ==> Replay(g, d, lh)[b] == d[b]
  {
    forall b | 0 <= b < |d| && InLog(g, b) ensures Replay(g, d, lh)[b] == d[b] {
      ReplayAt(g, d, lh, b);
    }
  }

  /** An interrupted installation followed by a whole one equals one whole installation. */
  lemma ReplayAfterPartial(g: Geometry, d: Disk, lh: seq<nat>, t: nat)
    requires Fits(g, d) && |lh| < g.size && AllHome(g, d, lh) && t <= |lh|
    ensures var p := Replay(g, d, lh[..t]); Replay(g, p, lh) == Replay(g, d, lh)
  {
    var p := Replay(g, d, lh[..t]);
    forall b | 0 <= b < |d| ensures Replay(g, p, lh)[b] == Replay(g, d, lh)[b] {
      ReplayAt(g, p, lh, b);
      ReplayAt(g, d, lh, b);
      ReplaySkipsLog(g, d, lh[..t]);
      if b !in lh {
        assert b !in lh[..t];
        ReplayAt(g, d, lh[..t], b);
      }
    }
  }

  /** The disk images that recover_from_log passes through: one per single-block write. */
  function RecoveryImage(g: Geometry, d: Disk, k: nat): Disk
    requires ValidLog(g, d) && k <= HeaderCount(d[g.start]) + 1
  {
    var lh := HeaderList(d[g.start]);
    if k <= |lh| then Replay(g, d, lh[..k]) else Recovered(g, d)
  }

  /** A crash at any point of recovery loses nothing: recovering the interrupted image
      gives exactly what recovering the original would have given. */
  lemma RecoveryInterrupted(g: Geometry, d: Disk, k: nat)
    requires ValidLog(g, d) && k <= HeaderCount(d[g.start]) + 1
    ensures ValidLog(g, RecoveryImage(g, d, k))
    ensures Recovered(g, RecoveryImage(g, d, k)) == Recovered(g, d)
  {
    var lh := HeaderList(d[g.start]);
    if k <= |lh| {
      ReplaySkipsLog(g, d, lh[..k]);
      assert RecoveryImage(g, d, k)[g.start] == d[g.start];
      ReplayAfterPartial(g, d, lh, k);
    } else {
      ReplaySkipsLog(g, d, lh);
      var r := Recovered(g, d);
      assert r[g.start] == Stamp(d[g.start], []);
      StampReads(d[g.start], []);
      StampIdempotent(d[g.start]);
      assert Recovered(g, r) == r[g.start := r[g.start]] == r;
    }
  }

  lemma StampIdempotent(h: Block)
    ensures Stamp(Stamp(h, []), []) == Stamp(h, [])
  {
    var r := Stamp(h, []);
    forall i | 0 <= i < BSIZE ensures SetWord(r, 0, 0)[i] == r[i] {
      assert r == SetWord(h, 0, 0);
    }
  }

  /** Disk images left by successive crashes, each during the recovery of the one before. */
  predicate CrashChain(g: Geometry, ds: seq<Disk>, ks: seq<nat>) {
    && |ds| == |ks| + 1
    && (forall i :: 0 <= i < |ds| ==> ValidLog(g, ds[i]))
    && (forall i :: 0 <= i < |ks| ==>
          ks[i] <= HeaderCount(ds[i][g.start]) + 1 && ds[i + 1] == RecoveryImage(g, ds[i], ks[i]))
  }

  /** Any number of crashes during recovery, at any points, leave the outcome unchanged,
      and recovering once more changes nothing. */
  lemma {:induction false} RecoveryAfterRepeatedCrashes(g: Geometry, ds: seq<Disk>, ks: seq<nat>)
    requires CrashChain(g, ds, ks)
    ensures Recovered(g, ds[|ks|]) == Recovered(g, ds[0])
    ensures ValidLog(g, Recovered(g, ds[0])) && Recovered(g, Recovered(g, ds[0])) == Recovered(g, ds[0])
    decreases |ks|
  {
    if |ks| == 0 {
      RecoveryInterrupted(g, ds[0], HeaderCount(ds[0][g.start]) + 1);
    } else {
      var k := |ks| - 1;
      RecoveryAfterRepeatedCrashes(g, ds[..k + 1], ks[..k]);
      RecoveryInterrupted(g, ds[k], ks[k]);
    }
  }
}
