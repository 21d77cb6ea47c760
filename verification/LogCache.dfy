/** The log on the buffer cache: log_write pins buffers, commit reads and writes through them, and bget panics when
    every buffer is pinned or held. */
module LogCache {
  import opened Common
  import opened BlockWords
  import opened Log
  import P = LogProtocol
  import C = CacheModel
  import R = LogReservation

  datatype Joint = Joint(log: P.State, cache: C.Cache)

  /** A step of the two together: one of bio.c on a buffer, or of its holder; log_write of buffer i; the next bwrite
      of commit or recovery, of buffer i; a locked section of begin_op, end_op or the end of commit; a crash, after
      which the cache is empty. */
  datatype Step =
    | Buffer(a: C.Action)
    | Logged(pid: nat, i: nat)
    | Written(i: nat)
    | Locked(section: P.Action)
    | Crashed(c: C.Cache)

  /** The block that the next bwrite of commit or recovery writes, and its contents. */
  function Target(g: Geometry, s: P.State): nat
    requires P.Enabled(g, s, P.DiskWrite)
  {
    match s.phase
    case WritingLog(t) => if t < |s.lh| then g.start + 1 + t else g.start
    case Installing(t) => if t < |s.lh| then s.lh[t] else g.start
  }

  function Payload(g: Geometry, s: P.State): Block
    requires P.Enabled(g, s, P.DiskWrite)
  {
    match s.phase
    case WritingLog(t) => if t < |s.lh| then P.Cached(s, s.lh[t]) else Stamp(s.disk[g.start], s.lh)
    case Installing(t) => if t < |s.lh| then LogBlock(g, s.disk, t) else Stamp(s.disk[g.start], [])
  }

  ghost predicate Enabled(g: Geometry, j: Joint, st: Step) {
    match st
    case Buffer(a) => !a.Pin? && !a.Flush? && C.Enabled(j.cache, a)
    case Logged(pid, i) =>
      && i < |j.cache.bufs| && C.Enabled(j.cache, C.Pin(i)) && j.cache.bufs[i].dev == C.DISK_DEV
      && P.Enabled(g, j.log, P.LogWrite(pid, j.cache.bufs[i].blockno, j.cache.bufs[i].data))
    case Written(i) =>
      && P.Enabled(g, j.log, P.DiskWrite) && i < |j.cache.bufs| && C.Enabled(j.cache, C.Flush(i))
      && C.Holds(j.cache.bufs[i], Target(g, j.log)) && j.cache.bufs[i].data == Payload(g, j.log)
    case Locked(a) => (a.Begin? || a.End? || a.Release?) && P.Enabled(g, j.log, a)
    case Crashed(c) =>
      P.Enabled(g, j.log, P.Crash) && C.Boot(c) && c.disk == j.cache.disk && |c.bufs| == |j.cache.bufs|
  }

  ghost function Apply(g: Geometry, j: Joint, st: Step): Joint
    requires Enabled(g, j, st)
  {
    match st
    case Buffer(a) => j.(cache := C.Apply(j.cache, a))
    case Logged(pid, i) =>
      Joint(P.Apply(g, j.log, P.LogWrite(pid, j.cache.bufs[i].blockno, j.cache.bufs[i].data)), C.Apply(j.cache, C.Pin(i)))
    case Written(i) => Joint(P.Apply(g, j.log, P.DiskWrite), C.Apply(j.cache, C.Flush(i)))
    case Locked(a) => j.(log := P.Apply(g, j.log, a))
    case Crashed(c) => Joint(P.Apply(g, j.log, P.Crash), c)
  }

  // ---------- What keeps the two together ----------

  /** A buffer is dirty exactly when its block is pinned. */
  ghost predicate Pins(c: C.Cache, dirty: map<nat, Block>) {
    && (forall i :: 0 <= i < |c.bufs| && c.bufs[i].dirty ==> c.bufs[i].blockno in dirty)
    && (forall b {:trigger b in dirty} :: b in dirty ==> Pinned(c, b))
  }

  predicate Pinned(c: C.Cache, b: nat) {
    exists i :: 0 <= i < |c.bufs| && C.Holds(c.bufs[i], b) && c.bufs[i].dirty
  }

  /** The protocol's disk is the cache's, and what bread delivers in the one is what it delivers in the other. */
  ghost predicate Agrees(g: Geometry, j: Joint) {
    && P.Inv(g, j.log) && C.Inv(j.cache) && j.cache.disk == j.log.disk
    && j.cache.flat == P.Overlay(j.log.disk, j.log.dirty) && Pins(j.cache, j.log.dirty)
  }

  lemma BufferAgrees(g: Geometry, j: Joint, a: C.Action)
    requires Agrees(g, j) && Enabled(g, j, Buffer(a))
    ensures Agrees(g, Apply(g, j, Buffer(a)))
  {
    C.InvStep(j.cache, a);
    PinsKept(j.cache, a, j.log.dirty);
  }

  lemma PinsKept(c: C.Cache, a: C.Action, dirty: map<nat, Block>)
    requires Pins(c, dirty) && C.Enabled(c, a) && !a.Pin? && !a.Flush?
    ensures Pins(C.Apply(c, a), dirty)
  {
    var c' := C.Apply(c, a);
    forall b | b in dirty
      ensures Pinned(c', b)
    {
      assert Pinned(c, b);
      var i :| 0 <= i < |c.bufs| && C.Holds(c.bufs[i], b) && c.bufs[i].dirty;
      assert C.Holds(c'.bufs[i], b) && c'.bufs[i].dirty;
    }
  }

  lemma LoggedAgrees(g: Geometry, j: Joint, pid: nat, i: nat)
    requires Agrees(g, j) && Enabled(g, j, Logged(pid, i))
    ensures Agrees(g, Apply(g, j, Logged(pid, i)))
  {
    var b, data := j.cache.bufs[i].blockno, j.cache.bufs[i].data;
    var j' := Apply(g, j, Logged(pid, i));
    P.InvStep(g, j.log, P.LogWrite(pid, b, data));
    C.InvStep(j.cache, C.Pin(i));
    OverlayPut(j.log.disk, j.log.dirty, b, data);
    PinsMore(j.cache, j.log.dirty, i, data);
  }

  lemma OverlayPut(d: Disk, dirty: map<nat, Block>, b: nat, data: Block)
    requires b < |d|
    ensures P.Overlay(d, dirty[b := data]) == P.Overlay(d, dirty)[b := data]
  {
  }

  lemma PinsMore(c: C.Cache, dirty: map<nat, Block>, i: nat, data: Block)
    requires Pins(c, dirty) && i < |c.bufs| && C.Enabled(c, C.Pin(i)) && c.bufs[i].dev == C.DISK_DEV
    ensures Pins(C.Apply(c, C.Pin(i)), dirty[c.bufs[i].blockno := data])
  {
    var c', dirty' := C.Apply(c, C.Pin(i)), dirty[c.bufs[i].blockno := data];
    forall b | b in dirty'
      ensures Pinned(c', b)
    {
      if b == c.bufs[i].blockno {
        assert C.Holds(c'.bufs[i], b) && c'.bufs[i].dirty;
      } else {
        assert Pinned(c, b);
        var k :| 0 <= k < |c.bufs| && C.Holds(c.bufs[k], b) && c.bufs[k].dirty;
        assert C.Holds(c'.bufs[k], b) && c'.bufs[k].dirty;
      }
    }
  }

  lemma TargetApart(g: Geometry, s: P.State)
    requires P.Inv(g, s) && P.Enabled(g, s, P.DiskWrite)
    ensures Target(g, s) < |s.disk|
    ensures (s.phase.Installing? && s.phase.tail < |s.lh|) || Target(g, s) !in s.dirty
  {
    if s.phase.WritingLog? || s.phase.tail == |s.lh| {
      assert InLog(g, Target(g, s));
    }
  }

  lemma NotThere(dirty: map<nat, Block>, b: nat)
    requires b !in dirty
    ensures dirty - {b} == dirty
  {
  }

  /** What the protocol writes is the one block, which is pinned no more. */
  lemma WriteIs(g: Geometry, s: P.State)
    requires P.Inv(g, s) && P.Enabled(g, s, P.DiskWrite)
    ensures var s' := P.Apply(g, s, P.DiskWrite);
      && Target(g, s) < |s.disk| && s'.disk == s.disk[Target(g, s) := Payload(g, s)]
      && s'.dirty == s.dirty - {Target(g, s)}
  {
    TargetApart(g, s);
    if Target(g, s) !in s.dirty {
      NotThere(s.dirty, Target(g, s));
    }
  }

  lemma OverlayWrite(d: Disk, dirty: map<nat, Block>, b: nat, data: Block)
    requires b < |d|
    ensures P.Overlay(d[b := data], dirty - {b}) == P.Overlay(d, dirty)[b := data]
  {
  }

  lemma PinsLess(c: C.Cache, dirty: map<nat, Block>, i: nat)
    requires C.Inv(c) && Pins(c, dirty) && i < |c.bufs| && C.Enabled(c, C.Flush(i)) && c.bufs[i].dev == C.DISK_DEV
    ensures Pins(C.Apply(c, C.Flush(i)), dirty - {c.bufs[i].blockno})
  {
    var c', dirty' := C.Apply(c, C.Flush(i)), dirty - {c.bufs[i].blockno};
    forall k | 0 <= k < |c'.bufs| && c'.bufs[k].dirty
      ensures c'.bufs[k].blockno in dirty'
    {
      assert C.Unique(c, i, k) && C.BufOk(c, k);
    }
    forall b | b in dirty'
      ensures Pinned(c', b)
    {
      assert Pinned(c, b);
      var k :| 0 <= k < |c.bufs| && C.Holds(c.bufs[k], b) && c.bufs[k].dirty;
      assert C.Holds(c'.bufs[k], b) && c'.bufs[k].dirty;
    }
  }

  lemma WrittenAgrees(g: Geometry, j: Joint, i: nat)
    requires Agrees(g, j) && Enabled(g, j, Written(i))
    ensures Agrees(g, Apply(g, j, Written(i)))
  {
    WriteIs(g, j.log);
    P.InvStep(g, j.log, P.DiskWrite);
    C.InvStep(j.cache, C.Flush(i));
    OverlayWrite(j.log.disk, j.log.dirty, Target(g, j.log), Payload(g, j.log));
    PinsLess(j.cache, j.log.dirty, i);
  }

  lemma CrashedAgrees(g: Geometry, j: Joint, c: C.Cache)
    requires Agrees(g, j) && Enabled(g, j, Crashed(c))
    ensures Agrees(g, Apply(g, j, Crashed(c)))
  {
    P.InvStep(g, j.log, P.Crash);
    assert P.Overlay(j.log.disk, map[]) == j.log.disk;
  }

  lemma AgreesStep(g: Geometry, j: Joint, st: Step)
    requires Agrees(g, j) && Enabled(g, j, st)
    ensures Agrees(g, Apply(g, j, st))
  {
    match st
    case Buffer(a) => BufferAgrees(g, j, a);
    case Logged(pid, i) => LoggedAgrees(g, j, pid, i);
    case Written(i) => WrittenAgrees(g, j, i);
    case Locked(a) => P.InvStep(g, j.log, a);
    case Crashed(c) => CrashedAgrees(g, j, c);
  }

  // ---------- Whole runs ----------

  ghost predicate Boot(g: Geometry, j: Joint) {
    && ValidLog(g, j.cache.disk) && NoDup(HeaderList(j.cache.disk[g.start]))
    && j.log == P.Boot(g, j.cache.disk, 0) && C.Boot(j.cache)
  }

  ghost predicate StepAt(g: Geometry, js: seq<Joint>, sts: seq<Step>, i: nat)
    requires i < |sts| < |js|
  {
    Enabled(g, js[i], sts[i]) && js[i + 1] == Apply(g, js[i], sts[i])
  }

  ghost predicate Run(g: Geometry, js: seq<Joint>, sts: seq<Step>) {
    && |js| == |sts| + 1 && Boot(g, js[0])
    && forall i {:trigger StepAt(g, js, sts, i)} :: 0 <= i < |sts| ==> StepAt(g, js, sts, i)
  }

  lemma BootAgrees(g: Geometry, j: Joint)
    requires Boot(g, j)
    ensures Agrees(g, j)
  {
    var ss, none := [j.log], [];
    assert P.Run(g, ss, none);
    P.RunSafe(g, ss, none, 0);
    assert P.Overlay(j.log.disk, map[]) == j.log.disk;
  }

  lemma AgreesNext(g: Geometry, j: Joint, st: Step, j': Joint)
    requires Known(Agrees(g, j)) && Known(Enabled(g, j, st)) && j' == Apply(g, j, st)
    ensures Known(Agrees(g, j')) && |j'.cache.bufs| == |j.cache.bufs|
  {
    AgreesStep(g, j, st);
  }

  /** In every run of log and cache together the cache holds what the protocol says. */
  lemma {:induction false} RunAgrees(g: Geometry, js: seq<Joint>, sts: seq<Step>, k: nat)
    requires Run(g, js, sts) && k < |js|
    ensures Known(Agrees(g, js[k])) && |js[k].cache.bufs| == |js[0].cache.bufs|
  {
    if k == 0 {
      BootAgrees(g, js[0]);
    } else {
      var i := k - 1;
      RunAgrees(g, js, sts, i);
      var j, st, j' := js[i], sts[i], js[k];
      assert Enabled(g, j, st) && j' == Apply(g, j, st) by {
        assert StepAt(g, js, sts, i);
      }
      AgreesNext(g, j, st, j');
    }
  }

  ghost predicate Reachable(g: Geometry, n: nat, j: Joint) {
    exists js: seq<Joint>, sts: seq<Step> :: Run(g, js, sts) && js[|sts|] == j && |js[0].cache.bufs| == n
  }

  lemma ReachableAgrees(g: Geometry, n: nat, j: Joint)
    requires Reachable(g, n, j)
    ensures Agrees(g, j) && |j.cache.bufs| == n
  {
    var js: seq<Joint>, sts: seq<Step> :| Run(g, js, sts) && js[|sts|] == j && |js[0].cache.bufs| == n;
    RunAgrees(g, js, sts, |sts|);
  }

  lemma ReachStep(g: Geometry, n: nat, j: Joint, st: Step)
    requires Reachable(g, n, j) && Enabled(g, j, st)
    ensures Reachable(g, n, Apply(g, j, st))
  {
    var js: seq<Joint>, sts: seq<Step> :| Run(g, js, sts) && js[|sts|] == j && |js[0].cache.bufs| == n;
    var js', sts' := js + [Apply(g, j, st)], sts + [st];
    forall i | 0 <= i < |sts'|
      ensures StepAt(g, js', sts', i)
    {
      if i < |sts| {
        assert StepAt(g, js, sts, i);
      }
    }
    assert Run(g, js', sts') && js'[|sts'|] == Apply(g, j, st);
  }

  // ---------- When bread finds no buffer ----------

  ghost function Dirty(c: C.Cache): set<nat> {
    set i: nat | i < |c.bufs| && c.bufs[i].dirty
  }

  /** The buffers that are held and not pinned. */
  ghost function Held(c: C.Cache): set<nat> {
    set i: nat | i < |c.bufs| && c.bufs[i].busy && !c.bufs[i].dirty
  }

  ghost function BlocksIn(c: C.Cache, S: set<nat>): set<nat> {
    set i | i in S && i < |c.bufs| :: c.bufs[i].blockno
  }

  lemma {:induction false} BlocksInSize(c: C.Cache, S: set<nat>)
    requires C.Inv(c) && S <= Dirty(c)
    ensures |BlocksIn(c, S)| == |S|
    decreases |S|
  {
    if S == {} {
      assert BlocksIn(c, S) == {};
    } else {
      var i :| i in S;
      var R := S - {i};
      BlocksInSize(c, R);
      BlockIsNew(c, R, i);
      assert BlocksIn(c, S) == BlocksIn(c, R) + {c.bufs[i].blockno};
    }
  }

  lemma BlockIsNew(c: C.Cache, S: set<nat>, i: nat)
    requires C.Inv(c) && S <= Dirty(c) && i in Dirty(c) && i !in S
    ensures c.bufs[i].blockno !in BlocksIn(c, S)
  {
    forall k | k in S
      ensures c.bufs[k].blockno != c.bufs[i].blockno
    {
      assert C.BufOk(c, i) && C.BufOk(c, k) && C.Unique(c, i, k);
    }
  }

  /** There are as many dirty buffers as pinned blocks. */
  lemma DirtyCount(g: Geometry, j: Joint)
    requires Agrees(g, j)
    ensures |Dirty(j.cache)| == |j.log.dirty.Keys|
  {
    var c := j.cache;
    forall b
      ensures b in BlocksIn(c, Dirty(c)) <==> b in j.log.dirty.Keys
    {
      if b in j.log.dirty {
        assert Pinned(c, b);
        var i :| 0 <= i < |c.bufs| && C.Holds(c.bufs[i], b) && c.bufs[i].dirty;
        assert i in Dirty(c);
      }
    }
    assert BlocksIn(c, Dirty(c)) == j.log.dirty.Keys;
    BlocksInSize(c, Dirty(c));
  }

  function Below(n: nat): (r: set<nat>)
    ensures |r| == n && forall i: nat :: i in r <==> i < n
  {
    if n == 0 then {} else Below(n - 1) + {n - 1}
  }

  lemma {:induction false} SameSize(a: set<nat>, b: set<nat>)
    requires a <= b && |a| == |b|
    ensures a == b
  {
    if x :| x in b && x !in a {
      SubsetSize(a + {x}, b);
    }
  }

  lemma AllInUse(c: C.Cache)
    ensures |Dirty(c)| + |Held(c)| <= |c.bufs|
    ensures |Dirty(c)| + |Held(c)| == |c.bufs| <==> forall i :: 0 <= i < |c.bufs| ==> c.bufs[i].busy || c.bufs[i].dirty
  {
    var all := Below(|c.bufs|);
    assert Dirty(c) !! Held(c);
    var used := Dirty(c) + Held(c);
    assert used <= all;
    SubsetSize(used, all);
    if |used| == |all| {
      SameSize(used, all);
      forall i | 0 <= i < |c.bufs|
        ensures c.bufs[i].busy || c.bufs[i].dirty
      {
        assert i in all;
      }
    } else {
      assert used != all;
      var i :| i in all && i !in used;
      assert !(c.bufs[i].busy || c.bufs[i].dirty);
    }
  }

  /** bread of a block that nobody holds panics exactly if the block is not pinned and the pinned blocks and the other
      buffers held are all there are. */
  lemma NoBuffersIff(g: Geometry, j: Joint, k: nat)
    requires Agrees(g, j) && forall i :: i in Held(j.cache) ==> !C.Holds(j.cache.bufs[i], k)
    ensures C.Exhausted(j.cache, k) <==>
      k !in j.log.dirty && |j.log.dirty.Keys| + |Held(j.cache)| == |j.cache.bufs|
  {
    var c := j.cache;
    DirtyCount(g, j);
    AllInUse(c);
    if k in j.log.dirty {
      assert Pinned(c, k);
    } else if |j.log.dirty.Keys| + |Held(c)| == |c.bufs| {
      forall i | 0 <= i < |c.bufs|
        ensures !C.Holds(c.bufs[i], k)
      {
        assert c.bufs[i].dirty || i in Held(c);
      }
    }
  }

  /** So with fewer blocks in the transaction and buffers held than there are buffers, bread never panics, and
      commit finds the buffers it needs. */
  lemma BuffersSuffice(g: Geometry, j: Joint, k: nat)
    requires Agrees(g, j) && |j.log.lh| + |Held(j.cache)| < |j.cache.bufs|
    ensures !C.Exhausted(j.cache, k)
  {
    DirtyCount(g, j);
    AllInUse(j.cache);
    P.PinnedAtMost(g, j.log);
  }

  /** A log of at most LOGSIZE blocks, as mkfs makes it, leaves a buffer over when nobody else holds one. */
  lemma SmallLogSuffices(g: Geometry, j: Joint, k: nat)
    requires Reachable(g, NBUF, j) && Held(j.cache) == {} && g.size <= LOGSIZE
    ensures !C.Exhausted(j.cache, k)
  {
    ReachableAgrees(g, NBUF, j);
    BuffersSuffice(g, j, k);
  }

  lemma PinnedFound(g: Geometry, j: Joint, k: nat)
    requires Agrees(g, j) && k in j.log.dirty
    ensures !C.Exhausted(j.cache, k)
  {
    assert Pinned(j.cache, k);
  }

  /** Exactly when the breads of write_log panic: the log block's if the transaction and the buffers held by others
      are all there are, the cached block's never. */
  lemma WriteLogFindsIff(g: Geometry, j: Joint, t: nat)
    requires Agrees(g, j) && j.log.phase == P.WritingLog(t) && t < |j.log.lh|
    requires forall i :: i in Held(j.cache) ==> !C.Holds(j.cache.bufs[i], g.start + 1 + t)
    ensures C.Exhausted(j.cache, g.start + 1 + t) <==> |j.log.lh| + |Held(j.cache)| == |j.cache.bufs|
    ensures !C.Exhausted(j.cache, j.log.lh[t])
  {
    assert |j.log.dirty.Keys| == |j.log.lh| && g.start + 1 + t !in j.log.dirty && j.log.lh[t] in j.log.dirty by {
      P.PinnedAtMost(g, j.log);
      P.LogAreaClean(g, j.log, g.start + 1 + t);
      assert j.log.lh[t] in j.log.lh;
    }
    var k := g.start + 1 + t;
    NoBuffersIff(g, j, k);
    PinnedFound(g, j, j.log.lh[t]);
  }

  // ---------- A commit that finds none ----------

  /** What the five steps of reading a block, changing it, passing it to log_write and releasing it leave. */
  lemma PinOne(c: C.Cache, b: nat, k: nat, data: Block)
    returns (c1: C.Cache, c2: C.Cache, c3: C.Cache, c4: C.Cache, c5: C.Cache)
    requires C.Inv(c) && C.Enabled(c, C.Recycle(b, k))
    ensures c1 == C.Apply(c, C.Recycle(b, k))
    ensures C.Enabled(c1, C.Fill(b)) && c2 == C.Apply(c1, C.Fill(b))
    ensures C.Enabled(c2, C.Store(b, data)) && c3 == C.Apply(c2, C.Store(b, data))
    ensures C.Enabled(c3, C.Pin(b)) && c4 == C.Apply(c3, C.Pin(b)) && C.Holds(c3.bufs[b], k) && c3.bufs[b].data == data
    ensures C.Enabled(c4, C.Release(b)) && c5 == C.Apply(c4, C.Release(b))
    ensures c5.bufs == c.bufs[b := C.Buf(false, true, true, C.DISK_DEV, k, data)] && c5.disk == c.disk
  {
    c1 := C.Apply(c, C.Recycle(b, k));
    c2 := C.Apply(c1, C.Fill(b));
    c3 := C.Apply(c2, C.Store(b, data));
    c4 := C.Apply(c3, C.Pin(b));
    c5 := C.Apply(c4, C.Release(b));
  }

  /** The same with bwrite. */
  lemma FlushOne(c: C.Cache, b: nat, k: nat, data: Block)
    returns (c1: C.Cache, c2: C.Cache, c3: C.Cache, c4: C.Cache, c5: C.Cache)
    requires C.Inv(c) && C.Enabled(c, C.Recycle(b, k))
    ensures c1 == C.Apply(c, C.Recycle(b, k))
    ensures C.Enabled(c1, C.Fill(b)) && c2 == C.Apply(c1, C.Fill(b))
    ensures C.Enabled(c2, C.Store(b, data)) && c3 == C.Apply(c2, C.Store(b, data))
    ensures C.Enabled(c3, C.Flush(b)) && c4 == C.Apply(c3, C.Flush(b)) && C.Holds(c3.bufs[b], k) && c3.bufs[b].data == data
    ensures C.Enabled(c4, C.Release(b)) && c5 == C.Apply(c4, C.Release(b))
    ensures c5.bufs == c.bufs[b := C.Buf(false, true, false, C.DISK_DEV, k, data)] && c5.disk == c.disk[k := data]
  {
    c1 := C.Apply(c, C.Recycle(b, k));
    c2 := C.Apply(c1, C.Fill(b));
    c3 := C.Apply(c2, C.Store(b, data));
    c4 := C.Apply(c3, C.Flush(b));
    c5 := C.Apply(c4, C.Release(b));
  }

  lemma JointPinOne(g: Geometry, n: nat, j: Joint, pid: nat, b: nat, k: nat, data: Block) returns (j': Joint)
    requires Reachable(g, n, j) && C.Enabled(j.cache, C.Recycle(b, k)) && P.Enabled(g, j.log, P.LogWrite(pid, k, data))
    ensures Reachable(g, n, j') && j'.log == P.Apply(g, j.log, P.LogWrite(pid, k, data))
    ensures j'.cache.bufs == j.cache.bufs[b := C.Buf(false, true, true, C.DISK_DEV, k, data)]
  {
    ReachableAgrees(g, n, j);
    var c1, c2, c3, c4, c5 := PinOne(j.cache, b, k, data);
    var s' := P.Apply(g, j.log, P.LogWrite(pid, k, data));
    ReachStep(g, n, j, Buffer(C.Recycle(b, k)));
    ReachStep(g, n, Joint(j.log, c1), Buffer(C.Fill(b)));
    ReachStep(g, n, Joint(j.log, c2), Buffer(C.Store(b, data)));
    ReachStep(g, n, Joint(j.log, c3), Logged(pid, b));
    ReachStep(g, n, Joint(s', c4), Buffer(C.Release(b)));
    j' := Joint(s', c5);
  }

  lemma JointWriteOne(g: Geometry, n: nat, j: Joint, b: nat) returns (j': Joint)
    requires Reachable(g, n, j) && P.Enabled(g, j.log, P.DiskWrite) && C.Enabled(j.cache, C.Recycle(b, Target(g, j.log)))
    ensures Reachable(g, n, j') && j'.log == P.Apply(g, j.log, P.DiskWrite)
    ensures j'.cache.bufs == j.cache.bufs[b := C.Buf(false, true, false, C.DISK_DEV, Target(g, j.log), Payload(g, j.log))]
  {
    var k, data := Target(g, j.log), Payload(g, j.log);
    ReachableAgrees(g, n, j);
    var c1, c2, c3, c4, c5 := FlushOne(j.cache, b, k, data);
    var s' := P.Apply(g, j.log, P.DiskWrite);
    ReachStep(g, n, j, Buffer(C.Recycle(b, k)));
    ReachStep(g, n, Joint(j.log, c1), Buffer(C.Fill(b)));
    ReachStep(g, n, Joint(j.log, c2), Buffer(C.Store(b, data)));
    ReachStep(g, n, Joint(j.log, c3), Written(b));
    ReachStep(g, n, Joint(s', c4), Buffer(C.Release(b)));
    j' := Joint(s', c5);
  }

  /** The buffer that the i-th block goes to: the least recently released comes first, and the header took one. */
  function Place(i: nat): nat {
    (i + 1) % NBUF
  }

  /** The first n of hs are pinned; the other buffers are clean, and hold no more than the log's header. */
  ghost predicate Loaded(g: Geometry, c: C.Cache, hs: seq<nat>, n: nat) {
    && |c.bufs| == NBUF && n <= NBUF && n <= |hs|
    && (forall i :: 0 <= i < n ==> IsPinned(c, hs, i))
    && (forall i :: n <= i < NBUF ==> IsClean(g, c, i))
  }

  predicate IsPinned(c: C.Cache, hs: seq<nat>, i: nat) {
    && i < |hs| && Place(i) < |c.bufs|
    && var b := c.bufs[Place(i)]; C.Holds(b, hs[i]) && b.dirty && !b.busy
  }

  predicate IsClean(g: Geometry, c: C.Cache, i: nat) {
    && Place(i) < |c.bufs|
    && var b := c.bufs[Place(i)]; !b.dirty && !b.busy && (b.dev == C.DISK_DEV ==> b.blockno == g.start)
  }

  lemma PlaceOnto(k: nat) returns (i: nat)
    requires k < NBUF
    ensures i < NBUF && Place(i) == k
  {
    i := if k == 0 then NBUF - 1 else k - 1;
  }

  /** Three operations in progress that have logged n blocks, MAXOPBLOCKS each. */
  function Three(n: nat): map<nat, P.Op> {
    map[0 := P.Op(Share(n, 0), 0), 1 := P.Op(Share(n, 1), 0), 2 := P.Op(Share(n, 2), 0)]
  }

  function Share(n: nat, i: nat): nat {
    if n <= 10 * i then 0 else if n >= 10 * i + 10 then 10 else n - 10 * i
  }

  lemma ThreeOn(n: nat)
    requires n < LOGSIZE
    ensures var o, pid := Three(n), n / 10; pid in o && o[pid := o[pid].(spent := o[pid].spent + 1)] == Three(n + 1)
  {
  }

  lemma NextPlace(g: Geometry, d: Disk, c: C.Cache, hs: seq<nat>, n: nat)
    requires R.Stocked(g, d, hs) && Loaded(g, c, hs, n) && n < NBUF && |c.disk| == |d|
    ensures C.Enabled(c, C.Recycle(Place(n), hs[n]))
  {
    assert IsClean(g, c, n) && Home(g, d, hs[n]);
    forall k | 0 <= k < |c.bufs|
      ensures !C.Holds(c.bufs[k], hs[n])
    {
      var i := PlaceOnto(k);
      if i < n {
        assert IsPinned(c, hs, i) && hs[i] != hs[n];
      } else {
        assert IsClean(g, c, i);
      }
    }
  }

  lemma LoadedOn(g: Geometry, c: C.Cache, c': C.Cache, hs: seq<nat>, n: nat, data: Block)
    requires Loaded(g, c, hs, n) && n < NBUF && n < |hs|
    requires c'.bufs == c.bufs[Place(n) := C.Buf(false, true, true, C.DISK_DEV, hs[n], data)]
    ensures Loaded(g, c', hs, n + 1)
  {
    forall i | 0 <= i < n + 1
      ensures IsPinned(c', hs, i)
    {
      assert i < n ==> IsPinned(c, hs, i) && Place(i) != Place(n);
    }
    forall i | n + 1 <= i < NBUF
      ensures IsClean(g, c', i)
    {
      assert IsClean(g, c, i) && Place(i) != Place(n);
    }
  }

  ghost predicate Filling(g: Geometry, d: Disk, hs: seq<nat>, n: nat, j: Joint) {
    && R.Stocked(g, d, hs) && n <= NBUF && Reachable(g, NBUF, j)
    && j.log == R.Filled(g, d, hs, n, Three(n)) && Loaded(g, j.cache, hs, n)
  }

  lemma FillingOn(g: Geometry, d: Disk, hs: seq<nat>, n: nat, j: Joint) returns (j': Joint)
    requires Filling(g, d, hs, n, j) && n < NBUF && g.size > LOGSIZE
    ensures Filling(g, d, hs, n + 1, j')
  {
    var pid, b, ops, ops' := n / 10, Place(n), Three(n), Three(n + 1);
    ThreeOn(n);
    ReachableAgrees(g, NBUF, j);
    NextPlace(g, d, j.cache, hs, n);
    j' := FillJoint(g, d, hs, n, j, ops, pid, ops', b);
    LoadedOn(g, j.cache, j'.cache, hs, n, ZeroBlock());
  }

  lemma FillJoint(g: Geometry, d: Disk, hs: seq<nat>, n: nat, j: Joint, ops: map<nat, P.Op>, pid: nat, ops': map<nat, P.Op>,
                  b: nat)
    returns (j': Joint)
    requires R.Stocked(g, d, hs) && n < |hs| && n < Capacity(g.size) && pid in ops
    requires ops' == ops[pid := ops[pid].(spent := ops[pid].spent + 1)]
    requires Reachable(g, NBUF, j) && j.log == R.Filled(g, d, hs, n, ops) && b < |j.cache.bufs|
    requires C.Enabled(j.cache, C.Recycle(b, hs[n]))
    ensures Reachable(g, NBUF, j') && j'.log == R.Filled(g, d, hs, n + 1, ops')
    ensures j'.cache.bufs == j.cache.bufs[b := C.Buf(false, true, true, C.DISK_DEV, hs[n], ZeroBlock())]
  {
    var k, data := hs[n], ZeroBlock();
    R.FillOne(g, d, hs, n, ops, pid);
    j' := JointPinOne(g, NBUF, j, pid, b, k, data);
  }

  lemma Begins(g: Geometry, d: Disk, hs: seq<nat>, j: Joint, pid: nat, ops: map<nat, P.Op>) returns (j': Joint)
    requires R.Stocked(g, d, hs) && Reachable(g, NBUF, j) && j.log == R.Filled(g, d, hs, 0, ops) && pid !in ops && |ops| <= 2
    ensures Reachable(g, NBUF, j') && j'.cache == j.cache && j'.log == R.Filled(g, d, hs, 0, ops[pid := P.Op(0, 0)])
  {
    ReachStep(g, NBUF, j, Locked(P.Begin(pid)));
    j' := Apply(g, j, Locked(P.Begin(pid)));
    assert ops[pid := P.Op(0, 0)].Keys == ops.Keys + {pid};
  }

  lemma BootJoint(g: Geometry, d: Disk, hs: seq<nat>, c: C.Cache) returns (j: Joint)
    requires R.Stocked(g, d, hs) && C.Boot(c) && c.disk == d && |c.bufs| == NBUF
    ensures Reachable(g, NBUF, j) && j.log == P.Boot(g, d, 0) && j.cache == c
  {
    j := Joint(P.Boot(g, d, 0), c);
    assert HeaderList(d[g.start]) == [];
    var js, none: seq<Step> := [j], [];
    assert Run(g, js, none) && js[|none|] == j;
  }

  /** Recovery of an empty log writes the header once, through the first buffer. */
  lemma Recovers(g: Geometry, d: Disk, hs: seq<nat>, c: C.Cache) returns (j: Joint)
    requires R.Stocked(g, d, hs) && C.Boot(c) && c.disk == d && |c.bufs| == NBUF
    ensures Reachable(g, NBUF, j) && j.log == P.Apply(g, P.Boot(g, d, 0), P.DiskWrite) && Loaded(g, j.cache, hs, 0)
  {
    var j0 := BootJoint(g, d, hs, c);
    assert j0.log.lh == [];
    j := JointWriteOne(g, NBUF, j0, 0);
    forall i | 0 <= i < NBUF
      ensures IsClean(g, j.cache, i)
    {
    }
  }

  lemma StartFilling(g: Geometry, d: Disk, hs: seq<nat>, c: C.Cache) returns (j: Joint)
    requires R.Stocked(g, d, hs) && C.Boot(c) && c.disk == d && |c.bufs| == NBUF
    ensures Filling(g, d, hs, 0, j)
  {
    var j0 := Recovers(g, d, hs, c);
    assert j0.log == R.Filled(g, d, hs, 0, map[]);
    var j1 := Begins(g, d, hs, j0, 0, map[]);
    var j2 := Begins(g, d, hs, j1, 1, map[0 := P.Op(0, 0)]);
    j := Begins(g, d, hs, j2, 2, map[0 := P.Op(0, 0), 1 := P.Op(0, 0)]);
    assert Three(0) == map[0 := P.Op(0, 0), 1 := P.Op(0, 0), 2 := P.Op(0, 0)];
  }

  lemma {:induction false} FillsUp(g: Geometry, d: Disk, hs: seq<nat>, c: C.Cache, n: nat) returns (j: Joint)
    requires R.Stocked(g, d, hs) && C.Boot(c) && c.disk == d && |c.bufs| == NBUF && n <= NBUF && g.size > LOGSIZE
    ensures Filling(g, d, hs, n, j)
    decreases n
  {
    if n == 0 {
      j := StartFilling(g, d, hs, c);
    } else {
      var j0 := FillsUp(g, d, hs, c, n - 1);
      j := FillingOn(g, d, hs, n - 1, j0);
    }
  }

  lemma Ends(g: Geometry, n: nat, j: Joint, pid: nat) returns (j': Joint)
    requires Reachable(g, n, j) && pid in j.log.ops && j.log.outstanding > 0 && !j.log.committing && j.log.lh != []
    ensures Reachable(g, n, j') && j'.cache == j.cache && j'.log.lh == j.log.lh
    ensures forall p :: p in j'.log.ops <==> p in j.log.ops && p != pid
    ensures j'.log.outstanding == j.log.outstanding - 1 && (j'.log.committing <==> j.log.outstanding == 1)
    ensures j'.log.committing ==> j'.log.phase == P.WritingLog(0)
  {
    ReachableAgrees(g, n, j);
    ReachStep(g, n, j, Locked(P.End(pid)));
    j' := Apply(g, j, Locked(P.End(pid)));
  }

  lemma AllEnd(g: Geometry, d: Disk, hs: seq<nat>, j: Joint) returns (j': Joint)
    requires Filling(g, d, hs, NBUF, j)
    ensures Reachable(g, NBUF, j') && j'.cache == j.cache
    ensures j'.log.committing && j'.log.phase == P.WritingLog(0) && |j'.log.lh| == NBUF
  {
    assert 0 in j.log.ops && 1 in j.log.ops && 2 in j.log.ops && |j.log.lh| == NBUF && j.log.outstanding == 3 by {
      assert j.log.ops == Three(NBUF);
      assert Three(NBUF).Keys == {0, 1, 2};
    }
    var j1 := Ends(g, NBUF, j, 0);
    var j2 := Ends(g, NBUF, j1, 1);
    j' := Ends(g, NBUF, j2, 2);
  }

  lemma AllPinned(g: Geometry, d: Disk, hs: seq<nat>, c: C.Cache, k: nat)
    requires R.Stocked(g, d, hs) && Loaded(g, c, hs, NBUF) && InLog(g, k)
    ensures C.Exhausted(c, k)
  {
    forall i | 0 <= i < |c.bufs|
      ensures !C.Holds(c.bufs[i], k) && c.bufs[i].dirty
    {
      var at := PlaceOnto(i);
      assert IsPinned(c, hs, at) && Home(g, d, hs[at]);
    }
  }

  /** NBUF is LOGSIZE, so a transaction that fills a log of more than LOGSIZE blocks pins every buffer: from every
      disk with an empty log three operations, each within its reservation, lead to a commit whose first bread
      panics. */
  lemma CommitFindsNone(g: Geometry, d: Disk, hs: seq<nat>, c: C.Cache) returns (j: Joint)
    requires R.Stocked(g, d, hs) && C.Boot(c) && c.disk == d && |c.bufs| == NBUF && g.size > LOGSIZE
    ensures Reachable(g, NBUF, j) && j.log.committing && j.log.phase == P.WritingLog(0) && |j.log.lh| == NBUF
    ensures C.Exhausted(j.cache, g.start + 1)
  {
    var j0 := FillsUp(g, d, hs, c, NBUF);
    AllPinned(g, d, hs, j0.cache, g.start + 1);
    j := AllEnd(g, d, hs, j0);
  }
}
