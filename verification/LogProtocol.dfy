/** begin_op / log_write / end_op / commit over every interleaving of any number of processes,
    with crashes, and its refinement to a disk that commits whole operations atomically. */
module LogProtocol {
  import opened Common
  import opened BlockWords
  import opened Log

  // ---------- Concrete state ----------

  /** Where the committing (or recovering) process stands: the next single-block write it makes. */
  datatype Phase = Running | WritingLog(tail: nat) | Installing(tail: nat)

  /** An operation between begin_op and end_op.  `spent` counts the blocks it has newly logged;
      `txn` records the transaction in which it began. */
  datatype Op = Op(spent: nat, txn: nat)

  /** `dirty` holds the buffers pinned by B_DIRTY; every other cached block equals the disk's.
      `lh` is log.lh.block[0..n).  `ops` and `txn` are bookkeeping for the statements only. */
  datatype State = State(disk: Disk, dirty: map<nat, Block>, lh: seq<nat>,
                         outstanding: nat, committing: bool, recovering: bool,
                         phase: Phase, ops: map<nat, Op>, txn: nat)

  datatype Action =
    | Begin(pid: nat)
    | LogWrite(pid: nat, b: nat, data: Block)
    | End(pid: nat)
    | DiskWrite
    | Release
    | Crash

  /** The contents bread() delivers. */
  function Cached(s: State, b: nat): Block
    requires b < |s.disk|
  {
    if b in s.dirty then s.dirty[b] else s.disk[b]
  }

  /** The guard of log_write's "too big a transaction" panic. */
  predicate TooBig(g: Geometry, s: State) {
    TooMany(g.size, |s.lh|)
  }

  /** begin_op goes ahead instead of sleeping. */
  predicate MayBegin(s: State) {
    !s.committing && |s.lh| + (s.outstanding + 1) * MAXOPBLOCKS <= LOGSIZE
  }

  /** When an action can happen.  log_write asks only that the transaction is open and not too big. */
  predicate Enabled(g: Geometry, s: State, a: Action) {
    match a
    case Begin(pid) => !s.recovering && pid !in s.ops && MayBegin(s)
    case LogWrite(pid, b, _) =>
      pid in s.ops && Home(g, s.disk, b) && !TooBig(g, s) && s.outstanding >= 1
    case End(pid) => pid in s.ops && s.outstanding >= 1
    case DiskWrite =>
      && Fits(g, s.disk) && Loggable(s.lh) && |s.lh| < g.size && AllHome(g, s.disk, s.lh)
      && match s.phase {
           case Running => false
           case WritingLog(t) => t <= |s.lh|
           case Installing(t) => t <= |s.lh|
         }
    case Release => s.committing && s.phase.Running?
    case Crash => ValidLog(g, s.disk)
  }

  /** One locked section, one single-block write, or a crash followed by read_head. */
  function Apply(g: Geometry, s: State, a: Action): State
    requires Enabled(g, s, a)
  {
    match a
    case Begin(pid) => s.(outstanding := s.outstanding + 1, ops := s.ops[pid := Op(0, s.txn)])
    case LogWrite(pid, b, data) =>
      var s' := s.(dirty := s.dirty[b := data]);
      if b in s.lh then s'
      else s'.(lh := s.lh + [b], ops := s.ops[pid := s.ops[pid].(spent := s.ops[pid].spent + 1)])
    case End(pid) =>
      var s' := s.(outstanding := s.outstanding - 1, ops := s.ops - {pid});
      if s'.outstanding != 0 then s'
      else s'.(committing := true, phase := if |s.lh| > 0 then WritingLog(0) else Running)
    case DiskWrite => WriteNext(g, s)
    case Release => s.(committing := false)
    case Crash => Boot(g, s.disk, s.txn)
  }

  /** The next bwrite of write_log, write_head, install_trans, or the clearing write_head. */
  function WriteNext(g: Geometry, s: State): State
    requires Enabled(g, s, DiskWrite)
  {
    match s.phase
    case WritingLog(t) =>
      if t < |s.lh| then
        s.(disk := s.disk[g.start + 1 + t := Cached(s, s.lh[t])], phase := WritingLog(t + 1))
      else
        s.(disk := s.disk[g.start := Stamp(s.disk[g.start], s.lh)], phase := Installing(0), txn := s.txn + 1)
    case Installing(t) =>
      if t < |s.lh| then
        s.(disk := s.disk[s.lh[t] := LogBlock(g, s.disk, t)], dirty := s.dirty - {s.lh[t]},
           phase := Installing(t + 1))
      else
        s.(disk := ClearHeader(g, s.disk), lh := [], phase := Running, recovering := false)
  }

  /** A machine that has just read the header of a disk. */
  function Boot(g: Geometry, d: Disk, txn: nat): State
    requires ValidLog(g, d)
  {
    State(d, map[], HeaderList(d[g.start]), 0, false, true, Installing(0), map[], txn)
  }

  // ---------- Invariant ----------

  ghost predicate PhaseInv(g: Geometry, s: State)
    requires Fits(g, s.disk) && Loggable(s.lh) && |s.lh| < g.size && AllHome(g, s.disk, s.lh)
  {
    var h := s.disk[g.start];
    match s.phase
    case Running =>
      && HeaderCount(h) == 0
      && (forall b :: b in s.dirty <==> b in s.lh)
      && (s.committing ==> s.lh == [])
    case WritingLog(t) =>
      && s.committing && t <= |s.lh| && HeaderCount(h) == 0
      && (forall b :: b in s.dirty <==> b in s.lh)
      && (forall i :: 0 <= i < t ==> LogBlock(g, s.disk, i) == s.dirty[s.lh[i]])
    case Installing(t) =>
      && t <= |s.lh| && HeaderCount(h) == |s.lh| && HeaderList(h) == s.lh
      && (forall b :: b in s.dirty ==> b in s.lh)
      && (forall i :: 0 <= i < |s.lh| && s.lh[i] in s.dirty ==> i >= t && s.dirty[s.lh[i]] == LogBlock(g, s.disk, i))
      && (forall i :: 0 <= i < t ==> s.disk[s.lh[i]] == LogBlock(g, s.disk, i))
  }

  ghost predicate Inv(g: Geometry, s: State) {
    && Fits(g, s.disk)
    && Loggable(s.lh) && |s.lh| < g.size && AllHome(g, s.disk, s.lh) && NoDup(s.lh)
    && s.outstanding == |s.ops|
    && (s.committing || s.recovering ==> s.ops == map[])
    && (s.recovering ==> !s.committing && s.phase.Installing?)
    && (!s.phase.Running? ==> s.committing || s.recovering)
    && (forall pid :: pid in s.ops ==> s.ops[pid].txn == s.txn)
    && PhaseInv(g, s)
  }

  lemma BeginKeepsInv(g: Geometry, s: State, pid: nat)
    requires Inv(g, s) && Enabled(g, s, Begin(pid))
    ensures Inv(g, Apply(g, s, Begin(pid)))
  {
  }

  lemma LogWriteKeepsInv(g: Geometry, s: State, pid: nat, b: nat, data: Block)
    requires Inv(g, s) && Enabled(g, s, LogWrite(pid, b, data))
    ensures Inv(g, Apply(g, s, LogWrite(pid, b, data)))
  {
    if b !in s.lh {
      assert s.ops[pid := s.ops[pid].(spent := s.ops[pid].spent + 1)].Keys == s.ops.Keys;
    }
  }

  lemma EndKeepsInv(g: Geometry, s: State, pid: nat)
    requires Inv(g, s) && Enabled(g, s, End(pid))
    ensures Inv(g, Apply(g, s, End(pid)))
  {
    assert (s.ops - {pid}).Keys == s.ops.Keys - {pid};
  }

  /** One copy of write_log touches one log block only. */
  lemma CopyToLog(g: Geometry, d: Disk, lh: seq<nat>, t: nat, x: Block)
    requires Fits(g, d) && |lh| < g.size && AllHome(g, d, lh) && t < |lh|
    ensures var d' := d[g.start + 1 + t := x];
      && Fits(g, d') && d'[g.start] == d[g.start] && LogBlock(g, d', t) == x
      && (forall i :: 0 <= i < |lh| && i != t ==> LogBlock(g, d', i) == LogBlock(g, d, i))
  {
  }

  lemma WriteLogKeepsInv(g: Geometry, s: State)
    requires Inv(g, s) && Enabled(g, s, DiskWrite) && s.phase.WritingLog? && s.phase.tail < |s.lh|
    ensures Inv(g, WriteNext(g, s))
  {
    assert s.lh[s.phase.tail] in s.dirty;
    CopyToLog(g, s.disk, s.lh, s.phase.tail, s.dirty[s.lh[s.phase.tail]]);
  }

  /** Writing the header touches no log block and no home block. */
  lemma StampDisk(g: Geometry, d: Disk, lh: seq<nat>)
    requires Fits(g, d) && Loggable(lh) && |lh| < g.size && AllHome(g, d, lh)
    ensures var d' := d[g.start := Stamp(d[g.start], lh)];
      && Fits(g, d') && HeaderCount(d'[g.start]) == |lh| && HeaderList(d'[g.start]) == lh && AllHome(g, d', lh)
      && (forall i :: 0 <= i < |lh| ==> LogBlock(g, d', i) == LogBlock(g, d, i))
  {
    StampReads(d[g.start], lh);
  }

  lemma WriteHeadKeepsInv(g: Geometry, s: State)
    requires Inv(g, s) && Enabled(g, s, DiskWrite) && s.phase.WritingLog? && s.phase.tail == |s.lh|
    ensures Inv(g, WriteNext(g, s))
  {
    StampDisk(g, s.disk, s.lh);
  }

  /** One copy of install_trans touches one home block and none of the log. */
  lemma InstallOne(g: Geometry, d: Disk, lh: seq<nat>, t: nat)
    requires Fits(g, d) && |lh| < g.size && AllHome(g, d, lh) && NoDup(lh) && t < |lh|
    ensures var d' := d[lh[t] := LogBlock(g, d, t)];
      && Fits(g, d') && d'[g.start] == d[g.start]
      && (forall i :: 0 <= i < |lh| ==> LogBlock(g, d', i) == LogBlock(g, d, i))
      && (forall i :: 0 <= i < |lh| && i != t ==> d'[lh[i]] == d[lh[i]])
      && d'[lh[t]] == LogBlock(g, d, t)
  {
  }

  lemma InstallKeepsInv(g: Geometry, s: State)
    requires Inv(g, s) && Enabled(g, s, DiskWrite) && s.phase.Installing? && s.phase.tail < |s.lh|
    ensures Inv(g, WriteNext(g, s))
  {
    var t := s.phase.tail;
    InstallOne(g, s.disk, s.lh, t);
  }

  lemma ClearKeepsInv(g: Geometry, s: State)
    requires Inv(g, s) && Enabled(g, s, DiskWrite) && s.phase.Installing? && s.phase.tail == |s.lh|
    ensures Inv(g, WriteNext(g, s))
  {
    StampReads(s.disk[g.start], []);
  }

  lemma CrashKeepsInv(g: Geometry, s: State)
    requires Inv(g, s)
    ensures Enabled(g, s, Crash) && Inv(g, Apply(g, s, Crash))
  {
    if HeaderCount(s.disk[g.start]) == 0 {
      assert HeaderList(s.disk[g.start]) == [];
    }
  }

  lemma InvStep(g: Geometry, s: State, a: Action)
    requires Inv(g, s) && Enabled(g, s, a)
    ensures Inv(g, Apply(g, s, a))
  {
    match a
    case Begin(pid) => BeginKeepsInv(g, s, pid);
    case LogWrite(pid, b, data) => LogWriteKeepsInv(g, s, pid, b, data);
    case End(pid) => EndKeepsInv(g, s, pid);
    case DiskWrite =>
      if s.phase.WritingLog? {
        if s.phase.tail < |s.lh| { WriteLogKeepsInv(g, s); } else { WriteHeadKeepsInv(g, s); }
      } else if s.phase.tail < |s.lh| {
        InstallKeepsInv(g, s);
      } else {
        ClearKeepsInv(g, s);
      }
    case Release =>
    case Crash => CrashKeepsInv(g, s);
  }

  // ---------- The atomic disk that the log implements ----------

  /** `durable` survives a crash; `current` is what the file system reads; both are seen
      without the log area. */
  datatype Spec = Spec(durable: Disk, current: Disk, active: set<nat>)

  /** An operation's writes become durable only at a moment when no operation is in progress. */
  predicate SpecNext(p: Spec, a: Action, p': Spec) {
    match a
    case Begin(pid) => pid !in p.active && p' == p.(active := p.active + {pid})
    case LogWrite(pid, b, data) =>
      pid in p.active && b < |p.current| && p' == p.(current := p.current[b := data])
    case End(pid) => pid in p.active && p' == p.(active := p.active - {pid})
    case DiskWrite => p' == p || (p.active == {} && p' == p.(durable := p.current))
    case Release => p' == p
    case Crash => p' == Spec(p.durable, p.durable, {})
  }

  function Mask(g: Geometry, d: Disk): (r: Disk)
    ensures |r| == |d|
  {
    seq(|d|, i requires 0 <= i < |d| => if InLog(g, i) then ZeroBlock() else d[i])
  }

  function Overlay(d: Disk, dirty: map<nat, Block>): (r: Disk)
    ensures |r| == |d|
  {
    seq(|d|, i requires 0 <= i < |d| => if i in dirty then dirty[i] else d[i])
  }

  /** What is pending hides the disk. */
  lemma OverlayIs(d: Disk, dirty: map<nat, Block>, b: nat)
    requires b < |d|
    ensures Overlay(d, dirty)[b] == if b in dirty then dirty[b] else d[b]
  {
  }

  /** Two disks have the same contents exactly if they agree outside the log area. */
  lemma MaskIs(g: Geometry, d: Disk, d': Disk)
    ensures Mask(g, d) == Mask(g, d') <==>
      |d| == |d'| && forall b :: 0 <= b < |d| && !(g.start <= b < g.start + g.size) ==> d[b] == d'[b]
  {
    if Mask(g, d) == Mask(g, d') {
      forall b | 0 <= b < |d| && !(g.start <= b < g.start + g.size)
        ensures d[b] == d'[b]
      {
        assert Mask(g, d)[b] == d[b] && Mask(g, d')[b] == d'[b];
      }
    }
  }

  /** The home blocks as recovery would leave them. */
  function Durable(g: Geometry, d: Disk): (r: Disk)
    requires ValidLog(g, d)
    ensures |r| == |d|
  {
    Mask(g, Recovered(g, d))
  }

  /** What a state stands for: durable is what recovery would leave, current what bread() delivers. */
  function Abs(g: Geometry, s: State): Spec
    requires ValidLog(g, s.disk)
  {
    Spec(Durable(g, s.disk),
         if s.phase.Installing? then Durable(g, s.disk) else Mask(g, Overlay(s.disk, s.dirty)),
         s.ops.Keys)
  }

  /** Recovery of a disk whose header is empty leaves the home blocks alone. */
  lemma DurableWhenEmpty(g: Geometry, d: Disk)
    requires ValidLog(g, d) && HeaderCount(d[g.start]) == 0
    ensures Durable(g, d) == Mask(g, d)
  {
    assert HeaderList(d[g.start]) == [];
  }

  /** Recovery, block by block: a home block named in the header gets its log copy. */
  lemma DurableAt(g: Geometry, d: Disk, b: nat)
    requires ValidLog(g, d) && Home(g, d, b) && NoDup(HeaderList(d[g.start]))
    ensures var lh := HeaderList(d[g.start]);
      && (b !in lh ==> Durable(g, d)[b] == d[b])
      && (forall i :: 0 <= i < |lh| && lh[i] == b ==> Durable(g, d)[b] == LogBlock(g, d, i))
  {
    var lh := HeaderList(d[g.start]);
    ReplayAt(g, d, lh, b);
    assert Durable(g, d)[b] == Replay(g, d, lh)[b];
    forall i | 0 <= i < |lh| && lh[i] == b ensures Durable(g, d)[b] == LogBlock(g, d, i) {
      assert i == LastIndex(lh, b);
    }
  }

  /** The write of the header makes exactly the pending contents durable. */
  lemma CommitPoint(g: Geometry, d: Disk, lh: seq<nat>, dirty: map<nat, Block>)
    requires Fits(g, d) && Loggable(lh) && |lh| < g.size && AllHome(g, d, lh) && NoDup(lh)
    requires forall b :: b in dirty <==> b in lh
    requires forall i :: 0 <= i < |lh| ==> LogBlock(g, d, i) == dirty[lh[i]]
    ensures var d' := d[g.start := Stamp(d[g.start], lh)];
      ValidLog(g, d') && HeaderList(d'[g.start]) == lh && Durable(g, d') == Mask(g, Overlay(d, dirty))
  {
    var d' := d[g.start := Stamp(d[g.start], lh)];
    StampReads(d[g.start], lh);
    forall b | 0 <= b < |d| ensures Durable(g, d')[b] == Mask(g, Overlay(d, dirty))[b] {
      if !InLog(g, b) {
        DurableAt(g, d', b);
        if b in lh {
          var i :| 0 <= i < |lh| && lh[i] == b;
          assert LogBlock(g, d', i) == LogBlock(g, d, i);
        }
      }
    }
  }

  /** Copying from the log to a home location is invisible to recovery. */
  lemma InstallInvisible(g: Geometry, d: Disk, t: nat)
    requires ValidLog(g, d) && NoDup(HeaderList(d[g.start])) && t < HeaderCount(d[g.start])
    ensures var d' := d[HeaderList(d[g.start])[t] := LogBlock(g, d, t)];
      ValidLog(g, d') && d'[g.start] == d[g.start] && Durable(g, d') == Durable(g, d)
  {
    var lh := HeaderList(d[g.start]);
    var d' := d[lh[t] := LogBlock(g, d, t)];
    InstallOne(g, d, lh, t);
    forall b | 0 <= b < |d| ensures Durable(g, d')[b] == Durable(g, d)[b] {
      if !InLog(g, b) {
        DurableAt(g, d', b);
        DurableAt(g, d, b);
        if b in lh {
          var i :| 0 <= i < |lh| && lh[i] == b;
          assert LogBlock(g, d', i) == LogBlock(g, d, i);
        }
      }
    }
  }

  /** Clearing the header once everything is installed is invisible to recovery. */
  lemma ClearInvisible(g: Geometry, d: Disk)
    requires ValidLog(g, d) && NoDup(HeaderList(d[g.start]))
    requires var lh := HeaderList(d[g.start]);
      forall i :: 0 <= i < |lh| ==> d[lh[i]] == LogBlock(g, d, i)
    ensures ValidLog(g, ClearHeader(g, d)) && HeaderCount(ClearHeader(g, d)[g.start]) == 0
    ensures Durable(g, ClearHeader(g, d)) == Durable(g, d) == Mask(g, ClearHeader(g, d))
  {
    var d', lh := ClearHeader(g, d), HeaderList(d[g.start]);
    StampReads(d[g.start], []);
    DurableWhenEmpty(g, d');
    forall b | 0 <= b < |d| ensures Mask(g, d')[b] == Durable(g, d)[b] {
      if !InLog(g, b) {
        DurableAt(g, d, b);
        if b in lh {
          var i :| 0 <= i < |lh| && lh[i] == b;
        }
      }
    }
  }

  lemma WriteLogRefines(g: Geometry, s: State)
    requires Inv(g, s) && Enabled(g, s, DiskWrite) && s.phase.WritingLog?
    requires ValidLog(g, s.disk)
    ensures var s' := WriteNext(g, s);
      ValidLog(g, s'.disk) && SpecNext(Abs(g, s), DiskWrite, Abs(g, s'))
  {
    var s', t := WriteNext(g, s), s.phase.tail;
    if t < |s.lh| {
      assert s'.disk[g.start] == s.disk[g.start] && HeaderList(s.disk[g.start]) == [];
      DurableWhenEmpty(g, s.disk);
      DurableWhenEmpty(g, s'.disk);
      assert Mask(g, s'.disk) == Mask(g, s.disk);
      assert Mask(g, Overlay(s'.disk, s'.dirty)) == Mask(g, Overlay(s.disk, s.dirty));
    } else {
      CommitPoint(g, s.disk, s.lh, s.dirty);
    }
  }

  lemma InstallRefines(g: Geometry, s: State)
    requires Inv(g, s) && Enabled(g, s, DiskWrite) && s.phase.Installing?
    requires ValidLog(g, s.disk)
    ensures var s' := WriteNext(g, s);
      ValidLog(g, s'.disk) && SpecNext(Abs(g, s), DiskWrite, Abs(g, s'))
  {
    var s', t := WriteNext(g, s), s.phase.tail;
    if t < |s.lh| {
      InstallInvisible(g, s.disk, t);
    } else {
      ClearInvisible(g, s.disk);
      assert s'.dirty == map[];
      assert Overlay(s'.disk, s'.dirty) == s'.disk;
    }
  }

  lemma LogWriteRefines(g: Geometry, s: State, pid: nat, b: nat, data: Block)
    requires Inv(g, s) && Enabled(g, s, LogWrite(pid, b, data)) && ValidLog(g, s.disk)
    ensures var s' := Apply(g, s, LogWrite(pid, b, data));
      s'.disk == s.disk && SpecNext(Abs(g, s), LogWrite(pid, b, data), Abs(g, s'))
  {
    var s' := Apply(g, s, LogWrite(pid, b, data));
    assert s'.ops.Keys == s.ops.Keys && s'.phase == s.phase && s.phase.Running?;
    assert s'.dirty == s.dirty[b := data];
    assert Mask(g, Overlay(s.disk, s'.dirty)) == Mask(g, Overlay(s.disk, s.dirty))[b := data];
  }

  lemma BracketRefines(g: Geometry, s: State, a: Action)
    requires Inv(g, s) && Enabled(g, s, a) && (a.Begin? || a.End? || a.Release?) && ValidLog(g, s.disk)
    ensures var s' := Apply(g, s, a); s'.disk == s.disk && SpecNext(Abs(g, s), a, Abs(g, s'))
  {
    var s' := Apply(g, s, a);
    if a.End? {
      assert s'.ops.Keys == s.ops.Keys - {a.pid};
    }
  }

  /** Every step of the log is a step of the atomic disk, whatever phase a crash interrupts. */
  lemma StepRefines(g: Geometry, s: State, a: Action)
    requires Inv(g, s) && Enabled(g, s, a)
    ensures ValidLog(g, s.disk) && ValidLog(g, Apply(g, s, a).disk)
    ensures SpecNext(Abs(g, s), a, Abs(g, Apply(g, s, a)))
  {
    CrashKeepsInv(g, s);
    if a.DiskWrite? {
      if s.phase.WritingLog? { WriteLogRefines(g, s); } else { InstallRefines(g, s); }
    } else if a.LogWrite? {
      LogWriteRefines(g, s, a.pid, a.b, a.data);
    } else if !a.Crash? {
      BracketRefines(g, s, a);
    }
  }

  // ---------- Whole runs ----------

  /** The i-th action of a record leads from its i-th state to the next. */
  predicate StepAt(g: Geometry, ss: seq<State>, acts: seq<Action>, i: nat)
    requires i < |acts| < |ss|
  {
    Enabled(g, ss[i], acts[i]) && ss[i + 1] == Apply(g, ss[i], acts[i])
  }

  /** A run from the boot of a disk with a valid log. */
  predicate Run(g: Geometry, ss: seq<State>, acts: seq<Action>) {
    && |ss| == |acts| + 1
    && ValidLog(g, ss[0].disk) && NoDup(HeaderList(ss[0].disk[g.start]))
    && ss[0] == Boot(g, ss[0].disk, 0)
    && (forall i {:trigger StepAt(g, ss, acts, i)} :: 0 <= i < |acts| ==> StepAt(g, ss, acts, i))
  }

  /** The invariant holds throughout every run, whatever the operations log: no commit while one is
      outstanding, each operation's writes in one transaction, no duplicate in the log. */
  lemma {:induction false} RunSafe(g: Geometry, ss: seq<State>, acts: seq<Action>, k: nat)
    requires Run(g, ss, acts) && k < |ss|
    ensures Inv(g, ss[k])
  {
    if k > 0 {
      RunSafe(g, ss, acts, k - 1);
      assert StepAt(g, ss, acts, k - 1);
      InvStep(g, ss[k - 1], acts[k - 1]);
    }
  }

  /** Every run of the log, crashes included, is a run of the atomic disk. */
  lemma RunRefines(g: Geometry, ss: seq<State>, acts: seq<Action>, k: nat)
    requires Run(g, ss, acts) && k < |acts|
    ensures ValidLog(g, ss[k].disk) && ValidLog(g, ss[k + 1].disk)
    ensures SpecNext(Abs(g, ss[k]), acts[k], Abs(g, ss[k + 1]))
  {
    RunSafe(g, ss, acts, k);
    assert StepAt(g, ss, acts, k);
    StepRefines(g, ss[k], acts[k]);
  }

  /** A run of the atomic disk. */
  predicate SpecRun(ps: seq<Spec>, acts: seq<Action>) {
    && |ps| == |acts| + 1
    && ps[0].active == {} && ps[0].durable == ps[0].current
    && (forall i :: 0 <= i < |acts| ==> SpecNext(ps[i], acts[i], ps[i + 1]))
  }

  lemma {:induction false} SpecDurableIsQuiescent(ps: seq<Spec>, acts: seq<Action>, k: nat) returns (j: nat)
    requires SpecRun(ps, acts) && k < |ps|
    ensures j <= k && ps[j].active == {} && ps[k].durable == ps[j].current
  {
    if k == 0 {
      j := 0;
    } else {
      j := SpecDurableIsQuiescent(ps, acts, k - 1);
      assert SpecNext(ps[k - 1], acts[k - 1], ps[k]);
      if ps[k].durable != ps[k - 1].durable {
        j := k - 1;
      }
    }
  }

  /** The atomic-disk view of a run of the log. */
  lemma AbsRun(g: Geometry, ss: seq<State>, acts: seq<Action>) returns (ps: seq<Spec>)
    requires Run(g, ss, acts)
    ensures SpecRun(ps, acts)
    ensures forall i :: 0 <= i < |ss| ==> ValidLog(g, ss[i].disk) && ps[i] == Abs(g, ss[i])
  {
    forall i | 0 <= i < |ss| ensures ValidLog(g, ss[i].disk) {
      RunSafe(g, ss, acts, i);
      CrashKeepsInv(g, ss[i]);
    }
    ps := seq(|ss|, i requires 0 <= i < |ss| => Abs(g, ss[i]));
    forall i | 0 <= i < |acts| ensures SpecNext(ps[i], acts[i], ps[i + 1]) {
      RunRefines(g, ss, acts, i);
    }
  }

  /** Between two moments separated by disk writes only, the file system reads the same. */
  lemma {:induction false} SpecDiskWritesInvisible(ps: seq<Spec>, acts: seq<Action>, i: nat, k: nat)
    requires SpecRun(ps, acts) && i <= k < |ps|
    requires forall j :: i <= j < k ==> acts[j].DiskWrite?
    ensures ps[k].current == ps[i].current
  {
    if i < k {
      SpecDiskWritesInvisible(ps, acts, i, k - 1);
      assert SpecNext(ps[k - 1], acts[k - 1], ps[k]);
    }
  }

  lemma DiskWritesInvisible(g: Geometry, ss: seq<State>, acts: seq<Action>, i: nat, k: nat)
    requires Run(g, ss, acts) && i <= k < |ss|
    requires forall j :: i <= j < k ==> acts[j].DiskWrite?
    ensures ValidLog(g, ss[i].disk) && ValidLog(g, ss[k].disk)
    ensures Abs(g, ss[k]).current == Abs(g, ss[i]).current
  {
    var ps := AbsRun(g, ss, acts);
    SpecDiskWritesInvisible(ps, acts, i, k);
  }

  /** Crash atomicity over whole runs: at every moment, what recovery would leave on the home
      blocks is what the file system held at some moment when no operation was in progress. */
  lemma DurableIsQuiescent(g: Geometry, ss: seq<State>, acts: seq<Action>, k: nat) returns (j: nat)
    requires Run(g, ss, acts) && k < |ss|
    ensures j <= k && ValidLog(g, ss[j].disk) && ValidLog(g, ss[k].disk)
    ensures ss[j].ops.Keys == {} && Durable(g, ss[k].disk) == Abs(g, ss[j]).current
  {
    var ps := AbsRun(g, ss, acts);
    j := SpecDurableIsQuiescent(ps, acts, k);
  }

  /** Once a commit is over and nothing new is logged, everything written is durable. */
  lemma DurableWhenIdle(g: Geometry, s: State)
    requires Inv(g, s) && s.phase.Running? && s.lh == []
    ensures ValidLog(g, s.disk) && Abs(g, s).durable == Abs(g, s).current
  {
    CrashKeepsInv(g, s);
    DurableWhenEmpty(g, s.disk);
    assert s.dirty == map[];
    assert Overlay(s.disk, s.dirty) == s.disk;
  }

  lemma ExtendRun(g: Geometry, ss: seq<State>, acts: seq<Action>, a: Action)
    requires Run(g, ss, acts) && Enabled(g, ss[|acts|], a)
    ensures Run(g, ss + [Apply(g, ss[|acts|], a)], acts + [a])
  {
    var ss', acts' := ss + [Apply(g, ss[|acts|], a)], acts + [a];
    forall i | 0 <= i < |acts'| ensures StepAt(g, ss', acts', i) {
      if i < |acts| {
        assert StepAt(g, ss, acts, i);
      }
    }
  }

  // ---------- The single-block writes, as the code makes them ----------

  /** bwrite(b): one atomic write, after which the buffer is clean. */
  function Wrote(s: State, b: nat, data: Block): State
    requires b < |s.disk|
  {
    s.(disk := s.disk[b := data], dirty := s.dirty - {b})
  }

  /** No buffer of the log area is ever pinned, so the disk write leaves `dirty` alone there. */
  lemma LogAreaClean(g: Geometry, s: State, b: nat)
    requires Inv(g, s) && InLog(g, b)
    ensures b !in s.dirty && s.dirty - {b} == s.dirty
  {
  }

  /** A transaction pins no more blocks than it has, and all of them until its commit point. */
  lemma PinnedAtMost(g: Geometry, s: State)
    requires Inv(g, s)
    ensures |s.dirty.Keys| <= |s.lh|
    ensures !s.phase.Installing? ==> |s.dirty.Keys| == |s.lh|
    ensures s.phase.Installing? && s.phase.tail < |s.lh| && s.lh[s.phase.tail] !in s.dirty ==> |s.dirty.Keys| < |s.lh|
    ensures s.phase.Installing? && s.phase.tail == |s.lh| ==> s.dirty == map[]
  {
    var all := SetOf(s.lh);
    SetOfSize(s.lh);
    SubsetSize(s.dirty.Keys, all);
    if !s.phase.Installing? {
      assert s.dirty.Keys == all;
    } else if s.phase.tail < |s.lh| {
      var b := s.lh[s.phase.tail];
      if b !in s.dirty {
        SubsetSize(s.dirty.Keys, all - {b});
      }
    }
  }

  lemma PinnedAtCopy(g: Geometry, ss: seq<State>, acts: seq<Action>, t: nat)
    requires Run(g, ss, acts) && ss[|acts|].phase == WritingLog(t)
    ensures var s := ss[|acts|];
      && |s.dirty.Keys| == |s.lh| && t <= |s.lh| && g.start !in s.dirty
      && (t < |s.lh| ==> g.start + 1 + t !in s.dirty && s.lh[t] in s.dirty)
  {
    var s := ss[|acts|];
    RunSafe(g, ss, acts, |acts|);
    PinnedAtMost(g, s);
    LogAreaClean(g, s, g.start);
    if t < |s.lh| {
      LogAreaClean(g, s, g.start + 1 + t);
      assert s.lh[t] in s.dirty;
    }
  }

  lemma PinnedAtInstall(g: Geometry, ss: seq<State>, acts: seq<Action>, t: nat)
    requires Run(g, ss, acts) && ss[|acts|].phase == Installing(t)
    ensures var s := ss[|acts|];
      && |s.dirty.Keys| <= |s.lh| && t <= |s.lh| && g.start !in s.dirty && (t == |s.lh| ==> s.dirty == map[])
      && (t < |s.lh| ==> g.start + 1 + t !in s.dirty && (s.lh[t] in s.dirty || |s.dirty.Keys| < |s.lh|))
  {
    var s := ss[|acts|];
    RunSafe(g, ss, acts, |acts|);
    PinnedAtMost(g, s);
    LogAreaClean(g, s, g.start);
    if t < |s.lh| {
      LogAreaClean(g, s, g.start + 1 + t);
    }
  }

  lemma CopyToLogStepAt(g: Geometry, s: State, t: nat)
    requires Enabled(g, s, DiskWrite) && s.phase == WritingLog(t) && t < |s.lh|
    requires s.dirty - {g.start + 1 + t} == s.dirty && g.start + 1 + t !in s.dirty
    ensures s.lh[t] < |s.disk| && g.start + 1 + t < |s.disk|
    ensures Apply(g, s, DiskWrite) == Wrote(s, g.start + 1 + t, Cached(s, s.lh[t])).(phase := WritingLog(t + 1))
  {
    assert Apply(g, s, DiskWrite) == WriteNext(g, s);
    var x := Cached(s, s.lh[t]);
    assert WriteNext(g, s) == s.(disk := s.disk[g.start + 1 + t := x], phase := WritingLog(t + 1));
    assert Wrote(s, g.start + 1 + t, x) == s.(disk := s.disk[g.start + 1 + t := x]);
  }

  lemma CopyToLogStep(g: Geometry, ss: seq<State>, acts: seq<Action>, t: nat)
    requires Run(g, ss, acts)
    requires var s := ss[|acts|]; s.phase == WritingLog(t) && t < |s.lh|
    ensures var s := ss[|acts|];
      && Enabled(g, s, DiskWrite) && s.lh[t] < |s.disk| && g.start + 1 + t < |s.disk|
      && Apply(g, s, DiskWrite) == Wrote(s, g.start + 1 + t, Cached(s, s.lh[t])).(phase := WritingLog(t + 1))
  {
    RunSafe(g, ss, acts, |acts|);
    LogAreaClean(g, ss[|acts|], g.start + 1 + t);
    CopyToLogStepAt(g, ss[|acts|], t);
  }

  lemma CopyHomeStepAt(g: Geometry, s: State, t: nat)
    requires Enabled(g, s, DiskWrite) && s.phase == Installing(t) && t < |s.lh|
    requires s.dirty - {g.start + 1 + t} == s.dirty && g.start + 1 + t !in s.dirty
    ensures s.lh[t] < |s.disk| && g.start + 1 + t < |s.disk|
    ensures Apply(g, s, DiskWrite) == Wrote(s, s.lh[t], Cached(s, g.start + 1 + t)).(phase := Installing(t + 1))
  {
    assert Apply(g, s, DiskWrite) == WriteNext(g, s);
    var x := LogBlock(g, s.disk, t);
    assert Cached(s, g.start + 1 + t) == x;
    assert WriteNext(g, s) == s.(disk := s.disk[s.lh[t] := x], dirty := s.dirty - {s.lh[t]}, phase := Installing(t + 1));
  }

  lemma CopyHomeStep(g: Geometry, ss: seq<State>, acts: seq<Action>, t: nat)
    requires Run(g, ss, acts)
    requires var s := ss[|acts|]; s.phase == Installing(t) && t < |s.lh|
    ensures var s := ss[|acts|];
      && Enabled(g, s, DiskWrite) && s.lh[t] < |s.disk| && g.start + 1 + t < |s.disk|
      && Apply(g, s, DiskWrite) == Wrote(s, s.lh[t], Cached(s, g.start + 1 + t)).(phase := Installing(t + 1))
  {
    RunSafe(g, ss, acts, |acts|);
    LogAreaClean(g, ss[|acts|], g.start + 1 + t);
    CopyHomeStepAt(g, ss[|acts|], t);
  }

  lemma WriteHeadStepAt(g: Geometry, s: State)
    requires Enabled(g, s, DiskWrite) && s.phase == WritingLog(|s.lh|)
    requires s.dirty - {g.start} == s.dirty && g.start !in s.dirty
    ensures g.start < |s.disk| && Loggable(s.lh)
    ensures Apply(g, s, DiskWrite) ==
      Wrote(s, g.start, Stamp(Cached(s, g.start), s.lh)).(phase := Installing(0), txn := s.txn + 1)
  {
    assert Apply(g, s, DiskWrite) == WriteNext(g, s);
    assert WriteNext(g, s) ==
      Wrote(s, g.start, Stamp(Cached(s, g.start), s.lh)).(phase := Installing(0), txn := s.txn + 1);
  }

  lemma WriteHeadStep(g: Geometry, ss: seq<State>, acts: seq<Action>)
    requires Run(g, ss, acts)
    requires var s := ss[|acts|]; s.phase == WritingLog(|s.lh|)
    ensures var s := ss[|acts|];
      && Enabled(g, s, DiskWrite) && g.start < |s.disk| && Loggable(s.lh)
      && Apply(g, s, DiskWrite) ==
        Wrote(s, g.start, Stamp(Cached(s, g.start), s.lh)).(phase := Installing(0), txn := s.txn + 1)
  {
    RunSafe(g, ss, acts, |acts|);
    LogAreaClean(g, ss[|acts|], g.start);
    WriteHeadStepAt(g, ss[|acts|]);
  }

  lemma ClearLogStepAt(g: Geometry, s: State)
    requires Enabled(g, s, DiskWrite) && s.phase == Installing(|s.lh|)
    requires s.dirty - {g.start} == s.dirty && g.start !in s.dirty
    ensures g.start < |s.disk|
    ensures Apply(g, s, DiskWrite) ==
      Wrote(s, g.start, Stamp(Cached(s, g.start), [])).(lh := [], phase := Running, recovering := false)
  {
    assert Apply(g, s, DiskWrite) == WriteNext(g, s);
    assert WriteNext(g, s) ==
      Wrote(s, g.start, Stamp(Cached(s, g.start), [])).(lh := [], phase := Running, recovering := false);
  }

  lemma ClearLogStep(g: Geometry, ss: seq<State>, acts: seq<Action>)
    requires Run(g, ss, acts)
    requires var s := ss[|acts|]; s.phase == Installing(|s.lh|)
    ensures var s := ss[|acts|];
      && Enabled(g, s, DiskWrite) && g.start < |s.disk|
      && Apply(g, s, DiskWrite) ==
        Wrote(s, g.start, Stamp(Cached(s, g.start), [])).(lh := [], phase := Running, recovering := false)
  {
    RunSafe(g, ss, acts, |acts|);
    LogAreaClean(g, ss[|acts|], g.start);
    ClearLogStepAt(g, ss[|acts|]);
  }

  /** After nothing but single-block writes, an idle machine's disk holds on its home blocks
      what the file system read at the start of the stretch. */
  lemma QuietStretch(g: Geometry, ss: seq<State>, acts: seq<Action>, i: nat)
    requires Run(g, ss, acts) && i <= |acts|
    requires forall j :: i <= j < |acts| ==> acts[j].DiskWrite?
    requires var s := ss[|acts|]; s.phase.Running? && s.lh == []
    ensures ValidLog(g, ss[i].disk)
    ensures ss[|acts|].dirty == map[] && Mask(g, ss[|acts|].disk) == Abs(g, ss[i]).current
  {
    var s := ss[|acts|];
    DiskWritesInvisible(g, ss, acts, i, |acts|);
    RunSafe(g, ss, acts, |acts|);
    assert s.dirty == map[];
    assert Overlay(s.disk, s.dirty) == s.disk;
  }

  lemma OperationStep(g: Geometry, ss: seq<State>, acts: seq<Action>, pid: nat)
    requires Run(g, ss, acts) && pid in ss[|acts|].ops
    ensures var s := ss[|acts|];
      !s.committing && !s.recovering && s.phase.Running? && s.outstanding >= 1 && |s.lh| < g.size
  {
    RunSafe(g, ss, acts, |acts|);
  }
}
