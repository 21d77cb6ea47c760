/** The code of log.c: the in-memory header, its copy loops, and the entry points, each shown to
    perform exactly the steps of the protocol.  `run` records the state after every locked section
    and every single-block write, so that what holds of all runs holds of every crash point. */
module LogDevice {
  import opened Common
  import opened BlockWords
  import opened Log
  import opened LogProtocol

  /** Between two records of one run, exactly k single-block writes happened and nothing else. */
  ghost predicate Since(ss: seq<State>, acts: seq<Action>, ss': seq<State>, acts': seq<Action>, k: nat) {
    && |ss'| == |ss| + k && ss <= ss'
    && |acts'| == |acts| + k && acts <= acts'
    && forall j :: |acts| <= j < |acts'| ==> acts'[j].DiskWrite?
  }

  lemma SinceTrans(ss: seq<State>, acts: seq<Action>, ss1: seq<State>, acts1: seq<Action>, k: nat,
                   ss2: seq<State>, acts2: seq<Action>, m: nat)
    requires Since(ss, acts, ss1, acts1, k) && Since(ss1, acts1, ss2, acts2, m)
    ensures Since(ss, acts, ss2, acts2, k + m)
  {
    forall j | |acts| <= j < |acts2| ensures acts2[j].DiskWrite? {
      if j < |acts1| {
        assert acts2[j] == acts1[j];
      }
    }
  }

  class Device {
    const g: Geometry
    var disk: Disk
    var dirty: map<nat, Block>
    var n: nat
    var block: array<nat>
    var outstanding: nat
    var committing: bool

    ghost var recovering: bool
    ghost var phase: Phase
    ghost var ops: map<nat, Op>
    ghost var txn: nat
    ghost var run: seq<State>
    ghost var acts: seq<Action>

    ghost function Now(): State
      reads this, block
      requires n <= block.Length
    {
      State(disk, dirty, block[..n], outstanding, committing, recovering, phase, ops, txn)
    }

    /** The fields are the last state of a run of the protocol. */
    ghost predicate Valid()
      reads this, block
    {
      && block.Length == LOGSIZE && n <= LOGSIZE
      && Run(g, run, acts) && run[|acts|] == Now()
    }

    /** Add one step to the record. */
    ghost method Record(a: Action)
      requires block.Length == LOGSIZE && n <= LOGSIZE && Run(g, run, acts)
      requires Enabled(g, run[|acts|], a) && Now() == Apply(g, run[|acts|], a)
      modifies this`run, this`acts
      ensures Valid() && run == old(run) + [Now()] && acts == old(acts) + [a]
    {
      ExtendRun(g, run, acts, a);
      run, acts := run + [Now()], acts + [a];
    }

    /** bread, while other buffers to the number of `held` are in use, none of them this block's.  A pinned buffer hides
        the disk's copy; None stands for the panic "bget: no buffers". */
    method BRead(b: nat, held: nat) returns (data: Option<Block>)
      requires b < |disk|
      ensures data.None? <==> b !in dirty && |dirty.Keys| + held >= NBUF
      ensures data.Some? ==> data.value == if b in dirty then dirty[b] else disk[b]
    {
      if b in dirty {
        data := Some(dirty[b]);
      } else if |dirty.Keys| + held < NBUF {
        data := Some(disk[b]);
      } else {
        data := None;
      }
    }

    /** bwrite: one atomic write; the buffer is clean afterwards. */
    method WriteBlock(b: nat, data: Block)
      requires b < |disk|
      modifies this`disk, this`dirty
      ensures disk == old(disk)[b := data] && dirty == old(dirty) - {b}
    {
      disk := disk[b := data];
      dirty := dirty - {b};
    }

    /** The two breads of a turn of write_log's loop, the second with the first one's buffer held. */
    method ReadCached(tail: nat, held: nat) returns (from: Option<Block>)
      requires Valid() && phase == WritingLog(tail) && tail < n
      ensures from.None? <==> n + held >= NBUF
      ensures from.Some? ==> block[tail] < |disk| && from.value == Cached(Now(), block[tail])
    {
      CopyToLogStep(g, run, acts, tail);
      PinnedAtCopy(g, run, acts, tail);
      var to := BRead(g.start + 1 + tail, held);
      from := BRead(block[tail], held + 1);
      if to.None? {
        from := None;
      }
    }

    /** The rest of the turn: the cached block goes into the log. */
    method CopyToLog(tail: nat, from: Block)
      requires Valid() && phase == WritingLog(tail) && tail < n
      requires block[tail] < |disk| && from == Cached(Now(), block[tail])
      modifies this`disk, this`dirty, this`phase, this`run, this`acts
      ensures Valid() && phase == WritingLog(tail + 1)
      ensures Since(old(run), old(acts), run, acts, 1)
    {
      CopyToLogStep(g, run, acts, tail);
      WriteBlock(g.start + 1 + tail, from);
      phase := WritingLog(tail + 1);
      Record(DiskWrite);
    }

    /** write_log: every logged block's pending contents reach the log area, or none for want of a buffer. */
    method WriteLog(held: nat) returns (ok: bool)
      requires Valid() && phase == WritingLog(0)
      modifies this`disk, this`dirty, this`phase, this`run, this`acts
      ensures Valid() && (ok <==> n == 0 || n + held < NBUF)
      ensures if ok then phase == WritingLog(n) && Since(old(run), old(acts), run, acts, n)
              else run == old(run) && acts == old(acts) && phase == old(phase)
    {
      var tail := 0;
      while tail < n
        invariant 0 <= tail <= n && (tail > 0 ==> n + held < NBUF)
        invariant Valid() && phase == WritingLog(tail)
        invariant Since(old(run), old(acts), run, acts, tail)
      {
        ghost var ss, before := run, acts;
        var from := ReadCached(tail, held);
        if from.None? {
          return false;
        }
        CopyToLog(tail, from.value);
        SinceTrans(old(run), old(acts), ss, before, tail, run, acts, 1);
        tail := tail + 1;
      }
      ok := true;
    }

    /** The two breads of a turn of install_trans's loop. */
    method ReadLogged(tail: nat, held: nat) returns (from: Option<Block>)
      requires Valid() && phase == Installing(tail) && tail < n
      ensures dirty == map[] ==> (from.None? <==> held + 1 >= NBUF)
      ensures n + held < NBUF ==> from.Some?
      ensures from.Some? ==> g.start + 1 + tail < |disk| && from.value == Cached(Now(), g.start + 1 + tail)
    {
      CopyHomeStep(g, run, acts, tail);
      PinnedAtInstall(g, run, acts, tail);
      from := BRead(g.start + 1 + tail, held);
      var to := BRead(block[tail], held + 1);
      if to.None? {
        from := None;
      }
    }

    /** The rest of the turn: the log block goes to its home. */
    method CopyHome(tail: nat, from: Block)
      requires Valid() && phase == Installing(tail) && tail < n
      requires g.start + 1 + tail < |disk| && from == Cached(Now(), g.start + 1 + tail)
      modifies this`disk, this`dirty, this`phase, this`run, this`acts
      ensures Valid() && phase == Installing(tail + 1) && dirty.Keys <= old(dirty.Keys)
      ensures Since(old(run), old(acts), run, acts, 1)
    {
      CopyHomeStep(g, run, acts, tail);
      WriteBlock(block[tail], from);
      phase := Installing(tail + 1);
      Record(DiskWrite);
    }

    /** install_trans: the log blocks named by the header reach their home locations.  With nothing pinned, as at
        recovery, two buffers are enough; after write_log there is always one. */
    method InstallTrans(held: nat) returns (ok: bool)
      requires Valid() && phase == Installing(0)
      modifies this`disk, this`dirty, this`phase, this`run, this`acts
      ensures Valid() && old(run) <= run
      ensures old(dirty) == map[] ==> (ok <==> n == 0 || held + 1 < NBUF)
      ensures n + held < NBUF ==> ok
      ensures ok ==> phase == Installing(n) && Since(old(run), old(acts), run, acts, n)
    {
      var tail := 0;
      while tail < n
        invariant 0 <= tail <= n && (old(dirty) == map[] ==> dirty == map[] && (tail > 0 ==> held + 1 < NBUF))
        invariant Valid() && phase == Installing(tail)
        invariant Since(old(run), old(acts), run, acts, tail)
      {
        ghost var ss, before := run, acts;
        var from := ReadLogged(tail, held);
        if from.None? {
          return false;
        }
        CopyHome(tail, from.value);
        SinceTrans(old(run), old(acts), ss, before, tail, run, acts, 1);
        tail := tail + 1;
      }
      ok := true;
    }

    /** write_head's loop: the header block with the in-memory list stored into it. */
    method BuildHeader(h: Block) returns (hb: Block)
      requires n <= block.Length && Loggable(block[..n])
      ensures hb == Stamp(h, block[..n])
    {
      ghost var lh := block[..n];
      hb := SetWord(h, 0, n);
      var i := 0;
      while i < n
        invariant 0 <= i <= n
        invariant hb == StampEntries(SetWord(h, 0, n), lh, i)
      {
        hb := SetWord(hb, 1 + i, block[i]);
        i := i + 1;
      }
    }

    /** write_head's bread of the header block, which is never pinned. */
    method ReadHead(held: nat) returns (h: Option<Block>)
      requires Valid() && (phase == WritingLog(n) || phase == Installing(n))
      ensures h.None? <==> (if phase.WritingLog? then n else 0) + held >= NBUF
      ensures h.Some? ==> g.start < |disk| && h.value == Cached(Now(), g.start)
    {
      if phase.WritingLog? {
        WriteHeadStep(g, run, acts);
        PinnedAtCopy(g, run, acts, n);
      } else {
        ClearLogStep(g, run, acts);
        PinnedAtInstall(g, run, acts, n);
      }
      h := BRead(g.start, held);
    }

    /** The rest of write_head at the commit point, after write_log. */
    method WriteHead(h: Block)
      requires Valid() && phase == WritingLog(n) && g.start < |disk| && h == Cached(Now(), g.start)
      modifies this`disk, this`dirty, this`phase, this`txn, this`run, this`acts
      ensures Valid() && phase == Installing(0)
      ensures Since(old(run), old(acts), run, acts, 1)
    {
      WriteHeadStep(g, run, acts);
      var hb := BuildHeader(h);
      WriteBlock(g.start, hb);
      phase, txn := Installing(0), txn + 1;
      Record(DiskWrite);
    }

    /** The rest of write_head with an empty list: the transaction is erased from the log. */
    method ClearLog(h: Block)
      requires Valid() && phase == Installing(n) && g.start < |disk| && h == Cached(Now(), g.start)
      modifies this`disk, this`dirty, this`n, this`phase, this`recovering, this`run, this`acts
      ensures Valid() && phase == Running && n == 0 && !recovering
      ensures Since(old(run), old(acts), run, acts, 1)
    {
      ClearLogStep(g, run, acts);
      n := 0;
      assert block[..0] == [];
      var hb := BuildHeader(h);
      WriteBlock(g.start, hb);
      phase, recovering := Running, false;
      Record(DiskWrite);
    }

    /** commit: 2n + 2 single-block writes, none if nothing was logged.  It panics, before the first of them, exactly
        if the transaction and the buffers in use elsewhere leave no buffer. */
    method Commit(held: nat) returns (ok: bool)
      requires Valid() && committing && phase == (if n > 0 then WritingLog(0) else Running)
      modifies this`disk, this`dirty, this`n, this`phase, this`recovering, this`txn, this`run, this`acts
      ensures Valid() && (ok <==> old(n) == 0 || old(n) + held < NBUF)
      ensures ok ==> phase == Running && n == 0
      ensures ok ==> Since(old(run), old(acts), run, acts, if old(n) > 0 then 2 * old(n) + 2 else 0)
      ensures ok ==> dirty == map[] && Mask(g, disk) == Mask(g, Overlay(old(disk), old(dirty)))
      ensures !ok ==> run == old(run) && acts == old(acts)
    {
      if n > 0 {
        ok := WriteLog(held);
        if !ok {
          return;
        }
        ghost var ss1, acts1 := run, acts;
        var h := ReadHead(held);
        WriteHead(h.value);
        SinceTrans(old(run), old(acts), ss1, acts1, n, run, acts, 1);
        ghost var ss2, acts2 := run, acts;
        ok := InstallTrans(held);
        SinceTrans(old(run), old(acts), ss2, acts2, n + 1, run, acts, n);
        ghost var ss3, acts3 := run, acts;
        h := ReadHead(held);
        ClearLog(h.value);
        SinceTrans(old(run), old(acts), ss3, acts3, 2 * old(n) + 1, run, acts, 1);
      }
      ok := true;
      QuietStretch(g, run, acts, |old(acts)|);
    }

    /** initlog up to read_head: the header of the disk becomes the in-memory list. */
    constructor (g: Geometry, d: Disk)
      requires ValidLog(g, d) && NoDup(HeaderList(d[g.start]))
      ensures Valid() && this.g == g && disk == d && recovering && phase == Installing(0)
      ensures run == [Boot(g, d, 0)] && acts == []
      ensures fresh(block)
    {
      this.g, disk, dirty := g, d, map[];
      block := new nat[LOGSIZE];
      n, outstanding, committing := WordAt(d[g.start], 0), 0, false;
      recovering, phase, ops, txn := true, Installing(0), map[], 0;
      run, acts := [Boot(g, d, 0)], [];
      new;
      var i := 0;
      while i < n
        invariant 0 <= i <= n <= block.Length && fresh(block)
        invariant n == HeaderCount(d[g.start])
        invariant forall j :: 0 <= j < i ==> block[j] == WordAt(d[g.start], 1 + j)
        modifies block
      {
        block[i] := WordAt(d[g.start], 1 + i);
        i := i + 1;
      }
      assert block[..n] == HeaderList(d[g.start]);
    }

    /** recover_from_log on a machine that has just booted: the home blocks end up as Durable says. */
    method RecoverFromLog()
      requires Valid() && recovering && acts == [] && phase == Installing(0)
      modifies this`disk, this`dirty, this`n, this`phase, this`recovering, this`run, this`acts
      ensures Valid() && phase == Running && n == 0 && !recovering && dirty == map[]
      ensures ValidLog(g, old(disk)) && Mask(g, disk) == Durable(g, old(disk))
      ensures Since(old(run), old(acts), run, acts, old(n) + 1)
    {
      var installed := InstallTrans(0);
      ghost var ss1, acts1 := run, acts;
      var h := ReadHead(0);
      ClearLog(h.value);
      SinceTrans(old(run), old(acts), ss1, acts1, old(n), run, acts, 1);
      QuietStretch(g, run, acts, 0);
    }

    /** One pass of begin_op's loop; false means the caller goes to sleep. */
    method BeginOp(ghost pid: nat) returns (begun: bool)
      requires Valid() && !recovering && pid !in ops
      modifies this`outstanding, this`ops, this`run, this`acts
      ensures Valid()
      ensures begun == old(MayBegin(Now()))
      ensures begun <==> !old(committing) && n + 10 * (old(outstanding) + 1) <= 30
      ensures outstanding == old(outstanding) + if begun then 1 else 0
      ensures if begun then run == old(run) + [Now()] && acts == old(acts) + [Begin(pid)]
              else run == old(run) && acts == old(acts)
    {
      if committing {
        begun := false;
      } else if n + (outstanding + 1) * MAXOPBLOCKS > LOGSIZE {
        begun := false;
      } else {
        begun := true;
        outstanding := outstanding + 1;
        ops := ops[pid := Op(0, txn)];
        Record(Begin(pid));
      }
    }

    /** log_write; false stands for "too big a transaction".  The block joins the list unless
        it is there already. */
    method LogWrite(ghost pid: nat, b: nat, data: Block) returns (ok: bool)
      requires Valid() && pid in ops && Home(g, disk, b)
      modifies this`dirty, this`n, this`ops, this`run, this`acts, block
      ensures Valid()
      ensures ok == !old(TooBig(g, Now()))
      ensures if ok then run == old(run) + [Now()] && acts == old(acts) + [LogProtocol.LogWrite(pid, b, data)]
              else run == old(run) && acts == old(acts)
    {
      ghost var s := Now();
      OperationStep(g, run, acts, pid);
      if n >= LOGSIZE || n >= g.size - 1 {
        return false;
      }
      var i := 0;
      while i < n && block[i] != b
        invariant 0 <= i <= n
        invariant forall j :: 0 <= j < i ==> block[j] != b
      {
        i := i + 1;
      }
      block[i] := b;
      if i == n {
        n := n + 1;
        ops := ops[pid := ops[pid].(spent := ops[pid].spent + 1)];
        assert b !in s.lh;
        assert block[..n] == s.lh + [b];
      } else {
        assert s.lh[i] == b;
        assert block[..n] == s.lh;
      }
      dirty := dirty[b := data];
      Record(LogProtocol.LogWrite(pid, b, data));
      ok := true;
    }

    /** The locked section of end_op.  The "log.committing" panic is never reached. */
    method CloseOp(ghost pid: nat) returns (doCommit: bool)
      requires Valid() && pid in ops
      modifies this`outstanding, this`committing, this`ops, this`phase, this`run, this`acts
      ensures Valid() && run == old(run) + [Now()] && acts == old(acts) + [End(pid)]
      ensures doCommit == (old(outstanding) == 1) == committing
      ensures doCommit ==> phase == if n > 0 then WritingLog(0) else Running
    {
      OperationStep(g, run, acts, pid);
      outstanding := outstanding - 1;
      assert !committing;
      ops := ops - {pid};
      doCommit := outstanding == 0;
      if doCommit {
        committing := true;
        phase := if n > 0 then WritingLog(0) else Running;
      }
      Record(End(pid));
    }

    /** end_op: the last operation out commits, after which every write of the transaction is on
        its home block; false if the commit finds no buffer. */
    method EndOp(ghost pid: nat, held: nat) returns (ok: bool)
      requires Valid() && pid in ops
      modifies this
      ensures Valid() && block == old(block) && old(run) <= run
      ensures ok <==> old(outstanding) != 1 || old(n) == 0 || old(n) + held < NBUF
      ensures committing == !ok
      ensures old(outstanding) != 1 || !ok ==> run == old(run) + [Now()] && acts == old(acts) + [End(pid)]
      ensures ok && old(outstanding) == 1 ==>
        n == 0 && dirty == map[] && Mask(g, disk) == Mask(g, Overlay(old(disk), old(dirty)))
    {
      var doCommit := CloseOp(pid);
      ok := true;
      if doCommit {
        ok := CommitAndRelease(held);
      }
    }

    /** The rest of end_op for the last operation out. */
    method CommitAndRelease(held: nat) returns (ok: bool)
      requires Valid() && committing && phase == (if n > 0 then WritingLog(0) else Running)
      modifies this`disk, this`dirty, this`n, this`phase, this`recovering, this`txn, this`committing, this`run, this`acts
      ensures Valid() && old(run) <= run && (ok <==> old(n) == 0 || old(n) + held < NBUF) && committing == !ok
      ensures !ok ==> run == old(run) && acts == old(acts)
      ensures ok ==> n == 0 && dirty == map[] && Mask(g, disk) == Mask(g, Overlay(old(disk), old(dirty)))
    {
      ok := Commit(held);
      if ok {
        committing := false;
        Record(Release);
      }
    }
  }
}
