/** The space that begin_op reserves: what keeps log_write from its "too big a transaction" panic, and exactly
    when it does. */
module LogReservation {
  import opened Common
  import opened BlockWords
  import opened Log
  import opened LogProtocol

  // ---------- Reservations ----------

  /** What is left to an operation that may log k new blocks. */
  function Budget(op: Op, k: nat): nat {
    if op.spent <= k then k - op.spent else 0
  }

  /** The new blocks that the operations in progress may still log. */
  ghost function Unspent(ops: map<nat, Op>, k: nat): nat {
    if ops == map[] then 0
    else
      var pid :| pid in ops;
      Budget(ops[pid], k) + Unspent(ops - {pid}, k)
  }

  /** The blocks logged and those still to come. begin_op lets a second operation in with up to MAXOPBLOCKS blocks
      in the log, and nobody in unless the log is empty when nobody is. */
  ghost predicate Reserved(s: State, k: nat) {
    && (s.ops != map[] ==> |s.lh| + Unspent(s.ops, k) <= MAXOPBLOCKS + 2 * k)
    && (s.ops == map[] && s.phase.Running? ==> s.lh == [])
    && (s.ops != map[] && k == 0 ==> s.lh == [])
  }

  /** No operation in progress has logged more than k new blocks. */
  ghost predicate Within(s: State, k: nat) {
    forall pid :: pid in s.ops ==> s.ops[pid].spent <= k
  }

  lemma {:induction false} UnspentRemove(ops: map<nat, Op>, pid: nat, k: nat)
    requires pid in ops
    ensures Unspent(ops, k) == Budget(ops[pid], k) + Unspent(ops - {pid}, k)
    decreases |ops|
  {
    var first :| first in ops && Unspent(ops, k) == Budget(ops[first], k) + Unspent(ops - {first}, k);
    if first != pid {
      UnspentRemove(ops - {first}, pid, k);
      UnspentRemove(ops - {pid}, first, k);
      assert ops - {first} - {pid} == ops - {pid} - {first};
    }
  }

  lemma UnspentUpdate(ops: map<nat, Op>, pid: nat, op: Op, k: nat)
    ensures Unspent(ops[pid := op], k) == Budget(op, k) + Unspent(ops - {pid}, k)
  {
    UnspentRemove(ops[pid := op], pid, k);
    assert ops[pid := op] - {pid} == ops - {pid};
  }

  /** With everything unspent it is k for each operation. */
  lemma {:induction false} UnspentBound(ops: map<nat, Op>, k: nat)
    ensures Unspent(ops, k) <= k * |ops|
    decreases |ops|
  {
    if ops == map[] {
      assert |ops| == 0;
    } else {
      var pid :| pid in ops && Unspent(ops, k) == Budget(ops[pid], k) + Unspent(ops - {pid}, k);
      var rest := ops - {pid};
      UnspentBound(rest, k);
      OneLess(ops, pid);
      OneMoreTimes(k, |rest|, |ops|);
      assert Budget(ops[pid], k) <= k;
    }
  }

  lemma OneMoreTimes(k: nat, n: nat, m: nat)
    requires m == n + 1
    ensures k * m == k * n + k
  {
  }

  lemma OneLess(ops: map<nat, Op>, pid: nat)
    requires pid in ops
    ensures |ops| == |ops - {pid}| + 1
  {
    assert (ops - {pid}).Keys == ops.Keys - {pid};
  }

  lemma BeginReserved(g: Geometry, s: State, pid: nat, k: nat)
    requires Inv(g, s) && Enabled(g, s, Begin(pid)) && Reserved(s, k) && k <= MAXOPBLOCKS
    ensures Reserved(Apply(g, s, Begin(pid)), k)
  {
    UnspentUpdate(s.ops, pid, Op(0, s.txn), k);
    assert s.ops - {pid} == s.ops;
    if s.ops == map[] {
      assert Unspent(s.ops, k) == 0;
    } else {
      UnspentBound(s.ops, k);
      var m := |s.ops|;
      assert |s.ops.Keys| == m && m != 0;
      assert m == 1 || m == 2;
    }
    assert pid in Apply(g, s, Begin(pid)).ops;
  }

  lemma LogWriteReserved(g: Geometry, s: State, pid: nat, b: nat, data: Block, k: nat)
    requires Inv(g, s) && Enabled(g, s, LogWrite(pid, b, data)) && Reserved(s, k)
    requires Within(Apply(g, s, LogWrite(pid, b, data)), k)
    ensures Reserved(Apply(g, s, LogWrite(pid, b, data)), k)
  {
    if b !in s.lh {
      var op := s.ops[pid].(spent := s.ops[pid].spent + 1);
      assert Apply(g, s, LogWrite(pid, b, data)).ops[pid] == op;
      UnspentRemove(s.ops, pid, k);
      UnspentUpdate(s.ops, pid, op, k);
    }
  }

  lemma EndReserved(g: Geometry, s: State, pid: nat, k: nat)
    requires Inv(g, s) && Enabled(g, s, End(pid)) && Reserved(s, k)
    ensures Reserved(Apply(g, s, End(pid)), k)
  {
    UnspentRemove(s.ops, pid, k);
    OneLess(s.ops, pid);
  }

  lemma OtherReserved(g: Geometry, s: State, a: Action, k: nat)
    requires Inv(g, s) && Enabled(g, s, a) && Reserved(s, k) && (a.DiskWrite? || a.Release? || a.Crash?)
    ensures Reserved(Apply(g, s, a), k)
  {
  }

  /** begin_op's test makes the reservation, log_write spends it, end_op gives the rest back: as long as the operations
      keep to k new blocks, and k to what is reserved, every step leaves the reservations covered. */
  lemma ReservedStep(g: Geometry, s: State, a: Action, k: nat)
    requires Inv(g, s) && Enabled(g, s, a) && Reserved(s, k) && k <= MAXOPBLOCKS && Within(Apply(g, s, a), k)
    ensures Reserved(Apply(g, s, a), k)
  {
    match a
    case Begin(pid) => BeginReserved(g, s, pid, k);
    case LogWrite(pid, b, data) => LogWriteReserved(g, s, pid, b, data, k);
    case End(pid) => EndReserved(g, s, pid, k);
    case _ => OtherReserved(g, s, a, k);
  }

  /** A run whose operations log at most k new blocks each. */
  ghost predicate RunWithin(g: Geometry, ss: seq<State>, acts: seq<Action>, k: nat) {
    Run(g, ss, acts) && forall i {:trigger ss[i]} :: 0 <= i < |ss| ==> Within(ss[i], k)
  }

  lemma ReservedNext(g: Geometry, s: State, a: Action, s': State, k: nat)
    requires Known(Inv(g, s)) && Enabled(g, s, a) && s' == Apply(g, s, a) && k <= MAXOPBLOCKS
    requires Known(Reserved(s, k)) && Known(Within(s', k))
    ensures Known(Reserved(s', k))
  {
    ReservedStep(g, s, a, k);
  }

  lemma {:induction false} RunReserved(g: Geometry, ss: seq<State>, acts: seq<Action>, i: nat, k: nat)
    requires RunWithin(g, ss, acts, k) && k <= MAXOPBLOCKS && i < |ss|
    ensures Known(Reserved(ss[i], k))
    decreases i
  {
    if i > 0 {
      var j := i - 1;
      RunReserved(g, ss, acts, j, k);
      RunSafe(g, ss, acts, j);
      assert Within(ss[i], k);
      var s, a, s' := ss[j], acts[j], ss[i];
      assert Enabled(g, s, a) && s' == Apply(g, s, a) by {
        assert StepAt(g, ss, acts, j);
      }
      ReservedNext(g, s, a, s', k);
    }
  }

  // ---------- The panics of log.c ----------

  ghost predicate ReachableWithin(g: Geometry, s: State, k: nat) {
    exists ss, acts :: RunWithin(g, ss, acts, k) && ss[|acts|] == s
  }

  lemma ReachStep(g: Geometry, s: State, a: Action, k: nat)
    requires ReachableWithin(g, s, k) && Enabled(g, s, a) && Within(Apply(g, s, a), k)
    ensures ReachableWithin(g, Apply(g, s, a), k)
  {
    var ss, acts :| RunWithin(g, ss, acts, k) && ss[|acts|] == s;
    ExtendRun(g, ss, acts, a);
    var ss', acts' := ss + [Apply(g, s, a)], acts + [a];
    assert RunWithin(g, ss', acts', k) && ss'[|acts'|] == Apply(g, s, a);
  }

  /** How full the log can be while an operation is in progress. */
  lemma ReachedBound(g: Geometry, s: State, pid: nat, k: nat)
    requires ReachableWithin(g, s, k) && pid in s.ops && k <= MAXOPBLOCKS
    ensures |s.lh| + Budget(s.ops[pid], k) <= MAXOPBLOCKS + 2 * k && s.ops[pid].spent <= k
    ensures |s.lh| < g.size && (k == 0 ==> s.lh == [])
  {
    var ss, acts :| RunWithin(g, ss, acts, k) && ss[|acts|] == s;
    RunReserved(g, ss, acts, |acts|, k);
    RunSafe(g, ss, acts, |acts|);
    UnspentRemove(s.ops, pid, k);
  }

  /** With log.size > LOGSIZE, an operation within its reservation never meets the size test. */
  lemma NoPanicWithinReservation(g: Geometry, s: State, pid: nat)
    requires ReachableWithin(g, s, MAXOPBLOCKS) && g.size > LOGSIZE && pid in s.ops
    ensures s.ops[pid].spent < MAXOPBLOCKS ==> !TooBig(g, s)
  {
    ReachedBound(g, s, pid, MAXOPBLOCKS);
  }

  /** In no run at all does an operation find the transaction closed or a commit under way. */
  lemma NoPanicInOperation(g: Geometry, ss: seq<State>, acts: seq<Action>, pid: nat)
    requires Run(g, ss, acts) && pid in ss[|acts|].ops
    ensures ss[|acts|].outstanding >= 1 && !ss[|acts|].committing
  {
    OperationStep(g, ss, acts, pid);
  }

  // ---------- Filling the log ----------

  /** A disk with an empty log, and enough different blocks outside it. */
  ghost predicate Stocked(g: Geometry, d: Disk, hs: seq<nat>) {
    && ValidLog(g, d) && HeaderCount(d[g.start]) == 0
    && NoDup(hs) && AllHome(g, d, hs) && |hs| >= LOGSIZE
  }

  function Zeros(bs: seq<nat>): map<nat, Block> {
    if bs == [] then map[] else Zeros(bs[..|bs| - 1])[bs[|bs| - 1] := ZeroBlock()]
  }

  /** The log lists the first n of hs and the operations ops are in progress. */
  function Filled(g: Geometry, d: Disk, hs: seq<nat>, n: nat, ops: map<nat, Op>): State
    requires Fits(g, d) && n <= |hs|
  {
    State(ClearHeader(g, d), Zeros(hs[..n]), hs[..n], |ops|, false, false, Running, ops, 0)
  }

  /** One more block by operation pid. */
  lemma FillOne(g: Geometry, d: Disk, hs: seq<nat>, n: nat, ops: map<nat, Op>, pid: nat)
    requires Stocked(g, d, hs) && n < |hs| && n < Capacity(g.size) && pid in ops
    ensures var s, a := Filled(g, d, hs, n, ops), LogWrite(pid, hs[n], ZeroBlock());
      && Enabled(g, s, a)
      && Apply(g, s, a) == Filled(g, d, hs, n + 1, ops[pid := ops[pid].(spent := ops[pid].spent + 1)])
  {
    TooManyIs(g.size, n);
    assert hs[..n + 1] == hs[..n] + [hs[n]];
    assert hs[..n + 1][..n] == hs[..n];
    assert hs[n] !in hs[..n];
    assert ops.Keys != {};
    assert ops[pid := ops[pid].(spent := ops[pid].spent + 1)].Keys == ops.Keys;
  }

  /** And it is reached if the operation may log it. */
  lemma FillReach(g: Geometry, d: Disk, hs: seq<nat>, n: nat, ops: map<nat, Op>, pid: nat, ops': map<nat, Op>, k: nat)
    requires Stocked(g, d, hs) && n < |hs| && n < Capacity(g.size) && pid in ops
    requires ops' == ops[pid := ops[pid].(spent := ops[pid].spent + 1)] && forall p :: p in ops' ==> ops'[p].spent <= k
    requires ReachableWithin(g, Filled(g, d, hs, n, ops), k)
    ensures ReachableWithin(g, Filled(g, d, hs, n + 1, ops'), k)
  {
    var s, a, s' := Filled(g, d, hs, n, ops), LogWrite(pid, hs[n], ZeroBlock()), Filled(g, d, hs, n + 1, ops');
    FillOne(g, d, hs, n, ops, pid);
    assert Within(s', k);
    ReachStep(g, s, a, k);
  }

  function Idle(): map<nat, Op> {
    map[0 := Op(0, 0)]
  }

  lemma EarlyEmpty(g: Geometry, d: Disk, hs: seq<nat>, k: nat)
    requires Stocked(g, d, hs)
    ensures ReachableWithin(g, Filled(g, d, hs, 0, Idle()), k)
  {
    var s0 := Boot(g, d, 0);
    assert s0.lh == [];
    var none: seq<Action> := [];
    assert RunWithin(g, [s0], none, k) && [s0][|none|] == s0;
    ReachStep(g, s0, DiskWrite, k);
    var s1 := Apply(g, s0, DiskWrite);
    ReachStep(g, s1, Begin(0), k);
    assert Apply(g, s1, Begin(0)) == Filled(g, d, hs, 0, Idle());
  }

  /** With one operation that logs nothing in progress, others come and go. */
  lemma EarlyStep(g: Geometry, d: Disk, hs: seq<nat>, n: nat, k: nat)
    requires Stocked(g, d, hs) && n < MAXOPBLOCKS && n < Capacity(g.size) && k >= 1
    requires ReachableWithin(g, Filled(g, d, hs, n, Idle()), k)
    ensures ReachableWithin(g, Filled(g, d, hs, n + 1, Idle()), k)
  {
    var both, spent := Idle()[1 := Op(0, 0)], Idle()[1 := Op(1, 0)];
    Comes(g, d, hs, n, k);
    assert both[1 := both[1].(spent := both[1].spent + 1)] == spent;
    FillReach(g, d, hs, n, both, 1, spent, k);
    Goes(g, d, hs, n + 1, k);
  }

  lemma Comes(g: Geometry, d: Disk, hs: seq<nat>, n: nat, k: nat)
    requires Stocked(g, d, hs) && n < MAXOPBLOCKS && ReachableWithin(g, Filled(g, d, hs, n, Idle()), k)
    ensures ReachableWithin(g, Filled(g, d, hs, n, Idle()[1 := Op(0, 0)]), k)
  {
    var s := Filled(g, d, hs, n, Idle());
    assert Apply(g, s, Begin(1)) == Filled(g, d, hs, n, Idle()[1 := Op(0, 0)]);
    ReachStep(g, s, Begin(1), k);
  }

  lemma Goes(g: Geometry, d: Disk, hs: seq<nat>, n: nat, k: nat)
    requires Stocked(g, d, hs) && n <= |hs| && ReachableWithin(g, Filled(g, d, hs, n, Idle()[1 := Op(1, 0)]), k)
    ensures ReachableWithin(g, Filled(g, d, hs, n, Idle()), k)
  {
    var s := Filled(g, d, hs, n, Idle()[1 := Op(1, 0)]);
    assert s.ops - {1} == Idle();
    assert Apply(g, s, End(1)) == Filled(g, d, hs, n, Idle());
    ReachStep(g, s, End(1), k);
  }

  lemma {:induction false} EarlyReachable(g: Geometry, d: Disk, hs: seq<nat>, n: nat, k: nat)
    requires Stocked(g, d, hs) && n <= MAXOPBLOCKS && n <= Capacity(g.size) && k >= 1
    ensures ReachableWithin(g, Filled(g, d, hs, n, Idle()), k)
  {
    if n == 0 {
      EarlyEmpty(g, d, hs, k);
    } else {
      var m := n - 1;
      EarlyReachable(g, d, hs, m, k);
      EarlyStep(g, d, hs, m, k);
    }
  }

  /** Then a second one is let in beside it, and both log j blocks together. */
  function Late(j: nat, k: nat): map<nat, Op> {
    if j <= k then map[0 := Op(j, 0), 1 := Op(0, 0)] else map[0 := Op(k, 0), 1 := Op(j - k, 0)]
  }

  lemma LateOn(j: nat, k: nat)
    requires j < 2 * k
    ensures var ops, pid := Late(j, k), if j < k then 0 else 1;
      pid in ops && ops[pid := ops[pid].(spent := ops[pid].spent + 1)] == Late(j + 1, k)
  {
  }

  lemma LateStart(g: Geometry, d: Disk, hs: seq<nat>, k: nat)
    requires Stocked(g, d, hs) && ReachableWithin(g, Filled(g, d, hs, MAXOPBLOCKS, Idle()), k)
    ensures ReachableWithin(g, Filled(g, d, hs, MAXOPBLOCKS, Late(0, k)), k)
  {
    var s := Filled(g, d, hs, MAXOPBLOCKS, Idle());
    assert Idle()[1 := Op(0, 0)] == Late(0, k);
    assert Apply(g, s, Begin(1)) == Filled(g, d, hs, MAXOPBLOCKS, Late(0, k));
    ReachStep(g, s, Begin(1), k);
  }

  ghost predicate LateReached(g: Geometry, d: Disk, hs: seq<nat>, n: nat, j: nat, k: nat) {
    Fits(g, d) && n <= |hs| && ReachableWithin(g, Filled(g, d, hs, n, Late(j, k)), k)
  }

  lemma LateStep(g: Geometry, d: Disk, hs: seq<nat>, n: nat, j: nat, k: nat)
    requires Stocked(g, d, hs) && n == MAXOPBLOCKS + j < Capacity(g.size) && j < 2 * k
    requires LateReached(g, d, hs, n, j, k)
    ensures LateReached(g, d, hs, n + 1, j + 1, k)
  {
    var ops, pid, ops' := Late(j, k), if j < k then 0 else 1, Late(j + 1, k);
    LateOn(j, k);
    FillReach(g, d, hs, n, ops, pid, ops', k);
  }

  lemma {:induction false} LateReachable(g: Geometry, d: Disk, hs: seq<nat>, n: nat, j: nat, k: nat)
    requires Stocked(g, d, hs) && n == MAXOPBLOCKS + j <= Capacity(g.size) && j <= 2 * k && k >= 1
    ensures LateReached(g, d, hs, n, j, k)
    decreases j
  {
    if j == 0 {
      EarlyReachable(g, d, hs, MAXOPBLOCKS, k);
      LateStart(g, d, hs, k);
    } else {
      var m, i := n - 1, j - 1;
      LateReachable(g, d, hs, m, i, k);
      LateStep(g, d, hs, m, i, k);
    }
  }

  /** The log can be filled as far as it goes, with an operation in progress, up to MAXOPBLOCKS + 2 * k blocks; and
      short of that one of them may still log more. */
  lemma Fill(g: Geometry, d: Disk, hs: seq<nat>, n: nat, k: nat) returns (s: State, pid: nat)
    requires Stocked(g, d, hs) && n <= Capacity(g.size) && n <= MAXOPBLOCKS + 2 * k && k >= 1
    ensures ReachableWithin(g, s, k) && s.lh == hs[..n] && pid in s.ops
    ensures n < MAXOPBLOCKS + 2 * k ==> s.ops[pid].spent < k
  {
    if n <= MAXOPBLOCKS {
      s, pid := Filled(g, d, hs, n, Idle()), 0;
      EarlyReachable(g, d, hs, n, k);
    } else {
      var j := n - MAXOPBLOCKS;
      s, pid := Filled(g, d, hs, n, Late(j, k)), 1;
      LateReachable(g, d, hs, n, j, k);
    }
  }

  /** Every operation that may log k new blocks can log the next one whenever it has not yet logged k. */
  ghost predicate NewBlocksFit(g: Geometry, k: nat) {
    forall s, pid :: ReachableWithin(g, s, k) && pid in s.ops && s.ops[pid].spent < k ==> !TooBig(g, s)
  }

  /** A newly logged block never hits "too big a transaction" exactly when the operations are held to no more than
      begin_op reserves for them and the log is large enough for what it lets in; with k = MAXOPBLOCKS that is
      log.size > LOGSIZE, and mkfs lays the disk out with log.size = LOGSIZE. */
  lemma NewBlocksFitIff(g: Geometry, d: Disk, hs: seq<nat>, k: nat)
    requires Stocked(g, d, hs)
    ensures NewBlocksFit(g, k) <==> k == 0 || (k <= MAXOPBLOCKS && g.size > MAXOPBLOCKS + 2 * k)
  {
    if k <= MAXOPBLOCKS && g.size > MAXOPBLOCKS + 2 * k {
      forall s, pid | ReachableWithin(g, s, k) && pid in s.ops && s.ops[pid].spent < k
        ensures !TooBig(g, s)
      {
        ReachedBound(g, s, pid, k);
      }
    } else if k > 0 {
      var n := Capacity(g.size);
      var s, pid := Fill(g, d, hs, n, k);
      TooManyIs(g.size, n);
      assert s.ops[pid].spent < k && TooBig(g, s);
    }
  }

  /** A full log panics on rewriting a block that is already in it. */
  lemma AbsorbedWriteCanPanic(g: Geometry, d: Disk, hs: seq<nat>) returns (s: State, pid: nat)
    requires Stocked(g, d, hs) && g.size > 1
    ensures ReachableWithin(g, s, MAXOPBLOCKS) && pid in s.ops && hs[0] in s.lh && TooBig(g, s)
  {
    var n := Capacity(g.size);
    s, pid := Fill(g, d, hs, n, MAXOPBLOCKS);
    TooManyIs(g.size, n);
    assert s.lh[0] == hs[0];
  }

  /** A block that is already in the log is never refused, though it needs no space. */
  ghost predicate AbsorbedBlocksFit(g: Geometry, k: nat) {
    forall s, pid, b :: ReachableWithin(g, s, k) && pid in s.ops && b in s.lh ==> !TooBig(g, s)
  }

  /** The size test also runs before log absorption. It spares blocks already logged exactly when the operations
      cannot fill the log, which takes fewer new blocks each than begin_op reserves and one block of log more; or when
      nothing can be logged at all. */
  lemma AbsorbedBlocksFitIff(g: Geometry, d: Disk, hs: seq<nat>, k: nat)
    requires Stocked(g, d, hs)
    ensures AbsorbedBlocksFit(g, k) <==> k == 0 || g.size == 1 || (k < MAXOPBLOCKS && g.size > MAXOPBLOCKS + 2 * k + 1)
  {
    if k == 0 || g.size == 1 || (k < MAXOPBLOCKS && g.size > MAXOPBLOCKS + 2 * k + 1) {
      forall s, pid, b | ReachableWithin(g, s, k) && pid in s.ops && b in s.lh
        ensures !TooBig(g, s)
      {
        if k <= MAXOPBLOCKS {
          ReachedBound(g, s, pid, k);
        } else {
          ReachedSmall(g, s, k);
        }
      }
    } else {
      var n := Capacity(g.size);
      var s, pid := Fill(g, d, hs, n, k);
      TooManyIs(g.size, n);
      assert s.lh[0] == hs[0];
      assert hs[0] in s.lh && TooBig(g, s);
    }
  }

  lemma ReachedSmall(g: Geometry, s: State, k: nat)
    requires ReachableWithin(g, s, k)
    ensures |s.lh| < g.size
  {
    var ss, acts :| RunWithin(g, ss, acts, k) && ss[|acts|] == s;
    RunSafe(g, ss, acts, |acts|);
  }
}
