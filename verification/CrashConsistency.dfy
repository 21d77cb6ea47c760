/** The log and the file layer together: what a crash leaves on the disk is a consistent file system, and an
    operation is there as a whole or not at all. */
module CrashConsistency {
  import opened Common
  import opened BlockWords
  import FileModel
  import FileState
  import FileSystem
  import opened DiskImage
  import opened WriteTrace
  import opened Log
  import opened LogProtocol

  type Geo = FileState.Geo
  type Fs = FileModel.Fs

  /** The disk layout: the log lies before the inodes. */
  predicate LogBelow(g: Geometry, geo: Geo) {
    g.start + g.size <= geo.inodestart
  }

  /** Every operation of the file layer that keeps its validity leaves its state on the disk. */
  lemma ValidHolds(disk: FileSystem.FileSys)
    requires disk.Valid()
    ensures Holds(disk.g, disk.blocks, disk.fs)
  {
  }

  /** A disk with the home blocks of another holds the same file system. */
  lemma MaskHolds(g: Geometry, geo: Geo, d: Disk, r: Disk, fs: Fs)
    requires Holds(geo, d, fs) && LogBelow(g, geo) && Mask(g, r) == Mask(g, d)
    ensures Holds(geo, r, fs)
  {
    assert |r| == |Mask(g, r)| == |d|;
    forall b | geo.inodestart <= b < |d|
      ensures r[b] == d[b]
    {
      assert Mask(g, r)[b] == r[b] && Mask(g, d)[b] == d[b];
    }
    SameHomeHolds(geo, d, r, fs);
  }

  lemma MaskTwice(g: Geometry, d: Disk)
    ensures Mask(g, Mask(g, d)) == Mask(g, d)
  {
  }

  /** The disk after recovery, apart from the log area, is the durable contents. */
  lemma RecoveredConsistent(g: Geometry, geo: Geo, d: Disk)
    requires ValidLog(g, d) && LogBelow(g, geo) && Consistent(geo, Durable(g, d))
    ensures Consistent(geo, Recovered(g, d))
  {
    var fs :| Holds(geo, Durable(g, d), fs);
    MaskTwice(g, Recovered(g, d));
    MaskHolds(g, geo, Durable(g, d), Recovered(g, d), fs);
  }

  /** If the file system is consistent whenever no operation is in progress, then after a crash at any moment
      of any run, recovery leaves a consistent disk. */
  lemma CrashLeavesConsistent(g: Geometry, geo: Geo, ss: seq<State>, acts: seq<Action>, k: nat)
    requires Run(g, ss, acts) && k < |ss| && LogBelow(g, geo)
    requires forall j {:trigger ss[j]} :: 0 <= j < |ss| && ss[j].ops.Keys == {} ==>
      ValidLog(g, ss[j].disk) && Consistent(geo, Abs(g, ss[j]).current)
    ensures ValidLog(g, ss[k].disk) && Consistent(geo, Recovered(g, ss[k].disk))
  {
    var j := DurableIsQuiescent(g, ss, acts, k);
    assert ss[j].ops.Keys == {};
    RecoveredConsistent(g, geo, ss[k].disk);
  }

  // ---------- One operation ----------

  /** What the file system reads after the logged writes among acts. */
  function Updated(c: Disk, acts: seq<Action>): (r: Disk)
    ensures |r| == |c|
  {
    if acts == [] then c
    else
      var r := Updated(c, acts[..|acts| - 1]);
      match acts[|acts| - 1]
      case LogWrite(_, b, data) => if b < |r| then r[b := data] else r
      case _ => r
  }

  /** The part of a run in which process pid alone performs an operation: n is where it ends. */
  predicate Alone(acts: seq<Action>, pid: nat, n: nat) {
    && 0 < n < |acts| && acts[0] == Begin(pid) && acts[n] == End(pid)
    && (forall j :: 1 <= j < n ==> (acts[j].LogWrite? && acts[j].pid == pid) || acts[j].DiskWrite? || acts[j].Release?)
    && (forall j :: n < j < |acts| ==> acts[j].DiskWrite? || acts[j].Release? || acts[j].Crash?)
  }

  lemma {:induction false} DuringOperation(ps: seq<Spec>, acts: seq<Action>, pid: nat, n: nat, k: nat)
    requires SpecRun(ps, acts) && Alone(acts, pid, n) && 1 <= k <= n
    ensures ps[k].active == {pid} && ps[k].durable == ps[0].current
    ensures ps[k].current == Updated(ps[0].current, acts[1..k])
    decreases k
  {
    if k == 1 {
      assert SpecNext(ps[0], acts[0], ps[1]);
    } else {
      DuringOperation(ps, acts, pid, n, k - 1);
      assert SpecNext(ps[k - 1], acts[k - 1], ps[k]);
      assert acts[1..k][..k - 2] == acts[1..k - 1] && acts[1..k][k - 2] == acts[k - 1];
    }
  }

  lemma {:induction false} AfterOperation(ps: seq<Spec>, acts: seq<Action>, pid: nat, n: nat, k: nat)
    requires SpecRun(ps, acts) && Alone(acts, pid, n) && n < k < |ps|
    ensures ps[k].active == {}
    ensures ps[k].durable == ps[0].current || ps[k].durable == ps[n].current
    ensures ps[k].current == ps[n].current || ps[k].current == ps[k].durable
    decreases k
  {
    if k == n + 1 {
      DuringOperation(ps, acts, pid, n, n);
      assert SpecNext(ps[n], acts[n], ps[k]);
    } else {
      AfterOperation(ps, acts, pid, n, k - 1);
      assert SpecNext(ps[k - 1], acts[k - 1], ps[k]);
    }
  }

  /** An operation run from an idle machine is atomic: at every moment until the next one begins, whatever
      writes and crashes come, recovery would leave the contents from before it or those with all its writes;
      and from before it until end_op. */
  lemma OperationIsAtomic(g: Geometry, ss: seq<State>, acts: seq<Action>, i: nat, pid: nat, n: nat, k: nat)
    requires Run(g, ss, acts) && i < |acts| && i <= k < |ss|
    requires ss[i].phase.Running? && ss[i].lh == [] && ss[i].ops.Keys == {}
    requires Alone(acts[i..], pid, n)
    ensures ValidLog(g, ss[i].disk) && ValidLog(g, ss[k].disk)
    ensures var before := Abs(g, ss[i]).current;
      var after := Updated(before, acts[i..][1..n]);
      && (Durable(g, ss[k].disk) == before || Durable(g, ss[k].disk) == after)
      && (k <= i + n ==> Durable(g, ss[k].disk) == before)
  {
    var ps := AbsRun(g, ss, acts);
    RunSafe(g, ss, acts, i);
    DurableWhenIdle(g, ss[i]);
    var qs, bs := ps[i..], acts[i..];
    assert SpecRun(qs, bs);
    DuringOperation(qs, bs, pid, n, n);
    if k > i + n {
      AfterOperation(qs, bs, pid, n, k - i);
    } else if k > i {
      DuringOperation(qs, bs, pid, n, k - i);
    }
  }

  /** A run in which process pid, from an idle machine at i on, performs one operation that ends at i + n; k is a
      moment in it or after it. */
  ghost predicate Performs(g: Geometry, ss: seq<State>, acts: seq<Action>, i: nat, pid: nat, n: nat, k: nat) {
    && Run(g, ss, acts) && i < |acts| && i <= k < |ss|
    && ss[i].phase.Running? && ss[i].lh == [] && ss[i].ops.Keys == {} && ValidLog(g, ss[i].disk)
    && Alone(acts[i..], pid, n)
  }

  /** So an operation that takes one consistent image to another leaves a consistent disk wherever a crash
      cuts it off. */
  lemma OperationLeavesConsistent(g: Geometry, geo: Geo, ss: seq<State>, acts: seq<Action>, i: nat, pid: nat, n: nat,
                                  k: nat)
    requires Performs(g, ss, acts, i, pid, n, k) && LogBelow(g, geo)
    requires Consistent(geo, Abs(g, ss[i]).current)
    requires Consistent(geo, Updated(Abs(g, ss[i]).current, acts[i..][1..n]))
    ensures ValidLog(g, ss[k].disk) && Consistent(geo, Recovered(g, ss[k].disk))
  {
    OperationIsAtomic(g, ss, acts, i, pid, n, k);
    RecoveredConsistent(g, geo, ss[k].disk);
  }

  // ---------- An operation of the file layer ----------

  /** The blocks that the log_write calls among acts pass on, in order. */
  function Writes(acts: seq<Action>): seq<Write> {
    if acts == [] then []
    else
      var ws := Writes(acts[..|acts| - 1]);
      match acts[|acts| - 1]
      case LogWrite(_, b, data) => ws + [(b, data)]
      case _ => ws
  }

  lemma MaskPut(g: Geometry, d: Disk, w: Write)
    requires w.0 < |d| && !InLog(g, w.0)
    ensures Mask(g, d[w.0 := w.1]) == Mask(g, d)[w.0 := w.1]
  {
  }

  /** The log layer's contents follow the file layer's blocks. */
  lemma {:induction false} UpdatedIsStored(g: Geometry, d: Disk, acts: seq<Action>)
    requires forall j :: 0 <= j < |acts| && acts[j].LogWrite? ==> !InLog(g, acts[j].b)
    ensures Updated(Mask(g, d), acts) == Mask(g, Store(d, Writes(acts)))
    decreases |acts|
  {
    if acts != [] {
      var n := |acts| - 1;
      UpdatedIsStored(g, d, acts[..n]);
      if acts[n].LogWrite? {
        var ws, w: Write := Writes(acts[..n]), (acts[n].b, acts[n].data);
        assert (ws + [w])[..|ws|] == ws;
        if w.0 < |d| {
          MaskPut(g, Store(d, ws), w);
        }
      }
    }
  }

  lemma WritesAtHome(g: Geometry, ss: seq<State>, acts: seq<Action>, i: nat, n: nat)
    requires Run(g, ss, acts) && i + n <= |acts| && 1 <= n
    ensures forall j :: 0 <= j < n - 1 && acts[i..][1..n][j].LogWrite? ==> !InLog(g, acts[i..][1..n][j].b)
  {
    forall j | 0 <= j < n - 1 && acts[i..][1..n][j].LogWrite?
      ensures !InLog(g, acts[i..][1..n][j].b)
    {
      assert acts[i..][1..n][j] == acts[i + 1 + j];
      assert StepAt(g, ss, acts, i + 1 + j);
    }
  }

  /** An operation that takes a disk that holds fs0 to one that holds fs1 by the blocks it passes to log_write:
      wherever a crash cuts it off, recovery leaves the one file system or the other, and the first until end_op. */
  lemma OperationSurvives(g: Geometry, geo: Geo, ss: seq<State>, acts: seq<Action>, i: nat, pid: nat, n: nat, k: nat,
                          d0: Disk, d1: Disk, fs0: Fs, fs1: Fs)
    requires Performs(g, ss, acts, i, pid, n, k) && LogBelow(g, geo)
    requires Holds(geo, d0, fs0) && Holds(geo, d1, fs1)
    requires Abs(g, ss[i]).current == Mask(g, d0) && d1 == Store(d0, Writes(acts[i..][1..n]))
    ensures ValidLog(g, ss[k].disk)
    ensures Holds(geo, Recovered(g, ss[k].disk), fs0) || Holds(geo, Recovered(g, ss[k].disk), fs1)
    ensures k <= i + n ==> Holds(geo, Recovered(g, ss[k].disk), fs0)
  {
    OperationIsAtomic(g, ss, acts, i, pid, n, k);
    WritesAtHome(g, ss, acts, i, n);
    UpdatedIsStored(g, d0, acts[i..][1..n]);
    var r := Recovered(g, ss[k].disk);
    if Durable(g, ss[k].disk) == Mask(g, d0) {
      MaskHolds(g, geo, d0, r, fs0);
    } else {
      MaskHolds(g, geo, d1, r, fs1);
    }
  }

  /** The file system found on the recovered disk has all files as before the operation or all as after it. */
  lemma OperationRecovered(g: Geometry, geo: Geo, ss: seq<State>, acts: seq<Action>, i: nat, pid: nat, n: nat, k: nat,
                           d0: Disk, d1: Disk, fs0: Fs, fs1: Fs, fs: Fs)
    requires Performs(g, ss, acts, i, pid, n, k) && LogBelow(g, geo)
    requires Holds(geo, d0, fs0) && Holds(geo, d1, fs1)
    requires Abs(g, ss[i]).current == Mask(g, d0) && d1 == Store(d0, Writes(acts[i..][1..n]))
    requires ValidLog(g, ss[k].disk) && Holds(geo, Recovered(g, ss[k].disk), fs)
    ensures OneOf(fs0, fs1, fs)
  {
    OperationSurvives(g, geo, ss, acts, i, pid, n, k, d0, d1, fs0, fs1);
    var r := Recovered(g, ss[k].disk);
    if Holds(geo, r, fs0) {
      HoldsOne(geo, r, fs0, fs);
    } else {
      HoldsOne(geo, r, fs1, fs);
    }
  }

  /** For writei: after a crash at any moment the file reads its old bytes or those with src patched in at off,
      never anything between, and every other file what it did. */
  lemma WriteSurvives(g: Geometry, geo: Geo, ss: seq<State>, acts: seq<Action>, i: nat, pid: nat, n: nat, k: nat,
                      d0: Disk, d1: Disk, fs0: Fs, fs1: Fs, fs: Fs, f: nat, off: nat, src: seq<Byte>, j: nat)
    requires Performs(g, ss, acts, i, pid, n, k) && LogBelow(g, geo)
    requires Holds(geo, d0, fs0) && Holds(geo, d1, fs1)
    requires Abs(g, ss[i]).current == Mask(g, d0) && d1 == Store(d0, Writes(acts[i..][1..n]))
    requires ValidLog(g, ss[k].disk) && Holds(geo, Recovered(g, ss[k].disk), fs)
    requires Known(FileState.WroteFile(fs0, fs1, f, off, src)) && j < geo.ninodes
    ensures f < |fs0.table| && off <= fs0.table[f].size <= FileModel.MAXBYTES && fs0.table[j].size <= FileModel.MAXBYTES
    ensures f < |fs.table| && fs.table[f].size <= FileModel.MAXBYTES && fs.table[j].size <= FileModel.MAXBYTES
    ensures var c, c' := FileModel.Contents(fs0, f), FileModel.Contents(fs, f);
      c' == c || c' == FileModel.Patch(c, off, src)
    ensures j != f ==> FileModel.Contents(fs, j) == FileModel.Contents(fs0, j)
  {
    OperationRecovered(g, geo, ss, acts, i, pid, n, k, d0, d1, fs0, fs1, fs);
    HoldsSize(geo, d0, fs0, j);
    WriteRecovered(fs0, fs1, fs, f, off, src, j);
  }

  /** Every operation of the file layer that ends with its state valid is such an operation: the blocks it passed to
      log_write since begin_op take the disk it found then, which held fs0, to the disk it left. */
  lemma FileOperationSurvives(disk: FileSystem.FileSys, fs0: Fs, g: Geometry, ss: seq<State>, acts: seq<Action>, i: nat,
                              pid: nat, n: nat, k: nat, fs: Fs)
    requires disk.Valid() && Holds(disk.g, disk.base, fs0)
    requires Performs(g, ss, acts, i, pid, n, k) && LogBelow(g, disk.g)
    requires Abs(g, ss[i]).current == Mask(g, disk.base) && Writes(acts[i..][1..n]) == ListOf(disk.trace)
    requires ValidLog(g, ss[k].disk) && Holds(disk.g, Recovered(g, ss[k].disk), fs)
    ensures OneOf(fs0, disk.fs, fs)
  {
    EffectStores(disk.nlog, disk.base, disk.lh0, disk.trace);
    ValidHolds(disk);
    OperationRecovered(g, disk.g, ss, acts, i, pid, n, k, disk.base, disk.blocks, fs0, disk.fs, fs);
  }

  // ---------- An operation that is never finished ----------

  /** Process pid alone begins an operation that does not reach end_op: it may stop at a panic or anywhere, and
      crashes and recoveries may follow. */
  predicate NeverEnds(acts: seq<Action>, pid: nat) {
    && |acts| > 0 && acts[0] == Begin(pid)
    && forall j :: 1 <= j < |acts| ==> acts[j].LogWrite? || acts[j].DiskWrite? || acts[j].Release? || acts[j].Crash?
  }

  lemma {:induction false} NothingDurable(ps: seq<Spec>, acts: seq<Action>, pid: nat, k: nat)
    requires SpecRun(ps, acts) && NeverEnds(acts, pid) && k < |ps| && ps[0].durable == ps[0].current
    ensures ps[k].durable == ps[0].current
    ensures k >= 1 ==> pid in ps[k].active || (ps[k].current == ps[k].durable && ps[k].active == {})
    decreases k
  {
    if k > 0 {
      NothingDurable(ps, acts, pid, k - 1);
      assert SpecNext(ps[k - 1], acts[k - 1], ps[k]);
    }
  }

  /** Nothing of such an operation survives: at every moment recovery leaves the file system from before it. */
  lemma StoppedSurvives(g: Geometry, geo: Geo, ss: seq<State>, acts: seq<Action>, i: nat, pid: nat, k: nat, d0: Disk,
                        fs0: Fs)
    requires Run(g, ss, acts) && i < |acts| && i <= k < |ss| && LogBelow(g, geo)
    requires ss[i].phase.Running? && ss[i].lh == [] && ss[i].ops.Keys == {} && ValidLog(g, ss[i].disk)
    requires NeverEnds(acts[i..], pid) && Holds(geo, d0, fs0) && Abs(g, ss[i]).current == Mask(g, d0)
    ensures ValidLog(g, ss[k].disk) && Holds(geo, Recovered(g, ss[k].disk), fs0)
  {
    var ps := AbsRun(g, ss, acts);
    RunSafe(g, ss, acts, i);
    DurableWhenIdle(g, ss[i]);
    var qs, bs := ps[i..], acts[i..];
    assert SpecRun(qs, bs);
    NothingDurable(qs, bs, pid, k - i);
    MaskHolds(g, geo, d0, Recovered(g, ss[k].disk), fs0);
  }
}
