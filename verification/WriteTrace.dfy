/** The blocks that an operation passes to log_write, in order, and what they do to the disk and to the log. */
module WriteTrace {
  import opened BlockWords
  import opened Common
  import Log

  /** A block number and the contents it is given. */
  type Write = (nat, Block)

  /** The calls of log_write since begin_op. */
  datatype Trace = Began | Then(before: Trace, b: nat, data: Block)

  /** The disk after the calls, the blocks passed on, the blocks in the log, and whether the test for too big a
      transaction has been met. */
  datatype Outcome = Outcome(disk: Disk, touched: set<nat>, lh: set<nat>, refused: bool)

  /** The calls from a disk on, with the blocks lh0 of others already in a log of nlog blocks. The test comes before
      absorption, so a block that is in the log meets it as well. */
  ghost function Effect(nlog: nat, disk: Disk, lh0: set<nat>, t: Trace): Outcome {
    match t
    case Began => Outcome(disk, {}, lh0, false)
    case Then(t0, b, data) =>
      var r := Effect(nlog, disk, lh0, t0);
      Outcome(if b < |r.disk| then r.disk[b := data] else r.disk, r.touched + {b}, r.lh + {b},
              r.refused || Log.TooMany(nlog, |r.lh|))
  }

  /** Once met, the test goes on being met: the last call decides. */
  lemma {:induction false} RefusedStays(nlog: nat, disk: Disk, lh0: set<nat>, t: Trace)
    ensures var r := Effect(nlog, disk, lh0, t); r.refused ==> Log.TooMany(nlog, |r.lh|)
  {
    if t.Then? {
      var r0, r := Effect(nlog, disk, lh0, t.before), Effect(nlog, disk, lh0, t);
      RefusedStays(nlog, disk, lh0, t.before);
      SubsetSize(r0.lh, r.lh);
    }
  }

  lemma {:induction false} LogLists(nlog: nat, disk: Disk, lh0: set<nat>, t: Trace)
    ensures var r := Effect(nlog, disk, lh0, t); r.lh == lh0 + r.touched
  {
    if t.Then? {
      LogLists(nlog, disk, lh0, t.before);
    }
  }

  // ---------- As a sequence ----------

  function ListOf(t: Trace): seq<Write> {
    match t
    case Began => []
    case Then(t0, b, data) => ListOf(t0) + [(b, data)]
  }

  function Store(d: Disk, ws: seq<Write>): (r: Disk)
    ensures |r| == |d|
  {
    if ws == [] then d
    else
      var r, w := Store(d, ws[..|ws| - 1]), ws[|ws| - 1];
      if w.0 < |r| then r[w.0 := w.1] else r
  }

  lemma {:induction false} EffectStores(nlog: nat, disk: Disk, lh0: set<nat>, t: Trace)
    ensures Effect(nlog, disk, lh0, t).disk == Store(disk, ListOf(t))
  {
    if t.Then? {
      EffectStores(nlog, disk, lh0, t.before);
      assert ListOf(t)[..|ListOf(t)| - 1] == ListOf(t.before);
    }
  }
}
