/** The file layer's record against the log protocol: the calls of log_write that an operation makes go through
    exactly when the record says that none was refused. */
module LogFit {
  import opened Common
  import opened BlockWords
  import opened WriteTrace
  import opened Log
  import opened LogProtocol
  import FileState
  import FileSystem

  /** The calls one after another by an operation in progress; None when one of them is the panic. */
  function Calls(g: Geometry, s: State, pid: nat, t: Trace): Option<State> {
    match t
    case Began => Some(s)
    case Then(t0, b, data) =>
      match Calls(g, s, pid, t0)
      case None => None
      case Some(s0) => if Enabled(g, s0, LogWrite(pid, b, data)) then Some(Apply(g, s0, LogWrite(pid, b, data))) else None
  }

  /** The calls are for blocks outside the log area. */
  predicate CallsHome(g: Geometry, d: Disk, t: Trace) {
    t.Then? ==> CallsHome(g, d, t.before) && Home(g, d, t.b)
  }

  lemma CallListed(g: Geometry, s: State, pid: nat, b: nat, data: Block)
    requires Inv(g, s) && Enabled(g, s, LogWrite(pid, b, data))
    ensures var s' := Apply(g, s, LogWrite(pid, b, data));
      && Inv(g, s') && pid in s'.ops && s'.disk == s.disk && s'.outstanding == s.outstanding
      && SetOf(s'.lh) == SetOf(s.lh) + {b}
  {
    InvStep(g, s, LogWrite(pid, b, data));
    SetOfMore(s.lh, b);
  }

  lemma OneCall(g: Geometry, s: State, pid: nat, b: nat, data: Block)
    requires Inv(g, s) && pid in s.ops && s.outstanding >= 1 && Home(g, s.disk, b)
    ensures Enabled(g, s, LogWrite(pid, b, data)) <==> !TooMany(g.size, |SetOf(s.lh)|)
    ensures Enabled(g, s, LogWrite(pid, b, data)) ==>
      var s' := Apply(g, s, LogWrite(pid, b, data));
      && Inv(g, s') && pid in s'.ops && s'.disk == s.disk && s'.outstanding >= 1
      && SetOf(s'.lh) == SetOf(s.lh) + {b}
  {
    SetOfSize(s.lh);
    if Enabled(g, s, LogWrite(pid, b, data)) {
      CallListed(g, s, pid, b, data);
    }
  }

  lemma {:induction false} CallsThrough(g: Geometry, s: State, pid: nat, d: Disk, t: Trace)
    requires Inv(g, s) && pid in s.ops && s.outstanding >= 1 && CallsHome(g, s.disk, t)
    ensures var r, o := Effect(g.size, d, SetOf(s.lh), t), Calls(g, s, pid, t);
      && (o.Some? <==> !r.refused)
      && (o.Some? ==> Inv(g, o.value) && pid in o.value.ops && o.value.outstanding >= 1 && o.value.disk == s.disk)
      && (o.Some? ==> SetOf(o.value.lh) == r.lh)
  {
    if t.Then? {
      CallsThrough(g, s, pid, d, t.before);
      var o := Calls(g, s, pid, t.before);
      if o.Some? {
        OneCall(g, o.value, pid, t.b, t.data);
      }
    }
  }

  /** What the file layer calls refused is the panic of the protocol: from any state of the log with the blocks that it
      was told of, its calls go through to the end if and only if it was not refused. */
  lemma RefusedIsPanic(disk: FileSystem.FileSys, g: Geometry, s: State, pid: nat)
    requires disk.Coupled() && g.size == disk.nlog && SetOf(s.lh) == disk.lh0
    requires Inv(g, s) && pid in s.ops && s.outstanding >= 1 && CallsHome(g, s.disk, disk.trace)
    ensures Calls(g, s, pid, disk.trace).Some? <==> !disk.refused
  {
    CallsThrough(g, s, pid, disk.base, disk.trace);
  }
}
