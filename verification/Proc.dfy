/** fork, exit, wait, sleep and wakeup of proc.c over every interleaving: each section that runs
    under ptable.lock is one step, and so is each unlocked store that others can see. */
module Proc {

  datatype PState = UNUSED | EMBRYO | SLEEPING | RUNNABLE | RUNNING | ZOMBIE

  /** What a process sleeps on: a process-table slot (in wait) or anything else. */
  datatype Chan = NoChan | OfProc(slot: nat) | Other(id: nat)

  /** A slot number, or none (a null pointer). */
  datatype Ref = Null | Slot(slot: nat)

  datatype Process = Process(state: PState, pid: nat, parent: Ref, chan: Chan)

  type Table = seq<Process>

  /** `forking` maps a process inside fork() to the EMBRYO slot it is filling in.  `exited` and
      `reaped` record the pids that have called exit and that wait has returned. */
  datatype State = State(procs: Table, init: nat, nextpid: nat, forking: map<nat, nat>,
                         exited: set<nat>, reaped: seq<nat>)

  // ---------- What the loops of proc.c compute ----------

  function Wake(p: Process, chan: Chan): Process {
    if p.state.SLEEPING? && p.chan == chan then p.(state := RUNNABLE) else p
  }

  /** wakeup1 */
  function Wakened(ps: Table, chan: Chan): (r: Table)
    ensures |r| == |ps|
  {
    seq(|ps|, i requires 0 <= i < |ps| => Wake(ps[i], chan))
  }

  function Adopt(p: Process, from: nat, to: nat): Process {
    if p.parent == Slot(from) then p.(parent := Slot(to)) else p
  }

  function Adopted(ps: Table, from: nat, to: nat): (r: Table)
    ensures |r| == |ps|
  {
    seq(|ps|, i requires 0 <= i < |ps| => Adopt(ps[i], from, to))
  }

  predicate ZombieChild(ps: Table, p: nat, c: nat)
    requires c < |ps|
  {
    ps[c].parent == Slot(p) && ps[c].state.ZOMBIE?
  }

  /** exit() from its acquire to its jump into the scheduler. */
  function Exited(ps: Table, p: nat, init: nat): Table
    requires p < |ps|
  {
    var woken := match ps[p].parent case Slot(q) => Wakened(ps, OfProc(q)) case Null => ps;
    var adopted := Adopted(woken, p, init);
    var all := if exists c :: 0 <= c < |ps| && ZombieChild(ps, p, c) then Wakened(adopted, OfProc(init)) else adopted;
    all[p := all[p].(state := ZOMBIE)]
  }

  /** wait()'s release of a zombie's slot. */
  function Reaped(ps: Table, c: nat): Table
    requires c < |ps|
  {
    ps[c := Process(UNUSED, 0, Null, ps[c].chan)]
  }

  // ---------- Steps ----------

  datatype Action =
    | AllocProc(p: nat, child: nat)
    | ForkFail(p: nat)
    | ForkParent(p: nat)
    | ForkDone(p: nat)
    | Exit(p: nat)
    | WaitReap(p: nat, child: nat)
    | WaitNone(p: nat)
    | WaitSleep(p: nat)
    | Schedule(p: nat)
    | Yield(p: nat)
    | Sleep(p: nat, id: nat)
    | Wakeup(id: nat)

  predicate Runs(s: State, p: nat) {
    p < |s.procs| && s.procs[p].state.RUNNING?
  }

  predicate Enabled(s: State, a: Action) {
    match a
    case AllocProc(p, child) => Runs(s, p) && p !in s.forking && child < |s.procs| && s.procs[child].state.UNUSED?
    case ForkFail(p) => p in s.forking && s.forking[p] < |s.procs| && s.procs[s.forking[p]].parent.Null?
    case ForkParent(p) => p in s.forking && s.forking[p] < |s.procs|
    case ForkDone(p) => p in s.forking && s.forking[p] < |s.procs| && s.procs[s.forking[p]].parent == Slot(p)
    case Exit(p) => Runs(s, p) && p !in s.forking && p != s.init
    case WaitReap(p, child) =>
      Runs(s, p) && p !in s.forking && child < |s.procs| && ZombieChild(s.procs, p, child)
    case WaitNone(p) =>
      Runs(s, p) && p !in s.forking && forall c :: 0 <= c < |s.procs| ==> s.procs[c].parent != Slot(p)
    case WaitSleep(p) =>
      Runs(s, p) && p !in s.forking && forall c :: 0 <= c < |s.procs| ==> !ZombieChild(s.procs, p, c)
    case Schedule(p) => p < |s.procs| && s.procs[p].state.RUNNABLE?
    case Yield(p) => Runs(s, p)
    case Sleep(p, _) => Runs(s, p)
    case Wakeup(_) => true
  }

  function Apply(s: State, a: Action): State
    requires Enabled(s, a)
  {
    match a
    case AllocProc(p, c) =>
      s.(procs := s.procs[c := s.procs[c].(state := EMBRYO, pid := s.nextpid)],
         nextpid := s.nextpid + 1, forking := s.forking[p := c])
    case ForkFail(p) =>
      var c := s.forking[p];
      s.(procs := s.procs[c := s.procs[c].(state := UNUSED)], forking := s.forking - {p})
    case ForkParent(p) =>
      var c := s.forking[p];
      s.(procs := s.procs[c := s.procs[c].(parent := Slot(p))])
    case ForkDone(p) =>
      var c := s.forking[p];
      s.(procs := s.procs[c := s.procs[c].(state := RUNNABLE)], forking := s.forking - {p})
    case Exit(p) =>
      s.(procs := Exited(s.procs, p, s.init), exited := s.exited + {s.procs[p].pid})
    case WaitReap(p, c) =>
      s.(procs := Reaped(s.procs, c), reaped := s.reaped + [s.procs[c].pid])
    case WaitNone(p) => s
    case WaitSleep(p) =>
      s.(procs := s.procs[p := s.procs[p].(state := SLEEPING, chan := OfProc(p))])
    case Schedule(p) => s.(procs := s.procs[p := s.procs[p].(state := RUNNING)])
    case Yield(p) => s.(procs := s.procs[p := s.procs[p].(state := RUNNABLE)])
    case Sleep(p, id) =>
      s.(procs := s.procs[p := s.procs[p].(state := SLEEPING, chan := Other(id))])
    case Wakeup(id) => s.(procs := Wakened(s.procs, Other(id)))
  }

  // ---------- Invariant ----------

  predicate Live(p: Process) {
    p.state.SLEEPING? || p.state.RUNNABLE? || p.state.RUNNING?
  }

  /** Nobody sleeps in wait with a zombie child, and nobody else sleeps on a slot. */
  predicate NoSleepingParent(ps: Table, c: nat)
    requires c < |ps|
  {
    && (ps[c].state.ZOMBIE? && ps[c].parent.Slot? && ps[c].parent.slot < |ps| ==>
          var q := ps[ps[c].parent.slot]; !(q.state.SLEEPING? && q.chan == OfProc(ps[c].parent.slot)))
    && (ps[c].state.SLEEPING? && ps[c].chan.OfProc? ==> ps[c].chan == OfProc(c))
  }

  /** A process other than init has a parent, another slot, that can still wait for it. */
  predicate HasParent(ps: Table, init: nat, c: nat)
    requires c < |ps|
  {
    && (ps[c].state.UNUSED? ==> ps[c].parent.Null?)
    && ((Live(ps[c]) || ps[c].state.ZOMBIE?) && c != init ==>
          ps[c].parent.Slot? && ps[c].parent.slot < |ps| && ps[c].parent.slot != c && Live(ps[ps[c].parent.slot]))
  }

  /** EMBRYO slots are exactly those being filled in by a live process. */
  predicate ForkOk(s: State, p: nat)
    requires p in s.forking
  {
    var c := s.forking[p];
    && p < |s.procs| && c < |s.procs| && Live(s.procs[p])
    && s.procs[c].state.EMBRYO? && (s.procs[c].parent.Null? || s.procs[c].parent == Slot(p))
  }

  predicate PidOk(s: State, c: nat)
    requires c < |s.procs|
  {
    var q := s.procs[c];
    !q.state.UNUSED? ==>
      && q.pid < s.nextpid && q.pid !in s.reaped
      && (q.pid in s.exited <==> q.state.ZOMBIE?)
  }

  predicate Distinct(ps: Table, c: nat, d: nat)
    requires c < |ps| && d < |ps|
  {
    c != d && !ps[c].state.UNUSED? && !ps[d].state.UNUSED? ==> ps[c].pid != ps[d].pid
  }

  predicate SlotOk(s: State, c: nat)
    requires c < |s.procs|
  {
    NoSleepingParent(s.procs, c) && HasParent(s.procs, s.init, c) && PidOk(s, c)
  }

  predicate Inv(s: State) {
    && s.init < |s.procs| && Live(s.procs[s.init])
    && (forall c {:trigger SlotOk(s, c)} :: 0 <= c < |s.procs| ==> SlotOk(s, c))
    && (forall c, d {:trigger Distinct(s.procs, c, d)} ::
          0 <= c < |s.procs| && 0 <= d < |s.procs| ==> Distinct(s.procs, c, d))
    && ForksOk(s) && RecordOk(s)
  }

  predicate ForksOk(s: State) {
    && (forall p {:trigger ForkOk(s, p)} :: p in s.forking ==> ForkOk(s, p))
    && (forall p, q :: p in s.forking && q in s.forking && p != q ==> s.forking[p] != s.forking[q])
    && (forall c :: 0 <= c < |s.procs| && s.procs[c].state.EMBRYO? ==> exists p :: p in s.forking && s.forking[p] == c)
  }

  /** Pids are returned by wait at most once, and only after exit. */
  predicate RecordOk(s: State) {
    && (forall pid :: pid in s.exited ==> pid < s.nextpid)
    && (forall i :: 0 <= i < |s.reaped| ==> s.reaped[i] in s.exited)
    && (forall i, j :: 0 <= i < j < |s.reaped| ==> s.reaped[i] != s.reaped[j])
  }

  lemma AllocKeepsInv(s: State, p: nat, c: nat)
    requires Inv(s) && Enabled(s, AllocProc(p, c))
    ensures Inv(Apply(s, AllocProc(p, c)))
  {
    var s' := Apply(s, AllocProc(p, c));
    forall d | 0 <= d < |s'.procs| ensures SlotOk(s', d) {
      assert SlotOk(s, d) && SlotOk(s, c);
    }
    forall d, e | 0 <= d < |s'.procs| && 0 <= e < |s'.procs| ensures Distinct(s'.procs, d, e) {
      assert Distinct(s.procs, d, e) && SlotOk(s, d) && SlotOk(s, e);
    }
    forall q | q in s'.forking ensures ForkOk(s', q) {
      assert q != p ==> ForkOk(s, q);
      assert SlotOk(s, c);
    }
    assert p in s'.forking && s'.forking[p] == c;
    forall d | 0 <= d < |s'.procs| && s'.procs[d].state.EMBRYO?
      ensures exists q :: q in s'.forking && s'.forking[q] == d
    {
      if d != c {
        var q :| q in s.forking && s.forking[q] == d;
        assert q in s'.forking && s'.forking[q] == d;
      }
    }
    forall q, r | q in s'.forking && r in s'.forking && q != r ensures s'.forking[q] != s'.forking[r] {
      assert q != p ==> ForkOk(s, q);
      assert r != p ==> ForkOk(s, r);
    }
  }

  lemma ForkFailKeepsInv(s: State, p: nat)
    requires Inv(s) && Enabled(s, ForkFail(p))
    ensures Inv(Apply(s, ForkFail(p)))
  {
    var s', c := Apply(s, ForkFail(p)), s.forking[p];
    assert ForkOk(s, p);
    forall d | 0 <= d < |s'.procs| ensures SlotOk(s', d) {
      assert SlotOk(s, d) && SlotOk(s, c);
    }
    forall d, e | 0 <= d < |s'.procs| && 0 <= e < |s'.procs| ensures Distinct(s'.procs, d, e) {
      assert Distinct(s.procs, d, e);
    }
    FewerForks(s, s', p);
  }

  /** Taking a finished fork off the record. */
  lemma FewerForks(s: State, s': State, p: nat)
    requires ForksOk(s) && p in s.forking && s'.forking == s.forking - {p} && |s'.procs| == |s.procs|
    requires s.forking[p] < |s.procs| && !s'.procs[s.forking[p]].state.EMBRYO?
    requires s.procs[s.forking[p]].state.EMBRYO?
    requires forall d :: 0 <= d < |s.procs| && d != s.forking[p] ==> s'.procs[d] == s.procs[d]
    ensures ForksOk(s')
  {
    forall q | q in s'.forking ensures ForkOk(s', q) {
      assert ForkOk(s, q);
    }
    forall d | 0 <= d < |s'.procs| && s'.procs[d].state.EMBRYO?
      ensures exists q :: q in s'.forking && s'.forking[q] == d
    {
      var q :| q in s.forking && s.forking[q] == d;
      assert q in s'.forking && s'.forking[q] == d;
    }
  }

  lemma ForkParentKeepsInv(s: State, p: nat)
    requires Inv(s) && Enabled(s, ForkParent(p))
    ensures Inv(Apply(s, ForkParent(p)))
  {
    var s', c := Apply(s, ForkParent(p)), s.forking[p];
    assert ForkOk(s, p);
    forall d | 0 <= d < |s'.procs| ensures SlotOk(s', d) {
      assert SlotOk(s, d);
    }
    forall d, e | 0 <= d < |s'.procs| && 0 <= e < |s'.procs| ensures Distinct(s'.procs, d, e) {
      assert Distinct(s.procs, d, e);
    }
    forall q | q in s'.forking ensures ForkOk(s', q) {
      assert ForkOk(s, q);
    }
    forall d | 0 <= d < |s'.procs| && s'.procs[d].state.EMBRYO?
      ensures exists q :: q in s'.forking && s'.forking[q] == d
    {
      assert s.procs[d].state.EMBRYO?;
    }
  }

  lemma ForkDoneKeepsInv(s: State, p: nat)
    requires Inv(s) && Enabled(s, ForkDone(p))
    ensures Inv(Apply(s, ForkDone(p)))
  {
    var s', c := Apply(s, ForkDone(p)), s.forking[p];
    assert ForkOk(s, p);
    forall d | 0 <= d < |s'.procs| ensures SlotOk(s', d) {
      assert SlotOk(s, d) && SlotOk(s, c);
    }
    forall d, e | 0 <= d < |s'.procs| && 0 <= e < |s'.procs| ensures Distinct(s'.procs, d, e) {
      assert Distinct(s.procs, d, e);
    }
    FewerForks(s, s', p);
  }

  lemma ReapKeepsInv(s: State, p: nat, c: nat)
    requires Inv(s) && Enabled(s, WaitReap(p, c))
    ensures Inv(Apply(s, WaitReap(p, c)))
  {
    var s' := Apply(s, WaitReap(p, c));
    assert SlotOk(s, c);
    forall d | 0 <= d < |s'.procs| ensures SlotOk(s', d) {
      assert SlotOk(s, d) && Distinct(s.procs, c, d);
    }
    forall d, e | 0 <= d < |s'.procs| && 0 <= e < |s'.procs| ensures Distinct(s'.procs, d, e) {
      assert Distinct(s.procs, d, e);
    }
    forall q | q in s'.forking ensures ForkOk(s', q) {
      assert ForkOk(s, q);
    }
    assert forall d :: 0 <= d < |s'.procs| && s'.procs[d].state.EMBRYO? ==> s.procs[d].state.EMBRYO?;
  }

  /** A slot is unchanged, or stays live under the same pid and parent; if it is asleep on a slot
      afterwards, that slot is its own and it has no zombie child. */
  predicate Relived(ps: Table, ps': Table, i: nat)
    requires i < |ps| == |ps'|
  {
    ps'[i] == ps[i] ||
    (Live(ps[i]) && Live(ps'[i]) && ps'[i].pid == ps[i].pid && ps'[i].parent == ps[i].parent &&
     (ps'[i].state.SLEEPING? && ps'[i].chan.OfProc? ==>
        ps'[i].chan == OfProc(i) && forall c :: 0 <= c < |ps| ==> !ZombieChild(ps, i, c)))
  }

  lemma ReliveKeepsInv(s: State, ps': Table)
    requires Inv(s) && |ps'| == |s.procs| && forall i :: 0 <= i < |ps'| ==> Relived(s.procs, ps', i)
    ensures Inv(s.(procs := ps'))
  {
    var ps, s' := s.procs, s.(procs := ps');
    assert Relived(ps, ps', s.init);
    forall d | 0 <= d < |ps'| ensures SlotOk(s', d) {
      assert SlotOk(s, d) && Relived(ps, ps', d);
      if ps[d].parent.Slot? && ps[d].parent.slot < |ps| {
        assert Relived(ps, ps', ps[d].parent.slot);
        if ps[d].state.ZOMBIE? {
          assert ZombieChild(ps, ps[d].parent.slot, d);
        }
      }
    }
    forall d, e | 0 <= d < |ps'| && 0 <= e < |ps'| ensures Distinct(ps', d, e) {
      assert Distinct(ps, d, e) && Relived(ps, ps', d) && Relived(ps, ps', e);
    }
    forall q | q in s'.forking ensures ForkOk(s', q) {
      assert ForkOk(s, q) && Relived(ps, ps', q) && Relived(ps, ps', s.forking[q]);
    }
    forall d | 0 <= d < |ps'| && ps'[d].state.EMBRYO?
      ensures exists q :: q in s'.forking && s'.forking[q] == d
    {
      assert Relived(ps, ps', d);
      assert ps[d].state.EMBRYO?;
    }
  }

  lemma WakenedKeepsInv(s: State, chan: Chan)
    requires Inv(s)
    ensures Inv(s.(procs := Wakened(s.procs, chan)))
  {
    forall i | 0 <= i < |s.procs| ensures Relived(s.procs, Wakened(s.procs, chan), i) {
    }
    ReliveKeepsInv(s, Wakened(s.procs, chan));
  }

  /** Passing p's children to init keeps the invariant once init is awake if one is a zombie. */
  lemma AdoptedKeepsInv(s: State, p: nat)
    requires Inv(s) && p !in s.forking && p != s.init
    requires forall c :: 0 <= c < |s.procs| && ZombieChild(s.procs, p, c) ==>
      !(s.procs[s.init].state.SLEEPING? && s.procs[s.init].chan == OfProc(s.init))
    ensures Inv(s.(procs := Adopted(s.procs, p, s.init)))
  {
    var ps, s' := s.procs, s.(procs := Adopted(s.procs, p, s.init));
    forall d | 0 <= d < |ps| ensures SlotOk(s', d) {
      assert SlotOk(s, d);
      assert ps[d].state.ZOMBIE? && ps[d].parent == Slot(p) ==> ZombieChild(ps, p, d);
    }
    forall d, e | 0 <= d < |ps| && 0 <= e < |ps| ensures Distinct(s'.procs, d, e) {
      assert Distinct(ps, d, e);
    }
    forall q | q in s'.forking ensures ForkOk(s', q) {
      assert ForkOk(s, q);
    }
    assert forall d :: 0 <= d < |ps| && s'.procs[d].state.EMBRYO? ==> ps[d].state.EMBRYO?;
  }

  /** A process without children whose parent is awake may become a zombie. */
  lemma ZombieKeepsInv(s: State, p: nat)
    requires Inv(s) && p < |s.procs| && s.procs[p].state.RUNNING? && p !in s.forking && p != s.init
    requires forall c :: 0 <= c < |s.procs| ==> s.procs[c].parent != Slot(p)
    requires forall q :: 0 <= q < |s.procs| && s.procs[p].parent == Slot(q) ==>
      !(s.procs[q].state.SLEEPING? && s.procs[q].chan == OfProc(q))
    ensures Inv(s.(procs := s.procs[p := s.procs[p].(state := ZOMBIE)], exited := s.exited + {s.procs[p].pid}))
  {
    var ps := s.procs;
    var s' := s.(procs := ps[p := ps[p].(state := ZOMBIE)], exited := s.exited + {ps[p].pid});
    assert SlotOk(s, p);
    forall d | 0 <= d < |ps| ensures SlotOk(s', d) {
      assert SlotOk(s, d) && Distinct(ps, p, d);
    }
    forall d, e | 0 <= d < |ps| && 0 <= e < |ps| ensures Distinct(s'.procs, d, e) {
      assert Distinct(ps, d, e);
    }
    forall q | q in s'.forking ensures ForkOk(s', q) {
      assert ForkOk(s, q);
    }
    assert forall d :: 0 <= d < |ps| && s'.procs[d].state.EMBRYO? ==> ps[d].state.EMBRYO?;
  }

  lemma WakeAdoptCommute(ps: Table, chan: Chan, from: nat, to: nat)
    ensures Wakened(Adopted(ps, from, to), chan) == Adopted(Wakened(ps, chan), from, to)
  {
  }

  /** The table after exit's wakeups, with init woken before rather than during the adoption. */
  ghost function Awake(ps: Table, p: nat, init: nat): (r: Table)
    requires p < |ps| && ps[p].parent.Slot?
    ensures |r| == |ps|
  {
    var woken := Wakened(ps, OfProc(ps[p].parent.slot));
    if exists c :: 0 <= c < |ps| && ZombieChild(ps, p, c) then Wakened(woken, OfProc(init)) else woken
  }

  lemma ExitedByStages(ps: Table, p: nat, init: nat)
    requires p < |ps| && ps[p].parent.Slot?
    ensures var r := Adopted(Awake(ps, p, init), p, init);
      Exited(ps, p, init) == r[p := r[p].(state := ZOMBIE)]
  {
    WakeAdoptCommute(Wakened(ps, OfProc(ps[p].parent.slot)), OfProc(init), p, init);
  }

  lemma AwakeKeepsInv(s: State, p: nat)
    requires Inv(s) && p < |s.procs| && s.procs[p].parent.Slot?
    ensures Inv(s.(procs := Awake(s.procs, p, s.init)))
  {
    var s1 := s.(procs := Wakened(s.procs, OfProc(s.procs[p].parent.slot)));
    WakenedKeepsInv(s, OfProc(s.procs[p].parent.slot));
    WakenedKeepsInv(s1, OfProc(s.init));
  }

  lemma ExitKeepsInv(s: State, p: nat)
    requires Inv(s) && Enabled(s, Exit(p))
    ensures Inv(Apply(s, Exit(p)))
  {
    assert SlotOk(s, p);
    var ps := Awake(s.procs, p, s.init);
    var s2 := s.(procs := ps);
    AwakeKeepsInv(s, p);
    forall c | 0 <= c < |ps| && ZombieChild(ps, p, c)
      ensures !(ps[s.init].state.SLEEPING? && ps[s.init].chan == OfProc(s.init))
    {
      assert ZombieChild(s.procs, p, c);
    }
    AdoptedKeepsInv(s2, p);
    ZombieKeepsInv(s2.(procs := Adopted(ps, p, s.init)), p);
    ExitedByStages(s.procs, p, s.init);
  }

  lemma ScheduleKeepsInv(s: State, a: Action)
    requires Inv(s) && Enabled(s, a)
    requires a.WaitNone? || a.WaitSleep? || a.Schedule? || a.Yield? || a.Sleep? || a.Wakeup?
    ensures Inv(Apply(s, a))
  {
    if a.Wakeup? {
      WakenedKeepsInv(s, Other(a.id));
    } else if !a.WaitNone? {
      var ps' := Apply(s, a).procs;
      forall i | 0 <= i < |ps'| ensures Relived(s.procs, ps', i) {
      }
      ReliveKeepsInv(s, ps');
    }
  }

  lemma InvStep(s: State, a: Action)
    requires Inv(s) && Enabled(s, a)
    ensures Inv(Apply(s, a))
  {
    match a
    case AllocProc(p, c) => AllocKeepsInv(s, p, c);
    case ForkFail(p) => ForkFailKeepsInv(s, p);
    case ForkParent(p) => ForkParentKeepsInv(s, p);
    case ForkDone(p) => ForkDoneKeepsInv(s, p);
    case Exit(p) => ExitKeepsInv(s, p);
    case WaitReap(p, c) => ReapKeepsInv(s, p, c);
    case _ => ScheduleKeepsInv(s, a);
  }

  // ---------- Whole runs ----------

  /** userinit: init alone, RUNNABLE with pid 1, in an otherwise empty table. */
  predicate Boot(s: State) {
    && s.init < |s.procs| && s.nextpid == 2 && s.forking == map[] && s.exited == {} && s.reaped == []
    && s.procs[s.init] == Process(RUNNABLE, 1, Null, NoChan)
    && forall c :: 0 <= c < |s.procs| && c != s.init ==> s.procs[c] == Process(UNUSED, 0, Null, NoChan)
  }

  predicate StepAt(ss: seq<State>, acts: seq<Action>, i: nat)
    requires i < |acts| < |ss|
  {
    Enabled(ss[i], acts[i]) && ss[i + 1] == Apply(ss[i], acts[i])
  }

  predicate Run(ss: seq<State>, acts: seq<Action>) {
    && |ss| == |acts| + 1 && Boot(ss[0])
    && forall i {:trigger StepAt(ss, acts, i)} :: 0 <= i < |acts| ==> StepAt(ss, acts, i)
  }

  lemma {:induction false} RunSafe(ss: seq<State>, acts: seq<Action>, k: nat)
    requires Run(ss, acts) && k < |ss|
    ensures Inv(ss[k])
  {
    if k > 0 {
      RunSafe(ss, acts, k - 1);
      assert StepAt(ss, acts, k - 1);
      InvStep(ss[k - 1], acts[k - 1]);
    }
  }

  /** Over every run, at every moment when the table's lock is free: a process asleep in wait has no
      zombie child, and every process but init has a parent that can still wait for it. */
  lemma NoLostExit(ss: seq<State>, acts: seq<Action>, k: nat, c: nat)
    requires Run(ss, acts) && k < |ss| && c < |ss[k].procs|
    requires var p := ss[k].procs[c]; (Live(p) || p.state.ZOMBIE?) && c != ss[k].init
    ensures var ps := ss[k].procs;
      && ps[c].parent.Slot? && ps[c].parent.slot < |ps| && Live(ps[ps[c].parent.slot])
      && (ps[c].state.ZOMBIE? ==>
            !(ps[ps[c].parent.slot].state.SLEEPING? && ps[ps[c].parent.slot].chan == OfProc(ps[c].parent.slot)))
  {
    RunSafe(ss, acts, k);
    assert SlotOk(ss[k], c);
  }

  /** Over every run: wait returns each pid at most once, and only after that process exited. */
  lemma WaitReturnsEachExitOnce(ss: seq<State>, acts: seq<Action>, i: nat, j: nat)
    requires Run(ss, acts) && i < j < |acts| && acts[i].WaitReap? && acts[j].WaitReap?
    requires acts[i].child < |ss[i].procs| && acts[j].child < |ss[j].procs|
    ensures ss[i].procs[acts[i].child].pid in ss[i].exited
    ensures ss[i].procs[acts[i].child].pid != ss[j].procs[acts[j].child].pid
  {
    RunSafe(ss, acts, i);
    RunSafe(ss, acts, j);
    assert StepAt(ss, acts, i) && StepAt(ss, acts, j);
    assert SlotOk(ss[i], acts[i].child) && SlotOk(ss[j], acts[j].child);
    ReapedGrows(ss, acts, i + 1, j);
    assert ss[i + 1].reaped[|ss[i].reaped|] == ss[i].procs[acts[i].child].pid;
  }

  lemma {:induction false} ReapedGrows(ss: seq<State>, acts: seq<Action>, i: nat, j: nat)
    requires Run(ss, acts) && i <= j < |ss|
    ensures ss[i].reaped <= ss[j].reaped
  {
    if i < j {
      ReapedGrows(ss, acts, i, j - 1);
      assert StepAt(ss, acts, j - 1);
    }
  }

  // ---------- The loops over ptable.proc ----------

  /** What one pass of wait finds: a child to reap, no children at all, or a reason to sleep. */
  datatype WaitResult = Found(pid: nat, child: nat) | NoKids | Slept

  /** The adoption loop after k slots. */
  ghost function AdoptedTo(ps: Table, from: nat, to: nat, k: nat): (r: Table)
    requires k <= |ps|
    ensures |r| == |ps|
  {
    seq(|ps|, i requires 0 <= i < |ps| => if i < k then Adopt(ps[i], from, to) else ps[i])
  }

  /** The whole adoption loop, with its wakeups of init in the middle, after k slots. */
  ghost function AdoptingTo(ps: Table, from: nat, to: nat, k: nat): (r: Table)
    requires k <= |ps|
    ensures |r| == |ps|
  {
    var a := AdoptedTo(ps, from, to, k);
    if exists c :: 0 <= c < k && ZombieChild(ps, from, c) then Wakened(a, OfProc(to)) else a
  }

  lemma AdoptingStep(ps: Table, from: nat, to: nat, k: nat)
    requires k < |ps|
    ensures var a, b := AdoptingTo(ps, from, to, k), AdoptingTo(ps, from, to, k + 1);
      && a[k].parent == ps[k].parent && (a[k].state.ZOMBIE? <==> ps[k].state.ZOMBIE?)
      && (ps[k].parent != Slot(from) ==> b == a)
      && (ps[k].parent == Slot(from) && !ps[k].state.ZOMBIE? ==> b == a[k := a[k].(parent := Slot(to))])
      && (ZombieChild(ps, from, k) ==> b == Wakened(a[k := a[k].(parent := Slot(to))], OfProc(to)))
  {
    var a, b := AdoptingTo(ps, from, to, k), AdoptingTo(ps, from, to, k + 1);
    var a1 := AdoptedTo(ps, from, to, k + 1);
    if ZombieChild(ps, from, k) {
      assert b == Wakened(a1, OfProc(to));
    } else {
      assert (exists c :: 0 <= c < k + 1 && ZombieChild(ps, from, c)) <==>
             (exists c :: 0 <= c < k && ZombieChild(ps, from, c));
    }
  }

  class Ptable {
    var proc: array<Process>
    var nextpid: nat
    const initproc: nat

    constructor (n: nat, init: nat)
      requires init < n
      ensures fresh(proc) && initproc == init
      ensures Boot(State(proc[..], init, nextpid, map[], {}, []))
    {
      proc := new Process[n](i => if i == init then Process(RUNNABLE, 1, Null, NoChan)
                                  else Process(UNUSED, 0, Null, NoChan));
      initproc, nextpid := init, 2;
    }

    /** allocproc's locked section: the first UNUSED slot becomes an EMBRYO with a new pid. */
    method AllocProc() returns (r: Ref)
      modifies this`nextpid, proc
      ensures r.Null? ==> nextpid == old(nextpid) && proc[..] == old(proc[..])
      ensures r.Null? ==> forall c :: 0 <= c < proc.Length ==> !proc[c].state.UNUSED?
      ensures r.Slot? ==> r.slot < proc.Length && nextpid == old(nextpid) + 1
      ensures r.Slot? ==> old(proc[..])[r.slot].state.UNUSED?
      ensures r.Slot? ==> forall c :: 0 <= c < r.slot ==> !old(proc[..])[c].state.UNUSED?
      ensures r.Slot? ==>
        proc[..] == old(proc[..])[r.slot := old(proc[..])[r.slot].(state := EMBRYO, pid := old(nextpid))]
    {
      var p := 0;
      while p < proc.Length
        invariant 0 <= p <= proc.Length
        invariant forall c :: 0 <= c < p ==> !proc[c].state.UNUSED?
      {
        if proc[p].state.UNUSED? {
          proc[p] := proc[p].(state := EMBRYO, pid := nextpid);
          nextpid := nextpid + 1;
          return Slot(p);
        }
        p := p + 1;
      }
      return Null;
    }

    /** wakeup1 */
    method Wakeup1(chan: Chan)
      modifies proc
      ensures proc[..] == Wakened(old(proc[..]), chan)
      ensures forall i :: 0 <= i < proc.Length ==>
        proc[i] == if old(proc[i]).state == SLEEPING && old(proc[i]).chan == chan
                   then Process(RUNNABLE, old(proc[i]).pid, old(proc[i]).parent, chan) else old(proc[i])
    {
      var p := 0;
      while p < proc.Length
        invariant 0 <= p <= proc.Length
        invariant forall i :: 0 <= i < p ==> proc[i] == Wake(old(proc[i]), chan)
        invariant forall i :: p <= i < proc.Length ==> proc[i] == old(proc[i])
      {
        if proc[p].state.SLEEPING? && proc[p].chan == chan {
          proc[p] := proc[p].(state := RUNNABLE);
        }
        p := p + 1;
      }
    }

    /** exit's pass over the table that hands its children to init. */
    method PassChildren(me: nat)
      modifies proc
      ensures proc[..] == AdoptingTo(old(proc[..]), me, initproc, proc.Length)
    {
      ghost var ps := proc[..];
      var p := 0;
      assert AdoptingTo(ps, me, initproc, 0) == ps;
      while p < proc.Length
        invariant 0 <= p <= proc.Length
        invariant proc[..] == AdoptingTo(ps, me, initproc, p)
      {
        AdoptingStep(ps, me, initproc, p);
        ghost var a := proc[..];
        assert proc[p] == a[p];
        if proc[p].parent == Slot(me) {
          proc[p] := proc[p].(parent := Slot(initproc));
          assert proc[..] == a[p := a[p].(parent := Slot(initproc))];
          if proc[p].state.ZOMBIE? {
            Wakeup1(OfProc(initproc));
          }
        }
        p := p + 1;
      }
    }

    /** exit under ptable.lock. */
    method Exit(me: nat)
      requires me < proc.Length
      modifies proc
      ensures proc[..] == Exited(old(proc[..]), me, initproc)
      ensures forall i :: 0 <= i < proc.Length ==> AfterExit(old(proc[..]), me, initproc, i, proc[i])
    {
      if proc[me].parent.Slot? {
        Wakeup1(OfProc(proc[me].parent.slot));
      }
      ghost var w := proc[..];
      PassChildren(me);
      WholeAdoption(old(proc[..]), w, me, initproc);
      proc[me] := proc[me].(state := ZOMBIE);
      ExitedIs(old(proc[..]), me, initproc);
    }

    /** One pass of wait's loop, ending in a return or in sleep. */
    method WaitPass(me: nat) returns (r: WaitResult)
      requires me < proc.Length
      modifies proc
      ensures r.Found? ==> r.child < proc.Length && ZombieChild(old(proc[..]), me, r.child)
      ensures r.Found? ==> r.pid == old(proc[..])[r.child].pid && proc[..] == Reaped(old(proc[..]), r.child)
      ensures r.Found? ==> proc[r.child] == Process(UNUSED, 0, Null, old(proc[..])[r.child].chan)
      ensures r.Found? ==> forall c :: 0 <= c < proc.Length && c != r.child ==> proc[c] == old(proc[..])[c]
      ensures r.NoKids? <==> forall c :: 0 <= c < proc.Length ==> old(proc[..])[c].parent != Slot(me)
      ensures r.NoKids? ==> proc[..] == old(proc[..])
      ensures r.Slept? ==> forall c :: 0 <= c < proc.Length ==> !ZombieChild(old(proc[..]), me, c)
      ensures r.Slept? ==>
        proc[..] == old(proc[..])[me := old(proc[..])[me].(state := SLEEPING, chan := OfProc(me))]
    {
      var havekids := false;
      ghost var ps := proc[..];
      var p := 0;
      while p < proc.Length
        invariant 0 <= p <= proc.Length && proc[..] == ps
        invariant havekids <==> exists c :: 0 <= c < p && ps[c].parent == Slot(me)
        invariant forall c :: 0 <= c < p ==> !ZombieChild(ps, me, c)
      {
        assert proc[p] == ps[p];
        if proc[p].parent == Slot(me) {
          havekids := true;
          if proc[p].state.ZOMBIE? {
            var pid := proc[p].pid;
            proc[p] := Process(UNUSED, 0, Null, proc[p].chan);
            return Found(pid, p);
          }
        }
        p := p + 1;
      }
      if !havekids {
        return NoKids;
      }
      proc[me] := proc[me].(state := SLEEPING, chan := OfProc(me));
      return Slept;
    }
  }

  /** Who has gone to sleep in wait and must look again when process p exits: its parent, and init if it gets a zombie. */
  predicate Expects(ps: Table, p: nat, init: nat, chan: Chan)
    requires p < |ps|
  {
    || (ps[p].parent.Slot? && chan == OfProc(ps[p].parent.slot))
    || (chan == OfProc(init) && exists c :: 0 <= c < |ps| && ps[c].parent == Slot(p) && ps[c].state == ZOMBIE)
  }

  /** Slot i after the exit of p: p itself is a zombie, its children are init's, those who wait for it are awake, and
      nothing else has changed. */
  predicate AfterExit(ps: Table, p: nat, init: nat, i: nat, q: Process)
    requires p < |ps| && i < |ps|
  {
    && q.pid == ps[i].pid && q.chan == ps[i].chan
    && q.parent == (if ps[i].parent == Slot(p) then Slot(init) else ps[i].parent)
    && q.state ==
         if i == p then ZOMBIE
         else if ps[i].state == SLEEPING && Expects(ps, p, init, ps[i].chan) then RUNNABLE else ps[i].state
  }

  lemma ExitedIs(ps: Table, p: nat, init: nat)
    requires p < |ps|
    ensures |Exited(ps, p, init)| == |ps|
    ensures forall i :: 0 <= i < |ps| ==> AfterExit(ps, p, init, i, Exited(ps, p, init)[i])
  {
    forall c | 0 <= c < |ps|
      ensures ZombieChild(ps, p, c) <==> ps[c].parent == Slot(p) && ps[c].state == ZOMBIE
    {
    }
    if c :| 0 <= c < |ps| && ps[c].parent == Slot(p) && ps[c].state == ZOMBIE {
      assert ZombieChild(ps, p, c);
    }
  }

  lemma WholeAdoption(ps: Table, w: Table, me: nat, init: nat)
    requires me < |ps|
    requires w == match ps[me].parent case Slot(q) => Wakened(ps, OfProc(q)) case Null => ps
    ensures var all := AdoptingTo(w, me, init, |w|);
      Exited(ps, me, init) == all[me := all[me].(state := ZOMBIE)]
  {
    assert AdoptedTo(w, me, init, |w|) == Adopted(w, me, init);
    assert forall c :: 0 <= c < |ps| ==> ZombieChild(w, me, c) == ZombieChild(ps, me, c);
  }
}
