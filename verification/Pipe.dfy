/** pipe.c: a 512-byte ring with 32-bit wrapping counters, any number of readers and writers.
    Every stretch of code between taking the pipe's lock and releasing it or sleeping is one step. */
module Pipe {

  const PIPESIZE := 512
  const WRAP := 0x1_0000_0000

  type Byte = b: int | 0 <= b < 256

  /** The pipe as an unbounded stream: everything ever accepted from writers and everything ever
      delivered to readers.  `readers` and `writers` are the calls suspended in the middle, with
      what they still have to do; `sleepR` and `sleepW` are those asleep on nread and nwrite. */
  datatype Stream = Stream(accepted: seq<Byte>, delivered: seq<Byte>,
                           readopen: bool, writeopen: bool,
                           sleepR: set<nat>, sleepW: set<nat>,
                           readers: map<nat, nat>, writers: map<nat, seq<Byte>>)

  function Room(p: Stream): int {
    PIPESIZE - (|p.accepted| - |p.delivered|)
  }

  predicate Empty(p: Stream) {
    |p.accepted| == |p.delivered|
  }

  /** One locked stretch of pipewrite by a process with `src` left to write. */
  function WriteStep(p: Stream, pid: nat, src: seq<Byte>): Stream
    requires 0 <= Room(p)
  {
    var k := if |src| <= Room(p) then |src| else Room(p);
    var q := p.(accepted := p.accepted + src[..k]);
    if k == |src| then q.(sleepR := {}, writers := p.writers - {pid})
    else if !p.readopen then q.(writers := p.writers - {pid})
    else q.(sleepR := {}, sleepW := p.sleepW + {pid}, writers := p.writers[pid := src[k..]])
  }

  /** One locked stretch of piperead by a process that wants up to n bytes. */
  function ReadStep(p: Stream, pid: nat, n: nat): Stream
    requires |p.delivered| <= |p.accepted|
  {
    if Empty(p) && p.writeopen then
      p.(sleepR := p.sleepR + {pid}, readers := p.readers[pid := n])
    else
      p.(delivered := p.delivered + Readable(p, n), sleepW := {}, readers := p.readers - {pid})
  }

  /** The next n bytes in the pipe, or as many as there are. */
  function Readable(p: Stream, n: nat): seq<Byte>
    requires |p.delivered| <= |p.accepted|
  {
    var left := |p.accepted| - |p.delivered|;
    p.accepted[|p.delivered|..|p.delivered| + if n <= left then n else left]
  }

  /** pipeclose */
  function CloseStep(p: Stream, writable: bool): Stream {
    if writable then p.(writeopen := false, sleepR := {}) else p.(readopen := false, sleepW := {})
  }

  // ---------- Runs ----------

  datatype Action =
    | WriteCall(pid: nat, src: seq<Byte>)
    | WriteResume(pid: nat)
    | ReadCall(pid: nat, n: nat)
    | ReadResume(pid: nat)
    | Close(writable: bool)

  /** An end that a process is using has not been closed: its descriptor keeps the file referenced
      (file.c), so fileclose reaches pipeclose only when nobody is inside the corresponding call. */
  predicate Enabled(p: Stream, a: Action) {
    match a
    case WriteCall(pid, _) => p.writeopen && pid !in p.writers && pid !in p.readers
    case WriteResume(pid) => pid in p.writers && pid !in p.sleepW
    case ReadCall(pid, _) => p.readopen && pid !in p.writers && pid !in p.readers
    case ReadResume(pid) => pid in p.readers && pid !in p.sleepR
    case Close(true) => p.writeopen && p.writers == map[]
    case Close(false) => p.readopen && p.readers == map[]
  }

  function Next(p: Stream, a: Action): Stream
    requires Enabled(p, a) && Bounded(p)
  {
    match a
    case WriteCall(pid, src) => WriteStep(p, pid, src)
    case WriteResume(pid) => WriteStep(p, pid, p.writers[pid])
    case ReadCall(pid, n) => ReadStep(p, pid, n)
    case ReadResume(pid) => ReadStep(p, pid, p.readers[pid])
    case Close(writable) => CloseStep(p, writable)
  }

  predicate Bounded(p: Stream) {
    |p.delivered| <= |p.accepted| <= |p.delivered| + PIPESIZE
  }

  /** The bytes read are a prefix of the bytes accepted; nobody sleeps who could go on. */
  predicate Inv(p: Stream) {
    && Bounded(p)
    && p.delivered <= p.accepted
    && p.sleepR <= p.readers.Keys && p.sleepW <= p.writers.Keys
    && (p.readers != map[] ==> p.readopen) && (p.writers != map[] ==> p.writeopen)
    && (p.sleepR != {} ==> Empty(p) && p.writeopen)
    && (p.sleepW != {} ==> Room(p) == 0 && p.readopen)
    && (forall pid :: pid in p.writers ==> p.writers[pid] != [])
  }

  const Fresh := Stream([], [], true, true, {}, {}, map[], map[])

  lemma WriteKeepsInv(p: Stream, pid: nat, src: seq<Byte>)
    requires Inv(p) && p.writeopen && pid !in p.sleepW
    ensures Inv(WriteStep(p, pid, src))
  {
    var q := WriteStep(p, pid, src);
    assert p.accepted <= q.accepted;
    assert p.accepted[..|p.delivered|] == q.accepted[..|p.delivered|];
    if p.sleepW != {} {
      assert pid !in p.sleepW;
    }
  }

  lemma ReadKeepsInv(p: Stream, pid: nat, n: nat)
    requires Inv(p) && p.readopen && pid !in p.sleepR
    ensures Inv(ReadStep(p, pid, n))
  {
    if !(Empty(p) && p.writeopen) {
      var d := |p.delivered| + |Readable(p, n)|;
      assert p.delivered + Readable(p, n) == p.accepted[..d];
    }
  }

  lemma InvStep(p: Stream, a: Action)
    requires Inv(p) && Enabled(p, a)
    ensures Inv(Next(p, a))
  {
    match a
    case WriteCall(pid, src) => WriteKeepsInv(p, pid, src);
    case WriteResume(pid) => WriteKeepsInv(p, pid, p.writers[pid]);
    case ReadCall(pid, n) => ReadKeepsInv(p, pid, n);
    case ReadResume(pid) => ReadKeepsInv(p, pid, p.readers[pid]);
    case Close(_) =>
  }

  predicate Run(ps: seq<Stream>, acts: seq<Action>) {
    && |ps| == |acts| + 1 && ps[0] == Fresh
    && forall i :: 0 <= i < |acts| ==> Bounded(ps[i]) && Enabled(ps[i], acts[i]) && ps[i + 1] == Next(ps[i], acts[i])
  }

  /** In every run: FIFO order, at most 512 bytes in flight, and no lost wakeup. */
  lemma {:induction false} RunSafe(ps: seq<Stream>, acts: seq<Action>, k: nat)
    requires Run(ps, acts) && k < |ps|
    ensures Inv(ps[k])
  {
    if k > 0 {
      RunSafe(ps, acts, k - 1);
      InvStep(ps[k - 1], acts[k - 1]);
    }
  }

  // ---------- What a call has put into the stream ----------

  predicate Writes(a: Action, pid: nat) {
    (a.WriteCall? || a.WriteResume?) && a.pid == pid
  }

  /** The bytes that joined the stream between two moments. */
  function Added(p: Stream, q: Stream): seq<Byte> {
    if |p.accepted| <= |q.accepted| then q.accepted[|p.accepted|..] else []
  }

  /** The bytes that the steps i, ..., k - 1 of writer pid have added, one after another. */
  function Given(ps: seq<Stream>, acts: seq<Action>, pid: nat, i: nat, k: nat): seq<Byte>
    requires |ps| == |acts| + 1 && i <= k <= |acts|
  {
    if k == i then []
    else Given(ps, acts, pid, i, k - 1) + if Writes(acts[k - 1], pid) then Added(ps[k - 1], ps[k]) else []
  }

  /** Bytes join the stream at its end, and only by the steps of writers; they leave it in order, and only by those of
      readers. */
  lemma StreamStep(p: Stream, a: Action)
    requires Inv(p) && Enabled(p, a)
    ensures p.accepted <= Next(p, a).accepted && p.delivered <= Next(p, a).delivered
    ensures !a.WriteCall? && !a.WriteResume? ==> Next(p, a).accepted == p.accepted
    ensures !a.ReadCall? && !a.ReadResume? ==> Next(p, a).delivered == p.delivered
  {
  }

  /** After `got` of a call's bytes: they are a prefix, and with those left to write they are all; a call that has ended
      has written all, unless the reading end was closed. */
  predicate Progress(q: Stream, pid: nat, got: seq<Byte>, src: seq<Byte>) {
    && got <= src
    && (pid in q.writers ==> got + q.writers[pid] == src)
    && (pid !in q.writers ==> got == src || !q.readopen)
  }

  /** A step of the writer takes the front of what it has left to write. */
  lemma WriteOn(p: Stream, pid: nat, left: seq<Byte>, got: seq<Byte>, src: seq<Byte>)
    requires Inv(p) && got + left == src
    ensures var q := WriteStep(p, pid, left); Progress(q, pid, got + Added(p, q), src)
  {
    var q := WriteStep(p, pid, left);
    var k := if |left| <= Room(p) then |left| else Room(p);
    var more := left[..k];
    assert Added(p, q) == more;
    CutIn(got, left, k, src);
  }

  lemma CutIn(got: seq<Byte>, left: seq<Byte>, k: nat, src: seq<Byte>)
    requires got + left == src && k <= |left|
    ensures got + left[..k] <= src && got + left[..k] + left[k..] == src && (k == |left| ==> got + left[..k] == src)
  {
    assert left[..k] + left[k..] == left;
  }

  lemma OthersStay(p: Stream, a: Action, pid: nat)
    requires Inv(p) && Enabled(p, a) && pid in p.writers && !Writes(a, pid)
    ensures pid in Next(p, a).writers && Next(p, a).writers[pid] == p.writers[pid]
  {
  }

  lemma ProgressStep(p: Stream, a: Action, pid: nat, got: seq<Byte>, src: seq<Byte>)
    requires Inv(p) && Enabled(p, a) && pid in p.writers && Progress(p, pid, got, src)
    ensures var q := Next(p, a); Progress(q, pid, got + if Writes(a, pid) then Added(p, q) else [], src)
  {
    if Writes(a, pid) {
      WriteOn(p, pid, p.writers[pid], got, src);
    } else {
      OthersStay(p, a, pid);
      assert got + [] == got;
    }
  }

  /** In every run, what a call of pipewrite has put into the stream, over all the times it slept, is a prefix of its
      bytes, and all of them when it is done. */
  lemma {:induction false} CallWrites(ps: seq<Stream>, acts: seq<Action>, i: nat, k: nat, pid: nat, src: seq<Byte>)
    requires Run(ps, acts) && i < k <= |acts| && acts[i] == WriteCall(pid, src)
    requires forall j :: i < j < k ==> pid in ps[j].writers
    ensures Progress(ps[k], pid, Given(ps, acts, pid, i, k), src)
    decreases k
  {
    var p, a, q := ps[k - 1], acts[k - 1], ps[k];
    RunSafe(ps, acts, k - 1);
    assert Enabled(p, a) && q == Next(p, a);
    if k == i + 1 {
      WriteOn(p, pid, src, [], src);
    } else {
      CallWrites(ps, acts, i, k - 1, pid, src);
      ProgressStep(p, a, pid, Given(ps, acts, pid, i, k - 1), src);
    }
  }

  // ---------- The ring ----------

  datatype Outcome = Done | Asleep | Broken

  class Ring {
    var data: array<Byte>
    var nread: nat
    var nwrite: nat
    var readopen: bool
    var writeopen: bool
    ghost var stream: Stream

    /** The 32-bit counters and the ring hold exactly the bytes accepted and not yet delivered. */
    ghost predicate Valid()
      reads this, data
    {
      && data.Length == PIPESIZE
      && Bounded(stream)
      && readopen == stream.readopen && writeopen == stream.writeopen
      && nread == |stream.delivered| % WRAP && nwrite == |stream.accepted| % WRAP
      && forall k :: |stream.delivered| <= k < |stream.accepted| ==> data[k % PIPESIZE] == stream.accepted[k]
    }

    /** pipealloc's initialisation */
    constructor ()
      ensures Valid() && stream == Fresh && fresh(data)
    {
      data := new Byte[PIPESIZE];
      readopen, writeopen, nwrite, nread := true, true, 0, 0;
      stream := Fresh;
    }

    /** One byte into the ring. */
    method Put(b: Byte)
      requires Valid() && Room(stream) > 0
      modifies this`nwrite, this`stream, data
      ensures Valid() && stream == old(stream).(accepted := old(stream.accepted) + [b])
    {
      RingIndex(|stream.accepted|);
      data[nwrite % PIPESIZE] := b;
      nwrite := (nwrite + 1) % WRAP;
      RingSlots(|stream.delivered|, |stream.accepted|);
      stream := stream.(accepted := stream.accepted + [b]);
    }

    /** One byte out of the ring. */
    method Take() returns (b: Byte)
      requires Valid() && !Empty(stream)
      modifies this`nread, this`stream
      ensures Valid() && b == old(stream).accepted[|old(stream).delivered|]
      ensures stream == old(stream).(delivered := old(stream.delivered) + [b])
    {
      RingIndex(|stream.delivered|);
      b := data[nread % PIPESIZE];
      nread := (nread + 1) % WRAP;
      stream := stream.(delivered := stream.delivered + [b]);
    }

    /** pipewrite between two points where the lock is given up. */
    method Write(ghost pid: nat, src: seq<Byte>) returns (i: nat, r: Outcome)
      requires Valid()
      modifies this, data
      ensures Valid() && data == old(data)
      ensures stream == WriteStep(old(stream), pid, src)
      ensures var room := 512 - (|old(stream.accepted)| - |old(stream.delivered)|);
        i == if |src| <= room then |src| else room
      ensures stream.accepted == old(stream.accepted) + src[..i] && stream.delivered == old(stream.delivered)
      ensures r == if i == |src| then Done else if old(readopen) then Asleep else Broken
      ensures r != Broken ==> stream.sleepR == {}
      ensures r == Asleep ==> pid in stream.sleepW && pid in stream.writers && stream.writers[pid] == src[i..]
      ensures r != Asleep ==> pid !in stream.writers
    {
      ghost var p := stream;
      i := 0;
      while i < |src|
        invariant 0 <= i <= |src| && Valid() && data == old(data)
        invariant i <= Room(p) && stream == p.(accepted := p.accepted + src[..i])
      {
        CounterTest(|stream.delivered|, |stream.accepted|);
        if nwrite == (nread + PIPESIZE) % WRAP {
          if !readopen {
            stream := stream.(writers := stream.writers - {pid});
            return i, Broken;
          }
          stream := stream.(sleepR := {}, sleepW := stream.sleepW + {pid}, writers := stream.writers[pid := src[i..]]);
          return i, Asleep;
        }
        Put(src[i]);
        assert src[..i + 1] == src[..i] + [src[i]];
        i := i + 1;
      }
      stream := stream.(sleepR := {}, writers := stream.writers - {pid});
      return i, Done;
    }

    /** piperead's copy loop: up to n bytes, in order. */
    method Copy(n: nat) returns (bytes: seq<Byte>)
      requires Valid()
      modifies this`nread, this`stream
      ensures Valid() && bytes == old(Readable(stream, n))
      ensures stream == old(stream).(delivered := old(stream.delivered) + bytes)
    {
      ghost var p := stream;
      bytes := [];
      var i := 0;
      while i < n
        invariant 0 <= i <= n && Valid() && |p.delivered| + i <= |p.accepted|
        invariant bytes == p.accepted[|p.delivered|..|p.delivered| + i]
        invariant stream == p.(delivered := p.delivered + bytes)
      {
        CounterTest(|stream.delivered|, |stream.accepted|);
        if nread == nwrite {
          break;
        }
        ghost var before := stream.delivered;
        var b := Take();
        assert before + [b] == p.delivered + (bytes + [b]);
        bytes := bytes + [b];
        i := i + 1;
      }
    }

    /** piperead between two points where the lock is given up. */
    method Read(ghost pid: nat, n: nat) returns (bytes: seq<Byte>, r: Outcome)
      requires Valid()
      modifies this`nread, this`stream
      ensures Valid() && stream == ReadStep(old(stream), pid, n)
      ensures r == if |old(stream.accepted)| == |old(stream.delivered)| && old(writeopen) then Asleep else Done
      ensures stream.accepted == old(stream.accepted) && stream.delivered == old(stream.delivered) + bytes
      ensures r == Asleep ==> bytes == [] && pid in stream.sleepR && pid in stream.readers && stream.readers[pid] == n
      ensures r == Done ==> pid !in stream.readers && stream.sleepW == {}
      ensures r == Done ==>
        var from, left := |old(stream.delivered)|, |old(stream.accepted)| - |old(stream.delivered)|;
        bytes == old(stream.accepted)[from..from + if n <= left then n else left]
    {
      CounterTest(|stream.delivered|, |stream.accepted|);
      if nread == nwrite && writeopen {
        stream := stream.(sleepR := stream.sleepR + {pid}, readers := stream.readers[pid := n]);
        return [], Asleep;
      }
      bytes := Copy(n);
      stream := stream.(sleepW := {}, readers := stream.readers - {pid});
      r := Done;
    }

    /** pipeclose: one end is shut and the sleepers at the other are woken; the page is given up exactly when the
        other end was shut already. */
    method Close(writable: bool) returns (freed: bool)
      requires Valid()
      modifies this`readopen, this`writeopen, this`stream
      ensures Valid() && stream == CloseStep(old(stream), writable)
      ensures freed <==> !stream.readopen && !stream.writeopen
      ensures if writable then !writeopen && readopen == old(readopen) && stream.sleepR == {}
              else !readopen && writeopen == old(writeopen) && stream.sleepW == {}
      ensures stream.accepted == old(stream.accepted) && stream.delivered == old(stream.delivered)
      ensures freed <==> if writable then !old(stream).readopen else !old(stream).writeopen
    {
      if writable {
        writeopen := false;
        stream := stream.(writeopen := false, sleepR := {});
      } else {
        readopen := false;
        stream := stream.(readopen := false, sleepW := {});
      }
      freed := !readopen && !writeopen;
    }
  }

  /** The wrapped counters tell empty and full apart from everything in between. */
  lemma CounterTest(r: nat, w: nat)
    requires r <= w <= r + PIPESIZE
    ensures (r % WRAP == w % WRAP) <==> r == w
    ensures (w % WRAP == (r % WRAP + PIPESIZE) % WRAP) <==> w == r + PIPESIZE
  {
  }

  /** 512 divides 2^32, so the wrapped counter selects the same slot as the true count. */
  lemma RingIndex(k: nat)
    ensures k % WRAP % PIPESIZE == k % PIPESIZE
    ensures (k % WRAP + 1) % WRAP == (k + 1) % WRAP
  {
  }

  /** Fewer than 512 bytes in flight occupy different slots from the next one. */
  lemma RingSlots(r: nat, w: nat)
    requires r <= w < r + PIPESIZE
    ensures forall k :: r <= k < w ==> k % PIPESIZE != w % PIPESIZE
  {
  }
}
