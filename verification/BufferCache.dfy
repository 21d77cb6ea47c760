/** The code of bio.c: buffers in a doubly linked ring through a head, most recently released first,
    each entry point shown to take the steps of CacheModel. */
module BufferCache {
  import opened BlockWords
  import opened CacheModel

  // ---------- Rings ----------

  function Nxt(n: nat, i: nat): nat {
    if i + 1 < n then i + 1 else 0
  }

  /** Around the ring r, node i and the one after it point at each other. */
  predicate LinkAt(next: seq<nat>, prev: seq<nat>, r: seq<nat>, i: nat)
    requires i < |r|
  {
    && r[i] < |next| && r[Nxt(|r|, i)] < |prev|
    && next[r[i]] == r[Nxt(|r|, i)] && prev[r[Nxt(|r|, i)]] == r[i]
  }

  predicate Differ(r: seq<nat>, i: nat, j: nat)
    requires i < |r| && j < |r|
  {
    r[i] != r[j]
  }

  predicate Distinct(r: seq<nat>) {
    forall i, j {:trigger Differ(r, i, j)} :: 0 <= i < j < |r| ==> Differ(r, i, j)
  }

  predicate Ring(next: seq<nat>, prev: seq<nat>, r: seq<nat>) {
    && |r| >= 1 && |next| == |prev| && Distinct(r)
    && forall i {:trigger LinkAt(next, prev, r, i)} :: 0 <= i < |r| ==> LinkAt(next, prev, r, i)
  }

  /** Entry i of the ring without entry p. */
  function Old(p: nat, i: nat): nat {
    if i < p then i else i + 1
  }

  /** The two stores that take a buffer out join its neighbours to each other, and the rest is still a ring. */
  lemma Unlinked(next: seq<nat>, prev: seq<nat>, r: seq<nat>, p: nat)
    requires Ring(next, prev, r) && 1 <= p < |r|
    ensures r[p] < |next| && prev[r[p]] < |next| && next[r[p]] < |prev|
    ensures var b := r[p];
      Ring(next[prev[b] := next[b]], prev[next[b] := prev[b]], r[..p] + r[p + 1..])
  {
    var b, n := r[p], |r|;
    assert LinkAt(next, prev, r, p) && LinkAt(next, prev, r, p - 1);
    var next', prev', r' := next[prev[b] := next[b]], prev[next[b] := prev[b]], r[..p] + r[p + 1..];
    forall i | 0 <= i < |r'| ensures r'[i] == r[Old(p, i)] {
    }
    forall i, j | 0 <= i < j < |r'| ensures Differ(r', i, j) {
      assert Differ(r, Old(p, i), Old(p, j));
    }
    forall i | 0 <= i < |r'| ensures LinkAt(next', prev', r', i) {
      var j := Old(p, i);
      assert LinkAt(next, prev, r, j);
      if i == p - 1 {
        assert LinkAt(next, prev, r, p);
      } else {
        assert Nxt(n, j) != p && r'[Nxt(|r'|, i)] == r[Nxt(n, j)];
        assert if j < p - 1 then Differ(r, j, p - 1) else Differ(r, p - 1, j);
        UnlinkOther(r, p, j);
      }
    }
  }

  lemma UnlinkOther(r: seq<nat>, p: nat, j: nat)
    requires Distinct(r) && 1 <= p < |r| && j < |r| && j != p && j != p - 1
    ensures r[Nxt(|r|, j)] != r[Nxt(|r|, p)] && r[j] != r[p - 1]
  {
    var a, c := Nxt(|r|, j), Nxt(|r|, p);
    assert a != c;
    assert if a < c then Differ(r, a, c) else Differ(r, c, a);
    assert if j < p - 1 then Differ(r, j, p - 1) else Differ(r, p - 1, j);
  }

  /** The four stores that put a buffer in front set it between the head and the buffer that came first, which is
      still a ring. */
  lemma Inserted(next: seq<nat>, prev: seq<nat>, r: seq<nat>, b: nat)
    requires Ring(next, prev, r) && b < |next| && b !in r
    ensures r[0] < |next| && next[r[0]] < |next|
    ensures var head := r[0];
      Ring(next[b := next[head]][head := b], prev[b := head][next[head] := b], [head, b] + r[1..])
  {
    var head, n := r[0], |r|;
    assert LinkAt(next, prev, r, 0);
    var next', prev' := next[b := next[head]][head := b], prev[b := head][next[head] := b];
    var r' := [head, b] + r[1..];
    forall i | 2 <= i < |r'| ensures r'[i] == r[i - 1] {
    }
    forall i, j | 0 <= i < j < |r'| ensures Differ(r', i, j) {
      if i != 1 && j != 1 {
        assert Differ(r, if i == 0 then 0 else i - 1, j - 1);
      }
    }
    forall i | 0 <= i < |r'| ensures LinkAt(next', prev', r', i) {
      if i >= 2 {
        assert LinkAt(next, prev, r, i - 1) && Differ(r, 0, i - 1);
        if n > 1 {
          var q := Nxt(n, i - 1);
          assert q != 1 && (q == 0 ==> Differ(r, 0, 1)) && (q > 1 ==> Differ(r, 1, q));
        }
      }
    }
  }

  // ---------- The cache ----------

  datatype GetResult = Got(b: nat) | Asleep(b: nat) | NoBuffers

  predicate Reusable(b: Buf) {
    !b.busy && !b.dirty
  }

  /** b goes to the front, the others keep their order. */
  ghost predicate MovedFirst(order: seq<nat>, order': seq<nat>, b: nat) {
    exists p :: 0 <= p < |order| && order[p] == b && order' == [b] + (order[..p] + order[p + 1..])
  }

  class Bcache {
    /** Number of buffers; `nbuf` itself is the index of the list head. */
    const nbuf: nat
    var bufs: seq<Buf>
    var next: seq<nat>
    var prev: seq<nat>
    var disk: Disk
    ghost var c: Cache

    ghost predicate Valid()
      reads this
    {
      && bufs == c.bufs && disk == c.disk && |bufs| == nbuf && |next| == nbuf + 1
      && Inv(c) && Ring(next, prev, [nbuf] + c.order)
    }

    /** binit over a disk: every buffer enters the list at its front. */
    constructor (n: nat, d: Disk)
      ensures Valid() && nbuf == n && disk == d && Boot(c)
    {
      nbuf, disk := n, d;
      var bs := seq(n, _ => Buf(false, false, false, UNUSED_DEV, 0, ZeroBlock()));
      var nx: seq<nat>, pv: seq<nat> := seq(n + 1, i => i), seq(n + 1, i => i);
      ghost var order: seq<nat> := [];
      var b := 0;
      while b < n
        invariant 0 <= b <= n && |nx| == n + 1 && Ring(nx, pv, [n] + order)
        invariant |order| == b && forall i :: 0 <= i < b ==> order[i] == b - 1 - i
      {
        assert b !in [n] + order;
        Inserted(nx, pv, [n] + order, b);
        assert ([n] + order)[1..] == order && [n, b] + order == [n] + ([b] + order);
        var first := nx[n];
        nx := nx[b := first];
        pv := pv[b := n];
        pv := pv[first := b];
        nx := nx[n := b];
        order := [b] + order;
        b := b + 1;
      }
      bufs, next, prev := bs, nx, pv;
      ghost var boot := Cache(bs, d, d, order, seq(n, i requires 0 <= i < n => i), n);
      BootInv(boot);
      c := boot;
    }

    /** bget's first loop: from the most recent buffer on, look for the block. */
    method FindBlock(blockno: nat) returns (found: bool, b: nat)
      requires Valid()
      ensures found ==> b < nbuf && Holds(bufs[b], blockno)
      ensures !found ==> forall i :: 0 <= i < nbuf ==> !Holds(bufs[i], blockno)
    {
      ghost var r := [nbuf] + c.order;
      ghost var i := 1;
      assert LinkAt(next, prev, r, 0);
      b := next[nbuf];
      while b != nbuf
        invariant 1 <= i <= |r| && b == r[if i < |r| then i else 0]
        invariant forall j :: 1 <= j < i ==> !Holds(bufs[r[j]], blockno)
        decreases |r| - i
      {
        assert r[i] == c.order[i - 1];
        if bufs[b].dev == DISK_DEV && bufs[b].blockno == blockno {
          return true, b;
        }
        assert LinkAt(next, prev, r, i);
        b := next[b];
        i := i + 1;
      }
      found := false;
      HeadOnly(r, i, nbuf);
      forall k | 0 <= k < nbuf ensures !Holds(bufs[k], blockno) {
        assert k in c.order;
        var j :| 0 <= j < |c.order| && c.order[j] == k;
        assert r[j + 1] == k;
      }
    }

    /** bget's second loop: from the least recent buffer back, look for one that may be recycled. */
    method FindVictim() returns (found: bool, b: nat)
      requires Valid()
      ensures found ==> b < nbuf && Reusable(bufs[b])
      ensures found ==> forall k :: 0 <= k < nbuf && Reusable(bufs[k]) ==> c.stamps[b] <= c.stamps[k]
      ensures !found ==> forall k :: 0 <= k < nbuf ==> !Reusable(bufs[k])
    {
      ghost var r := [nbuf] + c.order;
      ghost var i := |r| - 1;
      assert LinkAt(next, prev, r, |r| - 1);
      b := prev[nbuf];
      while b != nbuf
        invariant 0 <= i < |r| && b == r[i]
        invariant forall j :: i < j < |r| ==> !Reusable(bufs[r[j]])
        decreases i
      {
        assert r[i] == c.order[i - 1];
        if !bufs[b].busy && !bufs[b].dirty {
          forall k | 0 <= k < nbuf && Reusable(bufs[k]) ensures c.stamps[b] <= c.stamps[k] {
            assert k in c.order;
            var j :| 0 <= j < |c.order| && c.order[j] == k;
            assert r[j + 1] == k && j <= i - 1;
            assert j < i - 1 ==> Newer(c.order, c.stamps, j, i - 1);
          }
          return true, b;
        }
        assert LinkAt(next, prev, r, i - 1);
        b := prev[b];
        i := i - 1;
      }
      found := false;
      HeadOnly(r, i, nbuf);
      forall k | 0 <= k < nbuf ensures !Reusable(bufs[k]) {
        assert k in c.order;
        var j :| 0 <= j < |c.order| && c.order[j] == k;
        assert r[j + 1] == k;
      }
    }

    /** bget, up to its return, its sleep or its panic. */
    method BGet(blockno: nat) returns (g: GetResult)
      requires Valid() && blockno < |disk|
      modifies this`bufs, this`c
      ensures Valid()
      ensures g.Got? ==> g.b < nbuf
      ensures g.Got? ==>
        if Holds(old(bufs)[g.b], blockno) then Enabled(old(c), Hit(g.b)) && c == Apply(old(c), Hit(g.b))
        else Enabled(old(c), Recycle(g.b, blockno)) && c == Apply(old(c), Recycle(g.b, blockno))
      ensures g.Got? && !Holds(old(bufs)[g.b], blockno) ==>
        forall k :: 0 <= k < nbuf && Reusable(old(bufs)[k]) ==> old(c).stamps[g.b] <= old(c).stamps[k]
      ensures !g.Got? ==> c == old(c)
      ensures g.Asleep? ==> g.b < nbuf && Holds(bufs[g.b], blockno) && bufs[g.b].busy
      ensures g.NoBuffers? <==> Exhausted(old(c), blockno)
    {
      var found, b := FindBlock(blockno);
      if found {
        if bufs[b].busy {
          return Asleep(b);
        }
        InvStep(c, Hit(b));
        c := Apply(c, Hit(b));
        bufs := bufs[b := bufs[b].(busy := true)];
        return Got(b);
      }
      found, b := FindVictim();
      if !found {
        return NoBuffers;
      }
      InvStep(c, Recycle(b, blockno));
      c := Apply(c, Recycle(b, blockno));
      bufs := bufs[b := Buf(true, false, false, DISK_DEV, blockno, bufs[b].data)];
      return Got(b);
    }

    /** bread: a busy buffer holding the latest contents of the block. */
    method BRead(blockno: nat) returns (g: GetResult)
      requires Valid() && blockno < |disk|
      modifies this`bufs, this`c
      ensures Valid() && c.flat == old(c.flat) && c.disk == old(c.disk)
      ensures g.Got? ==> g.b < nbuf && bufs[g.b].busy && bufs[g.b].valid && Holds(bufs[g.b], blockno)
      ensures g.Got? ==> bufs[g.b].data == c.flat[blockno]
      ensures !g.Got? ==> c == old(c)
      ensures g.NoBuffers? <==> Exhausted(old(c), blockno)
    {
      g := BGet(blockno);
      if g.Got? {
        assert BufOk(old(c), g.b);
        if !bufs[g.b].valid {
          assert BufOk(c, g.b);
          FillKeepsInv(c, g.b);
          c := Apply(c, Fill(g.b));
          bufs := bufs[g.b := bufs[g.b].(valid := true, data := disk[bufs[g.b].blockno])];
        }
      }
    }

    /** The holder of a buffer changes its data. */
    method Store(b: nat, data: Block)
      requires Valid() && b < nbuf && bufs[b].busy && bufs[b].valid
      modifies this`bufs, this`c
      ensures Valid() && c == Apply(old(c), CacheModel.Store(b, data))
      ensures bufs == old(bufs)[b := old(bufs)[b].(data := data)] && c.flat == old(c).flat
    {
      InvStep(c, CacheModel.Store(b, data));
      c := Apply(c, CacheModel.Store(b, data));
      bufs := bufs[b := bufs[b].(data := data)];
    }

    /** log_write's effect on the buffer: pinned until the log flushes it. */
    method Pin(b: nat)
      requires Valid() && b < nbuf && bufs[b].busy && bufs[b].valid
      modifies this`bufs, this`c
      ensures Valid() && Enabled(old(c), CacheModel.Pin(b)) && c == Apply(old(c), CacheModel.Pin(b))
      ensures bufs == old(bufs)[b := old(bufs)[b].(dirty := true)]
      ensures c.flat == old(c).flat[bufs[b].blockno := bufs[b].data]
    {
      assert BufOk(c, b);
      InvStep(c, CacheModel.Pin(b));
      c := Apply(c, CacheModel.Pin(b));
      bufs := bufs[b := bufs[b].(dirty := true)];
    }

    /** bwrite with iderw: the data reaches the disk and the buffer is clean. */
    method BWrite(b: nat)
      requires Valid() && b < nbuf && bufs[b].busy && bufs[b].valid
      modifies this`bufs, this`disk, this`c
      ensures Valid() && Enabled(old(c), Flush(b)) && c == Apply(old(c), Flush(b))
      ensures bufs == old(bufs)[b := old(bufs)[b].(dirty := false)]
      ensures disk == old(disk)[bufs[b].blockno := bufs[b].data] && c.flat == old(c).flat[bufs[b].blockno := bufs[b].data]
    {
      assert BufOk(c, b);
      InvStep(c, Flush(b));
      c := Apply(c, Flush(b));
      disk := disk[bufs[b].blockno := bufs[b].data];
      bufs := bufs[b := bufs[b].(dirty := false)];
    }

    /** brelse: the buffer moves to the front of the list. */
    method BRelse(b: nat)
      requires Valid() && b < nbuf && Enabled(c, Release(b))
      modifies this`bufs, this`next, this`prev, this`c
      ensures Valid() && c == Apply(old(c), Release(b))
      ensures bufs == old(bufs)[b := old(bufs)[b].(busy := false)] && c.flat == old(c).flat
      ensures MovedFirst(old(c).order, c.order, b)
    {
      InvStep(c, Release(b));
      ghost var p := WithoutShape(c.order, b);
      TakenOut(next, prev, c.order, c.stamps, b, nbuf);
      var after, before := next[b], prev[b];
      prev := prev[after := before];
      next := next[before := after];
      PutIn(next, prev, Without(c.order, b), b, nbuf);
      var first := next[nbuf];
      next := next[b := first];
      prev := prev[b := nbuf];
      prev := prev[first := b];
      next := next[nbuf := b];
      bufs := bufs[b := bufs[b].(busy := false)];
      c := Apply(c, Release(b));
    }
  }

  /** Only the first node of the ring is the head. */
  lemma HeadOnly(r: seq<nat>, i: nat, head: nat)
    requires Distinct(r) && i <= |r| && |r| >= 1 && r[0] == head && r[if i < |r| then i else 0] == head
    ensures i == 0 || i == |r|
  {
    forall j | 0 < j < |r| ensures r[j] != head {
      assert Differ(r, 0, j);
    }
  }

  lemma Gone(order: seq<nat>, b: nat, p: nat, head: nat, stamps: seq<nat>)
    requires p < |order| && order[p] == b && Without(order, b) == order[..p] + order[p + 1..] && b != head
    requires forall i, j {:trigger Newer(order, stamps, i, j)} :: 0 <= i < j < |order| ==> Newer(order, stamps, i, j)
    ensures b !in [head] + Without(order, b)
  {
    forall i | 0 <= i < |order| && i != p ensures order[i] != b {
      assert if i < p then Newer(order, stamps, i, p) else Newer(order, stamps, p, i);
    }
  }

  lemma TakenOut(next: seq<nat>, prev: seq<nat>, order: seq<nat>, stamps: seq<nat>, b: nat, head: nat)
    requires Ring(next, prev, [head] + order) && b in order && b != head
    requires forall i, j {:trigger Newer(order, stamps, i, j)} :: 0 <= i < j < |order| ==> Newer(order, stamps, i, j)
    ensures b < |next| && prev[b] < |next| && next[b] < |prev| && b !in [head] + Without(order, b)
    ensures Ring(next[prev[b] := next[b]], prev[next[b] := prev[b]], [head] + Without(order, b))
  {
    var r, rest := [head] + order, [head] + Without(order, b);
    var p := WithoutShape(order, b);
    Gone(order, b, p, head, stamps);
    var q := p + 1;
    assert r[q] == b && r[..q] + r[q + 1..] == rest by {
      LeftOut(order, p, head);
    }
    Unlinked(next, prev, r, q);
  }

  lemma LeftOut(order: seq<nat>, p: nat, head: nat)
    requires p < |order|
    ensures var r, q := [head] + order, p + 1;
      r[q] == order[p] && r[..q] + r[q + 1..] == [head] + (order[..p] + order[p + 1..])
  {
  }

  lemma PutIn(next: seq<nat>, prev: seq<nat>, rest: seq<nat>, b: nat, head: nat)
    requires Ring(next, prev, [head] + rest) && b < |next| && b !in [head] + rest
    ensures head < |next| && next[head] < |next|
    ensures Ring(next[b := next[head]][head := b], prev[b := head][next[head] := b], [head] + ([b] + rest))
  {
    var r := [head] + rest;
    Inserted(next, prev, r, b);
    assert [head, b] + r[1..] == [head] + ([b] + rest);
  }

  lemma BootInv(c: Cache)
    requires |c.bufs| == |c.order| == |c.stamps| == c.clock && c.flat == c.disk
    requires forall i :: 0 <= i < |c.bufs| ==>
      !c.bufs[i].busy && !c.bufs[i].valid && !c.bufs[i].dirty && c.bufs[i].dev == UNUSED_DEV
    requires forall i :: 0 <= i < |c.order| ==> c.order[i] == |c.order| - 1 - i && c.stamps[i] == i
    ensures Boot(c) && Inv(c)
  {
    forall b | 0 <= b < |c.bufs| ensures b in c.order {
      assert c.order[|c.order| - 1 - b] == b;
    }
  }
}
