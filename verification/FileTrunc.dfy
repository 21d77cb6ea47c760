/** Truncation as values: freeing an inode's slots one after another frees exactly its blocks. */
module FileTrunc {
  import opened FileModel

  /** itrunc frees the direct blocks, then the blocks of the indirect block, then that block. */
  function Order(k: nat): nat {
    if k < NDIRECT then k else if k == NDIRECT then SLOTS - 1 else k - 1
  }

  /** b is in one of the first o slots, in that order, of inode i. */
  ghost predicate Holds(fs: Fs, i: nat, o: nat, b: int)
    requires i < |fs.table|
  {
    exists k {:trigger SlotAt(fs, i, k)} :: 0 <= k < SLOTS && Order(k) < o && SlotAt(fs, i, k) == b != 0
  }

  /** The bitmap once the blocks in the first o slots of inode i have been freed. */
  ghost predicate Freed(fs: Fs, used: seq<bool>, i: nat, o: nat)
    requires i < |fs.table|
  {
    |used| == |fs.used| &&
    forall b {:trigger used[b]} :: 0 <= b < |used| ==> (used[b] <==> fs.used[b] && !Holds(fs, i, o, b))
  }

  lemma FreedNone(fs: Fs, i: nat)
    requires i < |fs.table|
    ensures Freed(fs, fs.used, i, 0)
  {
  }

  lemma FreeEmptySlot(fs: Fs, used: seq<bool>, i: nat, k: nat)
    requires i < |fs.table| && k < SLOTS && Freed(fs, used, i, Order(k)) && SlotAt(fs, i, k) == 0
    ensures Freed(fs, used, i, Order(k) + 1)
  {
    forall b
      ensures Holds(fs, i, Order(k) + 1, b) <==> Holds(fs, i, Order(k), b)
    {
    }
  }

  /** The block of the next slot is still marked, so bfree does not panic, and freeing it is what remains
      to be done for that slot. */
  lemma FreeSlot(fs: Fs, m: map<nat, (nat, nat)>, used: seq<bool>, i: nat, k: nat)
    requires OwnedBy(fs, m) && i < |fs.table| && k < SLOTS
    requires Freed(fs, used, i, Order(k)) && SlotAt(fs, i, k) != 0
    ensures fs.first <= SlotAt(fs, i, k) < |used| && used[SlotAt(fs, i, k)]
    ensures Freed(fs, used[SlotAt(fs, i, k) := false], i, Order(k) + 1)
  {
    var a := SlotAt(fs, i, k);
    BlockOwned(fs, m, i, k);
    assert !Holds(fs, i, Order(k), a);
    forall b | 0 <= b < |used|
      ensures Holds(fs, i, Order(k) + 1, b) <==> Holds(fs, i, Order(k), b) || b == a
    {
    }
  }

  /** An inode without an indirect block has nothing to free after its direct blocks. */
  lemma FreedWithoutIndirect(fs: Fs, used: seq<bool>, i: nat)
    requires i < |fs.table| && Freed(fs, used, i, NDIRECT) && SlotAt(fs, i, NDIRECT) == 0
    ensures Freed(fs, used, i, SLOTS)
  {
    forall b
      ensures Holds(fs, i, SLOTS, b) <==> Holds(fs, i, NDIRECT, b)
    {
    }
  }

  function Emptied(fs: Fs, used: seq<bool>, i: nat): Fs
    requires i < |fs.table|
  {
    fs.(used := used,
        table := fs.table[i := fs.table[i].(size := 0, addrs := [0, 0, 0, 0, 0, 0, 0, 0, 0, 0, 0, 0, 0])])
  }

  function Without(m: map<nat, (nat, nat)>, i: nat): map<nat, (nat, nat)> {
    map b | b in m && m[b].0 != i :: m[b]
  }

  lemma EmptiedSlot(fs: Fs, used: seq<bool>, i: nat, j: nat, l: nat)
    requires i < |fs.table| && IsSlot(fs, j, l)
    ensures SlotAt(Emptied(fs, used, i), j, l) == if j == i then 0 else SlotAt(fs, j, l)
  {
  }

  lemma EmptiedOwned(fs: Fs, m: map<nat, (nat, nat)>, used: seq<bool>, i: nat)
    requires OwnedBy(fs, m) && i < |fs.table| && Freed(fs, used, i, SLOTS)
    ensures OwnedBy(Emptied(fs, used, i), Without(m, i))
  {
    var fs' := Emptied(fs, used, i);
    var m' := Without(m, i);
    forall b | 0 <= b < |used|
      ensures used[b] <==> b < fs.first || b in m'
    {
      if b in m {
        assert OwnsOne(fs, b, m[b]);
      }
      if Holds(fs, i, SLOTS, b) {
        var k :| 0 <= k < SLOTS && Order(k) < SLOTS && SlotAt(fs, i, k) == b != 0;
        BlockOwned(fs, m, i, k);
      }
      assert used[b] <==> fs.used[b] && !Holds(fs, i, SLOTS, b);
    }
    forall c | c in m'
      ensures OwnsOne(fs', c, m'[c])
    {
      assert OwnsOne(fs, c, m[c]);
      EmptiedSlot(fs, used, i, m[c].0, m[c].1);
    }
    forall j, l | IsSlot(fs', j, l) && SlotAt(fs', j, l) != 0
      ensures SlotAt(fs', j, l) in m' && m'[SlotAt(fs', j, l)] == (j, l)
    {
      EmptiedSlot(fs, used, i, j, l);
      BlockOwned(fs, m, j, l);
    }
  }

  lemma EmptiedOthers(fs: Fs, used: seq<bool>, i: nat, j: nat)
    requires i < |fs.table| && j < |fs.table| && j != i && Compact(fs, j)
    ensures Compact(Emptied(fs, used, i), j) && Contents(Emptied(fs, used, i), j) == Contents(fs, j)
  {
    var fs' := Emptied(fs, used, i);
    forall l | 0 <= l < SLOTS
      ensures SlotAt(fs', j, l) == SlotAt(fs, j, l)
    {
      EmptiedSlot(fs, used, i, j, l);
    }
    SameContents(fs, fs', j);
  }

  /** Truncating keeps everything good. */
  lemma EmptiedGood(fs: Fs, m: map<nat, (nat, nat)>, used: seq<bool>, i: nat)
    requires Good(fs, m) && i < |fs.table| && Freed(fs, used, i, SLOTS)
    ensures Good(Emptied(fs, used, i), Without(m, i))
  {
    var fs' := Emptied(fs, used, i);
    EmptiedOwned(fs, m, used, i);
    forall j | 0 <= j < |fs'.table|
      ensures Compact(fs', j)
    {
      if j == i {
        forall l | 0 <= l < SLOTS
          ensures SlotAt(fs', j, l) == 0
        {
          EmptiedSlot(fs, used, i, j, l);
        }
      } else {
        assert Compact(fs, j);
        EmptiedOthers(fs, used, i, j);
      }
    }
  }
}
