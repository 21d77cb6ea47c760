/** fs.c's inode cache: slots with reference counts, and the count each inode number has in all. */
module InodeCache {

  /** A slot is in use while its reference count is not zero. */
  datatype Slot = Slot(inum: nat, ref: nat, valid: bool)

  function Share(s: Slot, n: nat): nat {
    if s.inum == n then s.ref else 0
  }

  /** All the references to inode n. */
  function Refs(slots: seq<Slot>, n: nat): nat {
    if slots == [] then 0 else Share(slots[0], n) + Refs(slots[1..], n)
  }

  predicate Busy(slots: seq<Slot>, k: int) {
    0 <= k < |slots| && slots[k].ref > 0
  }

  /** No two slots in use are for the same inode. */
  ghost predicate Unique(slots: seq<Slot>) {
    forall j, k :: Busy(slots, j) && Busy(slots, k) && slots[j].inum == slots[k].inum ==> j == k
  }

  lemma {:induction false} RefsUpdate(slots: seq<Slot>, k: nat, s: Slot, n: nat)
    requires k < |slots|
    ensures Refs(slots[k := s], n) + Share(slots[k], n) == Refs(slots, n) + Share(s, n)
  {
    if k > 0 {
      RefsUpdate(slots[1..], k - 1, s, n);
      assert slots[k := s][1..] == slots[1..][k - 1 := s];
    } else {
      assert slots[0 := s][1..] == slots[1..];
    }
  }

  lemma {:induction false} RefsAtLeast(slots: seq<Slot>, k: nat)
    requires k < |slots|
    ensures Refs(slots, slots[k].inum) >= slots[k].ref
  {
    if k > 0 {
      RefsAtLeast(slots[1..], k - 1);
    }
  }

  lemma {:induction false} RefsNone(slots: seq<Slot>, n: nat)
    requires forall k :: 0 <= k < |slots| && slots[k].ref > 0 ==> slots[k].inum != n
    ensures Refs(slots, n) == 0
  {
    if slots != [] {
      RefsNone(slots[1..], n);
    }
  }

  /** With the cache in order, a slot in use holds all the references to its inode. */
  lemma {:induction false} RefsAre(slots: seq<Slot>, k: nat)
    requires Unique(slots) && k < |slots| && slots[k].ref > 0
    ensures Refs(slots, slots[k].inum) == slots[k].ref
  {
    var s := Slot(slots[k].inum, 0, false);
    RefsUpdate(slots, k, s, slots[k].inum);
    RefsNone(slots[k := s], slots[k].inum);
  }

  /** From one cache to another, exactly one reference to n has been added. */
  ghost predicate OneMore(slots: seq<Slot>, slots': seq<Slot>, n: nat) {
    forall x {:trigger Refs(slots', x)} :: x >= 0 ==> Refs(slots', x) == Refs(slots, x) + if x == n then 1 else 0
  }

  class Cache {
    var slots: seq<Slot>

    ghost predicate Valid()
      reads this
    {
      Unique(slots)
    }

    /** iget: one more reference, in the slot the inode has or else in the first free one; -1 stands for the
        panic when there is none. */
    method IGet(inum: nat) returns (r: int)
      requires Valid()
      modifies this
      ensures Valid() && |slots| == |old(slots)|
      ensures r < 0 ==> slots == old(slots) && forall k :: 0 <= k < |slots| ==> slots[k].ref > 0
      ensures r >= 0 ==> r < |slots| && slots[r].inum == inum && slots[r].ref > 0
      ensures r >= 0 ==> slots == old(slots)[r := slots[r]] && OneMore(old(slots), slots, inum)
      ensures r >= 0 ==> slots[r].ref == old(slots)[r].ref + 1 && (old(slots)[r].ref > 0 ==> old(slots)[r].inum == inum)
      ensures r >= 0 && old(slots)[r].ref == 0 ==> forall k :: 0 <= k < r ==> old(slots)[k].ref > 0
      ensures r >= 0 && old(slots)[r].ref == 0 ==> Refs(old(slots), inum) == 0
      ensures r >= 0 ==> slots[r].valid == (old(slots)[r].ref > 0 && old(slots)[r].valid)
    {
      var empty := -1;
      var k := 0;
      while k < |slots|
        invariant 0 <= k <= |slots| && slots == old(slots)
        invariant forall j :: 0 <= j < k && slots[j].ref > 0 ==> slots[j].inum != inum
        invariant -1 <= empty < k && (empty >= 0 ==> slots[empty].ref == 0)
        invariant forall j :: 0 <= j < empty ==> slots[j].ref > 0
        invariant empty < 0 ==> forall j :: 0 <= j < k ==> slots[j].ref > 0
      {
        if slots[k].ref > 0 && slots[k].inum == inum {
          Counted(slots, k, slots[k].(ref := slots[k].ref + 1));
          slots := slots[k := slots[k].(ref := slots[k].ref + 1)];
          return k;
        }
        if empty == -1 && slots[k].ref == 0 {
          empty := k;
        }
        k := k + 1;
      }
      if empty < 0 {
        return -1;
      }
      RefsNone(slots, inum);
      Counted(slots, empty, Slot(inum, 1, false));
      slots := slots[empty := Slot(inum, 1, false)];
      r := empty;
    }

    method IDup(k: nat)
      requires Valid() && k < |slots| && slots[k].ref > 0
      modifies this
      ensures Valid() && slots == old(slots)[k := old(slots)[k].(ref := old(slots)[k].ref + 1)]
      ensures OneMore(old(slots), slots, old(slots)[k].inum)
    {
      Counted(slots, k, slots[k].(ref := slots[k].ref + 1));
      slots := slots[k := slots[k].(ref := slots[k].ref + 1)];
    }

    /** ilock's loading of the inode. */
    method Load(k: nat)
      requires Valid() && k < |slots| && slots[k].ref > 0
      modifies this
      ensures Valid() && slots == old(slots)[k := old(slots)[k].(valid := true)]
      ensures forall x {:trigger Refs(slots, x)} :: x >= 0 ==> Refs(slots, x) == Refs(old(slots), x)
    {
      forall x | x >= 0
        ensures Refs(slots[k := slots[k].(valid := true)], x) == Refs(slots, x)
      {
        RefsUpdate(slots, k, slots[k].(valid := true), x);
      }
      slots := slots[k := slots[k].(valid := true)];
    }

    /** The end of iput: one reference fewer. */
    method Drop(k: nat, valid: bool)
      requires Valid() && k < |slots| && slots[k].ref > 0
      modifies this
      ensures Valid() && slots == old(slots)[k := Slot(old(slots)[k].inum, old(slots)[k].ref - 1, valid)]
      ensures OneMore(slots, old(slots), old(slots)[k].inum)
    {
      var s := Slot(slots[k].inum, slots[k].ref - 1, valid);
      forall x | x >= 0
        ensures Refs(slots, x) == Refs(slots[k := s], x) + if x == slots[k].inum then 1 else 0
      {
        RefsUpdate(slots, k, s, x);
      }
      slots := slots[k := s];
    }
  }

  /** A slot that takes one more reference for an inode, its own or, if it was free, a new one. */
  lemma Counted(slots: seq<Slot>, k: nat, s: Slot)
    requires k < |slots| && s.ref == slots[k].ref + 1 && (slots[k].ref > 0 ==> s.inum == slots[k].inum)
    ensures OneMore(slots, slots[k := s], s.inum)
  {
    forall x | x >= 0
      ensures Refs(slots[k := s], x) == Refs(slots, x) + if x == s.inum then 1 else 0
    {
      RefsUpdate(slots, k, s, x);
    }
  }
}
