/** fs.c's iput and namex as they run, on the disk and the inode cache. */
module Namei {
  import opened Common
  import opened FileModel
  import FileState
  import FileSystem
  import opened Directory
  import opened DirectoryOps
  import opened Path
  import opened InodeCache

  const ROOTINO := 1

  /** The directories of fs have the bindings `dirs`, and an inode in use that a name leads to has a link or a
      reference: a removed directory that is still somebody's current one is named by its own ".". */
  ghost predicate Tree(fs: Fs, dirs: Dirs, slots: seq<Slot>) {
    && (forall d :: d in dirs <==> 0 <= d < |fs.table| && fs.table[d].kind == T_DIR)
    && (forall d :: d in dirs ==> DirOk(fs, dirs[d], d, slots))
  }

  ghost predicate DirOk(fs: Fs, m: map<Name, Half>, d: nat, slots: seq<Slot>) {
    && d < |fs.table| && fs.table[d].size <= MAXBYTES && Refines(Contents(fs, d), m)
    && forall key :: key in m ==> Kept(fs, slots, m[key])
  }

  predicate InUse(fs: Fs, i: nat) {
    i < |fs.table| && fs.table[i].kind != 0
  }

  /** Inode i is in use as long as it has a link or a reference. */
  ghost predicate Kept(fs: Fs, slots: seq<Slot>, i: nat) {
    i < |fs.table| && if InUse(fs, i) then fs.table[i].nlink != 0 || Refs(slots, i) > 0 else Refs(slots, i) == 0
  }

  /** The references are those of before and one more for d. */
  ghost predicate Holding(fs: Fs, slots0: seq<Slot>, slots: seq<Slot>, k: int, d: nat) {
    && Unique(slots) && 0 <= k < |slots| && slots[k].ref > 0 && slots[k].inum == d
    && OneMore(slots0, slots, d) && Kept(fs, slots0, d) && (slots[k].valid ==> InUse(fs, d))
  }

  ghost predicate SameRefs(slots0: seq<Slot>, slots: seq<Slot>) {
    forall x {:trigger Refs(slots, x)} :: x >= 0 ==> Refs(slots, x) == Refs(slots0, x)
  }

  datatype Outcome = NoInodes | NoType | NotFound | At(k: nat)

  /** iput: one reference fewer; an inode whose last reference and last link are gone is freed, unless log_write
      refuses on the way. */
  method IPut(disk: FileSystem.FileSys, cache: Cache, k: nat) returns (freed: bool)
    requires disk.Valid() && cache.Valid() && k < |cache.slots| && cache.slots[k].ref > 0
    requires cache.slots[k].inum < disk.g.ninodes
    modifies disk, cache
    ensures cache.Valid() && disk.Coupled() && (disk.refused ==> freed) && (!disk.refused ==> disk.Valid())
    ensures Dropped(old(cache.slots), cache.slots, k)
    ensures var s := old(cache.slots)[k];
      freed <==> s.ref == 1 && s.valid && old(disk.fs).table[s.inum].nlink == 0
    ensures !freed ==> disk.fs == old(disk.fs)
    ensures freed ==> Known(FileState.Released(old(disk.fs), disk.fs, old(cache.slots)[k].inum))
    ensures freed ==> !InUse(disk.fs, old(cache.slots)[k].inum)
    ensures freed ==> FileState.OnDisk(disk.g, disk.blocks, old(cache.slots)[k].inum).kind == 0
    ensures cache.slots[k].valid == (old(cache.slots)[k].valid && !freed)
  {
    var s := cache.slots[k];
    freed := s.ref == 1 && s.valid && disk.mem[s.inum].nlink == 0;
    if freed {
      disk.IFree(s.inum);
    }
    cache.Drop(k, s.valid && !freed);
  }

  /** One reference fewer in slot k, and nothing else. */
  ghost predicate Dropped(slots: seq<Slot>, slots': seq<Slot>, k: nat) {
    && k < |slots| && slots[k].ref > 0 && |slots'| == |slots| && OneMore(slots', slots, slots[k].inum)
    && slots'[k].inum == slots[k].inum && slots'[k].ref == slots[k].ref - 1
    && forall j :: 0 <= j < |slots| && j != k ==> slots'[j] == slots[j]
  }

  /** namex's inode at the start of a walk, with a reference of its own. */
  method Start(disk: FileSystem.FileSys, cache: Cache, path: Name, cwd: nat) returns (r: int)
    requires disk.Valid() && cache.Valid() && cwd < |cache.slots| && cache.slots[cwd].ref > 0
    requires InUse(disk.fs, cache.slots[cwd].inum) && InUse(disk.fs, ROOTINO) && disk.fs.table[ROOTINO].nlink != 0
    modifies cache
    ensures cache.Valid()
    ensures r < 0 ==> AllBusy(cache.slots)
    ensures r >= 0 && path != [] && path[0] == 47 ==> Holding(disk.fs, old(cache.slots), cache.slots, r, 1)
    ensures r >= 0 && (path == [] || path[0] != 47) ==>
      Holding(disk.fs, old(cache.slots), cache.slots, r, old(cache.slots)[cwd].inum)
  {
    if path != [] && path[0] == SLASH {
      r := cache.IGet(ROOTINO);
    } else {
      RefsAtLeast(cache.slots, cwd);
      cache.IDup(cwd);
      r := cwd;
    }
  }

  ghost predicate AllBusy(slots: seq<Slot>) {
    forall k :: 0 <= k < |slots| ==> slots[k].ref > 0
  }

  /** Giving up the inode held leaves every count as it was, and frees nothing. */
  method GiveUp(disk: FileSystem.FileSys, cache: Cache, k: nat, d: nat, ghost slots0: seq<Slot>)
    requires disk.Valid() && cache.Valid() && Holding(disk.fs, slots0, cache.slots, k, d) && InUse(disk.fs, d)
    modifies disk, cache
    ensures disk.Valid() && cache.Valid() && disk.fs == old(disk.fs)
    ensures SameRefs(slots0, cache.slots)
  {
    RefsAre(cache.slots, k);
    ghost var slots1 := cache.slots;
    var freed := IPut(disk, cache, k);
    DropBack(slots0, slots1, cache.slots, d);
  }

  lemma DropBack(slots0: seq<Slot>, slots1: seq<Slot>, slots: seq<Slot>, d: nat)
    requires OneMore(slots0, slots1, d) && OneMore(slots, slots1, d)
    ensures SameRefs(slots0, slots)
  {
    forall x | x >= 0
      ensures Refs(slots, x) == Refs(slots0, x)
    {
      assert Refs(slots1, x) == Refs(slots0, x) + if x == d then 1 else 0;
    }
  }

  /** From inode d to inode n: take a reference to n, drop the one to d. */
  method MoveTo(disk: FileSystem.FileSys, cache: Cache, k: nat, d: nat, n: nat, ghost slots0: seq<Slot>)
    returns (r: int)
    requires disk.Valid() && cache.Valid() && Holding(disk.fs, slots0, cache.slots, k, d)
    requires InUse(disk.fs, d) && Kept(disk.fs, slots0, n)
    modifies disk, cache
    ensures disk.Valid() && cache.Valid() && disk.fs == old(disk.fs)
    ensures r < 0 ==> AllBusy(cache.slots)
    ensures r >= 0 ==> Holding(disk.fs, slots0, cache.slots, r, n)
  {
    ghost var slots1 := cache.slots;
    r := cache.IGet(n);
    if r < 0 {
      return;
    }
    ghost var slots2 := cache.slots;
    HeldTwice(disk.fs, slots0, slots1, slots2, k, d, r, n);
    var freed := IPut(disk, cache, k);
    Moved(slots0, slots1, slots2, cache.slots, k, d, r, n);
  }

  /** After taking the next inode, the reference to the last one can be dropped without freeing it. */
  lemma HeldTwice(fs: Fs, slots0: seq<Slot>, slots1: seq<Slot>, slots2: seq<Slot>, k: nat, d: nat, r: nat, n: nat)
    requires Holding(fs, slots0, slots1, k, d) && InUse(fs, d) && Unique(slots2) && r < |slots2| == |slots1|
    requires slots2 == slots1[r := slots2[r]] && OneMore(slots1, slots2, n) && slots2[r].inum == n
    requires slots2[r].ref == slots1[r].ref + 1 && (slots1[r].ref > 0 ==> slots1[r].inum == n)
    requires slots2[r].valid == (slots1[r].ref > 0 && slots1[r].valid) && Kept(fs, slots0, n)
    ensures slots2[k].inum == d && slots2[k].ref > 0 && (fs.table[d].nlink != 0 || slots2[k].ref > 1)
    ensures (r == k ==> slots2[k].ref > 1) && (slots2[r].valid ==> InUse(fs, n))
  {
    if slots1[r].ref > 0 {
      RefsAre(slots1, r);
      assert Refs(slots1, n) == Refs(slots0, n) + if n == d then 1 else 0;
    }
    RefsAre(slots2, k);
    assert Refs(slots1, d) == Refs(slots0, d) + 1;
    assert Refs(slots2, d) >= Refs(slots1, d);
  }

  lemma Moved(slots0: seq<Slot>, slots1: seq<Slot>, slots2: seq<Slot>, slots: seq<Slot>, k: nat, d: nat, r: nat, n: nat)
    requires OneMore(slots0, slots1, d) && OneMore(slots1, slots2, n) && OneMore(slots, slots2, d)
    ensures OneMore(slots0, slots, n)
  {
    forall x | x >= 0
      ensures Refs(slots, x) == Refs(slots0, x) + if x == n then 1 else 0
    {
      assert Refs(slots2, x) == Refs(slots1, x) + if x == n then 1 else 0;
      assert Refs(slots1, x) == Refs(slots0, x) + if x == d then 1 else 0;
    }
  }

  /** Locking loads the inode, and panics on one that is not in use; the counts stay. */
  method Lock(disk: FileSystem.FileSys, cache: Cache, k: nat, d: nat, ghost slots0: seq<Slot>) returns (ok: bool)
    requires disk.Valid() && cache.Valid() && Holding(disk.fs, slots0, cache.slots, k, d)
    modifies cache
    ensures cache.Valid()
    ensures ok <==> InUse(disk.fs, d)
    ensures ok ==> Holding(disk.fs, slots0, cache.slots, k, d) && cache.slots[k].valid
  {
    ghost var slots1 := cache.slots;
    if !cache.slots[k].valid && disk.mem[d].kind == 0 {
      return false;
    }
    cache.Load(k);
    forall x | x >= 0
      ensures Refs(cache.slots, x) == Refs(slots0, x) + if x == d then 1 else 0
    {
      assert Refs(slots1, x) == Refs(slots0, x) + if x == d then 1 else 0;
    }
    ok := true;
  }

  /** A directory's bytes and bindings. */
  lemma TreeDir(fs: Fs, dirs: Dirs, slots: seq<Slot>, d: nat)
    requires Tree(fs, dirs, slots) && d in dirs
    ensures fs.table[d].size <= MAXBYTES && IsDir(fs, d, Contents(fs, d)) && Refines(Contents(fs, d), dirs[d])
    ensures forall key :: key in dirs[d] ==> Kept(fs, slots, dirs[d][key])
  {
    assert DirOk(fs, dirs[d], d, slots);
    ReadsContents(fs, d, Contents(fs, d));
  }

  /** dirlookup in a directory of the tree is lookup in its map. */
  method Find(disk: FileSystem.FileSys, d: nat, name: Name, ghost dirs: Dirs, ghost slots0: seq<Slot>)
    returns (found: bool, n: Half)
    requires disk.Valid() && Tree(disk.fs, dirs, slots0) && d in dirs && 0 !in name && |name| <= DIRSIZ
    modifies disk
    ensures disk.Valid() && disk.fs == old(disk.fs)
    ensures found <==> name in dirs[d]
    ensures found ==> n == dirs[d][name] && Kept(disk.fs, slots0, n)
  {
    TreeDir(disk.fs, dirs, slots0, d);
    ghost var c := Contents(disk.fs, d);
    var k;
    k, n := DirLookup(disk, d, name, c);
    found := k >= 0;
    if found {
      NamedIn(c, dirs[d], k, name);
    } else {
      NotThere(c, dirs[d], |c| / ESIZE, name);
    }
  }

  /** One name of the walk: from the inode held to the one the name leads to. */
  method Step(disk: FileSystem.FileSys, cache: Cache, k: nat, d: nat, name: Name, ghost dirs: Dirs, ghost slots0: seq<Slot>)
    returns (r: Outcome)
    requires disk.Valid() && cache.Valid() && Holding(disk.fs, slots0, cache.slots, k, d)
    requires Tree(disk.fs, dirs, slots0) && d in dirs && 0 !in name && |name| <= DIRSIZ
    modifies disk, cache
    ensures disk.Valid() && cache.Valid() && disk.fs == old(disk.fs)
    ensures r != NoType && (r == NoInodes ==> AllBusy(cache.slots))
    ensures r == NotFound ==> name !in dirs[d] && SameRefs(slots0, cache.slots)
    ensures r.At? ==> name in dirs[d] && Holding(disk.fs, slots0, cache.slots, r.k, dirs[d][name])
  {
    var found, n := Find(disk, d, name, dirs, slots0);
    if !found {
      GiveUp(disk, cache, k, d, slots0);
      return NotFound;
    }
    var j := MoveTo(disk, cache, k, d, n, slots0);
    r := if j < 0 then NoInodes else At(j);
  }

  /** One turn of namex's loop. It is done when the inode held is no directory, when it is the parent asked for,
      or when the name leads nowhere; otherwise the inode the name leads to is held. */
  method Enter(disk: FileSystem.FileSys, cache: Cache, k: nat, d: nat, name: Name, last: bool, ghost dirs: Dirs,
               ghost slots0: seq<Slot>)
    returns (done: bool, r: Outcome)
    requires disk.Valid() && cache.Valid() && Holding(disk.fs, slots0, cache.slots, k, d)
    requires Tree(disk.fs, dirs, slots0) && 0 !in name && |name| <= DIRSIZ
    modifies disk, cache
    ensures disk.Valid() && cache.Valid() && disk.fs == old(disk.fs)
    ensures r == NoInodes ==> done && AllBusy(cache.slots)
    ensures r == NoType ==> done && !InUse(disk.fs, d)
    ensures r == NotFound ==> done && SameRefs(slots0, cache.slots) && InUse(disk.fs, d)
    ensures r == NotFound ==> d !in dirs || (!last && name !in dirs[d])
    ensures r.At? ==> d in dirs && done == last && (!done ==> name in dirs[d])
    ensures r.At? ==> Holding(disk.fs, slots0, cache.slots, r.k, if done then d else dirs[d][name])
  {
    var ok := Lock(disk, cache, k, d, slots0);
    if !ok {
      return true, NoType;
    }
    if disk.mem[d].kind != T_DIR {
      GiveUp(disk, cache, k, d, slots0);
      return true, NotFound;
    }
    if last {
      return true, At(k);
    }
    r := Step(disk, cache, k, d, name, dirs, slots0);
    done := !r.At?;
  }

  /** The names still to walk, the first of them already taken off the path. */
  function Left(next: Option<Name>, path: Name, i: nat): seq<Name>
    requires i <= |path|
  {
    if next.None? then [] else [next.value] + Components(path[i..])
  }

  /** What is left of the names ends as they all do. */
  predicate SameEnd(names: seq<Name>, left: seq<Name>) {
    left != [] ==> names != [] && left[|left| - 1] == names[|names| - 1]
  }

  /** The walk comes to an inode that is not in use, with a name left. */
  predicate Dead(fs: Fs, dirs: Dirs, d: nat, names: seq<Name>, parent: bool)
    decreases |names|
  {
    && names != []
    && if !InUse(fs, d) then true
       else
         && d in dirs && !(parent && |names| == 1) && names[0] in dirs[d]
         && Dead(fs, dirs, dirs[d][names[0]], names[1..], parent)
  }

  /** Where a walk ends: in ilock's panic "no type", or where the directory maps lead. */
  datatype Goal = Dies | Leads(to: Option<nat>)

  function GoalOf(fs: Fs, dirs: Dirs, d: nat, names: seq<Name>, parent: bool): Goal {
    if Dead(fs, dirs, d, names, parent) then Dies else Leads(Resolve(dirs, d, names, parent))
  }

  lemma EndsHere(fs: Fs, dirs: Dirs, slots: seq<Slot>, d: nat, names: seq<Name>, parent: bool)
    requires Tree(fs, dirs, slots) && names != []
    ensures !InUse(fs, d) ==> GoalOf(fs, dirs, d, names, parent) == Dies
    ensures InUse(fs, d) && d !in dirs ==> GoalOf(fs, dirs, d, names, parent) == Leads(None)
    ensures d in dirs && parent && |names| == 1 ==> GoalOf(fs, dirs, d, names, parent) == Leads(Some(d))
    ensures d in dirs && !(parent && |names| == 1) && names[0] !in dirs[d] ==>
      GoalOf(fs, dirs, d, names, parent) == Leads(None)
  {
    assert d in dirs ==> InUse(fs, d);
  }

  /** A name walked and taken off leaves the same place to reach. */
  lemma OneNameOn(fs: Fs, dirs: Dirs, d: nat, names: seq<Name>, left: seq<Name>, left': seq<Name>, parent: bool, d': nat)
    requires left != [] && d in dirs && !(parent && |left| == 1) && left[0] in dirs[d] && d' == dirs[d][left[0]]
    requires left' == left[1..] && SameEnd(names, left) && InUse(fs, d)
    ensures GoalOf(fs, dirs, d', left', parent) == GoalOf(fs, dirs, d, left, parent) && SameEnd(names, left')
  {
  }

  /** The loop of namex, from the inode held on. */
  method Walk(disk: FileSystem.FileSys, cache: Cache, path: Name, parent: bool, k0: nat, d0: nat, ghost dirs: Dirs,
              ghost slots0: seq<Slot>)
    returns (r: Outcome, name: Name)
    requires disk.Valid() && cache.Valid() && Holding(disk.fs, slots0, cache.slots, k0, d0)
    requires Tree(disk.fs, dirs, slots0) && InUse(disk.fs, d0) && 0 !in path
    modifies disk, cache
    ensures disk.Valid() && cache.Valid() && disk.fs == old(disk.fs)
    ensures r == NoInodes ==> AllBusy(cache.slots)
    ensures r == NoType ==> GoalOf(disk.fs, dirs, d0, Components(path), parent) == Dies
    ensures r == NotFound ==> SameRefs(slots0, cache.slots)
    ensures r == NotFound ==> GoalOf(disk.fs, dirs, d0, Components(path), parent) == Leads(None)
    ensures r.At? ==> r.k < |cache.slots| && OneMore(slots0, cache.slots, cache.slots[r.k].inum)
    ensures r.At? ==> GoalOf(disk.fs, dirs, d0, Components(path), parent) == Leads(Some(cache.slots[r.k].inum))
    ensures r.At? && parent ==> Components(path) != [] && name == Components(path)[|Components(path)| - 1]
  {
    ghost var fs, names := disk.fs, Components(path);
    var k, d := k0, d0;
    name := [];
    assert path[0..] == path;
    var next, i := SkipElem(path, 0);
    ghost var left := Left(next, path, i);
    while next.Some?
      invariant i <= |path| && disk.Valid() && cache.Valid() && disk.fs == fs && left == Left(next, path, i)
      invariant Holding(fs, slots0, cache.slots, k, d) && (parent && next.None? ==> InUse(fs, d))
      invariant next.Some? ==> |next.value| <= DIRSIZ && 0 !in next.value && (i == |path| <==> Components(path[i..]) == [])
      invariant GoalOf(fs, dirs, d, left, parent) == GoalOf(fs, dirs, d0, names, parent)
      invariant SameEnd(names, left)
      decreases |left|
    {
      name := next.value;
      EndsHere(fs, dirs, slots0, d, left, parent);
      var done, s := Enter(disk, cache, k, d, name, parent && i == |path|, dirs, slots0);
      if done {
        return s, name;
      }
      ghost var left1, d1 := left, d;
      k := s.k;
      d := cache.slots[k].inum;
      next, i := SkipElem(path, i);
      left := Left(next, path, i);
      OneNameOn(fs, dirs, d1, names, left1, left, parent, d);
    }
    if parent {
      GiveUp(disk, cache, k, d, slots0);
      return NotFound, name;
    }
    r := At(k);
  }

  /** What namex answers for a walk from inode d: how it ended, with the slots after it. */
  ghost predicate Answers(fs: Fs, dirs: Dirs, d: nat, path: Name, parent: bool, slots: seq<Slot>, r: Outcome) {
    var names := Components(path);
    match r
    case NoInodes => AllBusy(slots)
    case NoType => Dead(fs, dirs, d, names, parent)
    case NotFound => !Dead(fs, dirs, d, names, parent) && Resolve(dirs, d, names, parent) == None
    case At(k) => k < |slots| && !Dead(fs, dirs, d, names, parent) && Resolve(dirs, d, names, parent) == Some(slots[k].inum)
  }

  /** The walk dies exactly if some of the names, but not all, lead to an inode that is not in use. */
  lemma {:induction false} DeadIs(fs: Fs, dirs: Dirs, d: nat, names: seq<Name>, parent: bool)
    requires forall x :: x in dirs ==> InUse(fs, x)
    ensures Dead(fs, dirs, d, names, parent) <==>
      exists m: nat, x: nat :: m < |names| && LeadsTo(dirs, d, names[..m], x) && !InUse(fs, x)
    decreases |names|
  {
    if names != [] {
      LeadsNowhere(dirs, d, d);
      assert names[..0] == [];
      if !InUse(fs, d) {
        assert LeadsTo(dirs, d, names[..0], d);
      } else {
        var on := d in dirs && names[0] in dirs[d];
        if on {
          DeadIs(fs, dirs, dirs[d][names[0]], names[1..], parent);
        }
        if m: nat, x: nat :| m < |names| && LeadsTo(dirs, d, names[..m], x) && !InUse(fs, x) {
          DeadOn(dirs, d, names, m, x);
        }
        if Dead(fs, dirs, d, names, parent) {
          var m: nat, x: nat :| m < |names| - 1 && LeadsTo(dirs, dirs[d][names[0]], names[1..][..m], x) && !InUse(fs, x);
          DeadOn(dirs, d, names, m + 1, x);
        }
      }
    }
  }

  lemma DeadOn(dirs: Dirs, d: nat, names: seq<Name>, m: nat, x: nat)
    requires m < |names|
    ensures m == 0 ==> (LeadsTo(dirs, d, names[..m], x) <==> x == d)
    ensures m > 0 ==> (LeadsTo(dirs, d, names[..m], x) <==>
      d in dirs && names[0] in dirs[d] && LeadsTo(dirs, dirs[d][names[0]], names[1..][..m - 1], x))
  {
    if m == 0 {
      LeadsNowhere(dirs, d, x);
    } else {
      LeadsOn(dirs, d, names[..m], x);
      assert names[..m][1..] == names[1..][..m - 1];
    }
  }

  /** Where a walk from d leads is one place, whatever the slots: with `NameX` this says that an absolute path means the
      same from every current directory. */
  lemma AnswersAgree(fs: Fs, dirs: Dirs, d: nat, path: Name, parent: bool, slots: seq<Slot>, r: Outcome,
                     slots': seq<Slot>, r': Outcome)
    requires Answers(fs, dirs, d, path, parent, slots, r) && Answers(fs, dirs, d, path, parent, slots', r')
    requires r != NoInodes && r' != NoInodes
    ensures if r.At? then r'.At? && slots'[r'.k].inum == slots[r.k].inum else r' == r
  {
  }

  /** namex: a path that begins with a slash leads where its components lead from inode 1, and any other where they lead
      from the current directory. Only the inode returned has a reference more than before, whichever way the walk
      ends. */
  method NameX(disk: FileSystem.FileSys, cache: Cache, path: Name, parent: bool, cwd: nat, ghost dirs: Dirs)
    returns (r: Outcome, name: Name)
    requires disk.Valid() && cache.Valid() && cwd < |cache.slots| && cache.slots[cwd].ref > 0 && 0 !in path
    requires InUse(disk.fs, cache.slots[cwd].inum) && InUse(disk.fs, ROOTINO) && disk.fs.table[ROOTINO].nlink != 0
    requires Tree(disk.fs, dirs, cache.slots)
    modifies disk, cache
    ensures disk.Valid() && cache.Valid() && disk.fs == old(disk.fs)
    ensures path != [] && path[0] == 47 ==> Answers(disk.fs, dirs, 1, path, parent, cache.slots, r)
    ensures path == [] || path[0] != 47 ==>
      Answers(disk.fs, dirs, old(cache.slots)[cwd].inum, path, parent, cache.slots, r)
    ensures r == NotFound ==> SameRefs(old(cache.slots), cache.slots)
    ensures r.At? ==> r.k < |cache.slots| && OneMore(old(cache.slots), cache.slots, cache.slots[r.k].inum)
    ensures r.At? && parent ==> Components(path) != [] && name == Components(path)[|Components(path)| - 1]
  {
    var k := Start(disk, cache, path, cwd);
    if k < 0 {
      return NoInodes, [];
    }
    var d := cache.slots[k].inum;
    r, name := Walk(disk, cache, path, parent, k, d, dirs, old(cache.slots));
  }
}
