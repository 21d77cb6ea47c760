/** fs.c's dirlookup and dirlink, and sysfile.c's isdirempty and the clearing of an entry, as they run. */
module DirectoryOps {
  import opened Common
  import opened BlockWords
  import opened FileModel
  import opened FileState
  import opened FileSystem
  import WriteTrace
  import Log
  import opened Directory

  const T_DIR: Half := 1

  /** Inode d is a directory whose bytes are c. */
  ghost predicate IsDir(fs: Fs, d: nat, c: seq<Byte>) {
    Reads(fs, d, c) && fs.table[d].kind == T_DIR && Whole(c)
  }

  method ReadEntry(disk: FileSys, d: nat, k: nat, ghost c: seq<Byte>) returns (e: seq<Byte>)
    requires disk.Valid() && IsDir(disk.fs, d, c) && IsEntry(c, k)
    modifies disk
    ensures disk.Valid() && disk.fs == old(disk.fs) && disk.trace == old(disk.trace)
    ensures |e| == ESIZE && e == EntryOf(c, k)
  {
    var r;
    ReadsContents(disk.fs, d, c);
    r, e := disk.ReadI(d, ESIZE * k, ESIZE);
    assert r == Count(ESIZE);
  }

  /** dirlookup: the first entry for the name and its inode number, or -1 when there is none. */
  method DirLookup(disk: FileSys, d: nat, name: Name, ghost c: seq<Byte>) returns (k: int, inum: Half)
    requires disk.Valid() && IsDir(disk.fs, d, c) && 0 !in name
    modifies disk
    ensures disk.Valid() && disk.fs == old(disk.fs) && disk.trace == old(disk.trace)
    ensures k >= 0 ==> Names(c, k, Key(name)) && NotBefore(c, k, Key(name)) && inum == EInum(EntryOf(c, k))
    ensures k < 0 ==> ESIZE * (|c| / ESIZE) >= |c| && NotBefore(c, |c| / ESIZE, Key(name))
  {
    var j := 0;
    while ESIZE * j < disk.mem[d].size
      invariant 0 <= j && ESIZE * j <= |c|
      invariant disk.Valid() && disk.fs == old(disk.fs) && disk.trace == old(disk.trace)
      invariant NotBefore(c, j, Key(name))
      decreases |c| - ESIZE * j
    {
      var e := ReadEntry(disk, d, j, c);
      var hit := Matches(e, name);
      if hit {
        return j, EInum(e);
      }
      NotBeforeMore(c, j, Key(name));
      j := j + 1;
    }
    k, inum := -1, 0;
  }

  /** The first entry not in use, or the end of the directory. */
  method FindSlot(disk: FileSys, d: nat, ghost c: seq<Byte>) returns (k: nat)
    requires disk.Valid() && IsDir(disk.fs, d, c)
    modifies disk
    ensures disk.Valid() && disk.fs == old(disk.fs) && disk.trace == old(disk.trace)
    ensures ESIZE * k <= |c| && !Live(c, k)
    ensures forall j :: 0 <= j < k ==> Live(c, j)
  {
    k := 0;
    while ESIZE * k < disk.mem[d].size
      invariant ESIZE * k <= |c|
      invariant forall j :: 0 <= j < k ==> Live(c, j)
      invariant disk.Valid() && disk.fs == old(disk.fs) && disk.trace == old(disk.trace)
      decreases |c| - ESIZE * k
    {
      var e := ReadEntry(disk, d, k, c);
      if EInum(e) == 0 {
        return;
      }
      k := k + 1;
    }
  }

  /** What a written entry leaves: the directory with that entry replaced, every other file as it was. */
  ghost predicate WroteEntry(fs: Fs, fs': Fs, d: nat, c: seq<Byte>, k: nat, e: seq<Byte>) {
    && ESIZE * k <= |c| && OthersSame(fs, fs', d) && IsDir(fs', d, Patch(c, ESIZE * k, e))
  }

  lemma EntryWritten(fs: Fs, fs': Fs, d: nat, c: seq<Byte>, k: nat, e: seq<Byte>)
    requires IsDir(fs, d, c) && ESIZE * k <= |c| && |e| == ESIZE && Known(WroteFile(fs, fs', d, ESIZE * k, e))
    ensures WroteEntry(fs, fs', d, c, k, e)
  {
    ReadsContents(fs, d, c);
    ReadsContents(fs', d, Patch(c, ESIZE * k, e));
    EntryAfter(c, k, e, k);
  }

  /** A whole entry is written, unless log_write refuses or the directory has to grow and cannot. For an entry that is
      there already it is one block, so the log decides. */
  method WriteEntry(disk: FileSys, d: nat, k: nat, e: seq<Byte>, ghost c: seq<Byte>) returns (ok: bool)
    requires disk.Valid() && IsDir(disk.fs, d, c) && ESIZE * k <= |c| && |e| == ESIZE
    modifies disk
    ensures ok ==> disk.Valid() && WroteEntry(old(disk.fs), disk.fs, d, c, k, e)
    ensures !ok ==> disk.refused || (ESIZE * k + ESIZE > |c| && (AllUsed(disk.fs) || ESIZE * k + ESIZE > MAXBYTES))
    ensures ESIZE * k + ESIZE <= |c| ==> (ok <==> !Log.TooMany(disk.nlog, |old(disk.lh)|))
  {
    ghost var fs0, lh1, touched1 := disk.fs, disk.lh, disk.touched;
    WriteTrace.LogLists(disk.nlog, disk.base, disk.lh0, disk.trace);
    var off := ESIZE * k;
    var r;
    ghost var done;
    r, done := disk.WriteI(d, e, off);
    ok := r.Count?;
    if ok {
      EntryWritten(fs0, disk.fs, d, c, k, e);
    }
    if done {
      EntryRefused(disk.g.bmapstart, disk.nlog, disk.lh0, fs0, disk.fs, d, k, off, touched1, lh1, disk.refused);
    }
  }

  /** An entry lies in one block, so the only call of log_write for one that is there already decides. */
  lemma EntryRefused(bs: nat, nlog: nat, lh0: set<nat>, fs: Fs, fs': Fs, d: nat, k: nat, off: nat, T: set<nat>, lh: set<nat>,
                     refused: bool)
    requires Known(Refused(bs, nlog, lh0, fs, fs', d, off, ESIZE, T, false, refused)) && off == ESIZE * k && lh == lh0 + T
    ensures d < |fs.table| && (off + ESIZE <= fs.table[d].size ==> (refused <==> Log.TooMany(nlog, |lh|)))
  {
    if off + ESIZE <= fs.table[d].size {
      var e := Earlier(bs, fs', d, fs.table[d].size, off, EndOf(off, ESIZE));
      assert e == {};
      assert lh0 + (T + e) == lh;
    }
  }

  datatype LinkResult = Linked | Exists | Panic

  /** The bindings after dirlink; a directory entry has room for sixteen bits of the inode number. */
  function MapAfterLink(m: map<Name, Half>, name: Name, inum: Word): map<Name, Half> {
    if inum % 0x1_0000 == 0 then m else m[Key(name) := inum % 0x1_0000]
  }

  lemma EntryLinks(c: seq<Byte>, m: map<Name, Half>, k: nat, name: Name, inum: Word)
    requires Refines(c, m) && ESIZE * k <= |c| && !Live(c, k) && Key(name) !in m && 0 !in name
    ensures Refines(Patch(c, ESIZE * k, NewEntry(name, inum % 0x1_0000)), MapAfterLink(m, name, inum))
  {
    var h: Half := inum % 0x1_0000;
    if h == 0 {
      NewEntryReadsBack(name, h);
      DeadRefines(c, m, k, NewEntry(name, h));
    } else {
      LinkRefines(c, m, k, name, h);
    }
  }

  /** dirlink: refuse a name that is bound; otherwise bind it, and change no other binding and no other file. */
  method DirLink(disk: FileSys, d: nat, name: Name, inum: Word, ghost c: seq<Byte>, ghost m: map<Name, Half>)
    returns (r: LinkResult, ghost c': seq<Byte>)
    requires disk.Valid() && IsDir(disk.fs, d, c) && Refines(c, m) && 0 !in name
    modifies disk
    ensures r == Exists <==> Key(name) in m
    ensures r == Exists ==> disk.Valid() && disk.fs == old(disk.fs)
    ensures r == Linked ==> disk.Valid() && OthersSame(old(disk.fs), disk.fs, d)
    ensures r == Linked ==> IsDir(disk.fs, d, c') && Refines(c', MapAfterLink(m, name, inum))
    ensures MapAfterLink(m, name, inum) ==
      if inum % 65536 == 0 then m else m[(if |name| > 14 then name[..14] else name) := inum % 65536]
    ensures r == Linked && |c'| != |c| ==> forall j :: 0 <= j < |c| / ESIZE ==> Live(c, j)
    ensures r == Panic ==> disk.refused || AllUsed(disk.fs) || |c| + ESIZE > MAXBYTES
    ensures r == Panic && !disk.refused ==> forall j :: 0 <= j < |c| / ESIZE ==> Live(c, j)
  {
    var k0, _ := DirLookup(disk, d, name, c);
    c' := c;
    if k0 >= 0 {
      NamedIn(c, m, k0, Key(name));
      return Exists, c;
    }
    NotThere(c, m, |c| / ESIZE, Key(name));
    var k := FindSlot(disk, d, c);
    var f := StrNCpy(name);
    var h: Half := inum % 0x1_0000;
    var e := [h % 0x100, h / 0x100] + f;
    ghost var fs0 := disk.fs;
    c' := Patch(c, ESIZE * k, e);
    EntryLinks(c, m, k, name, inum);
    var ok := WriteEntry(disk, d, k, e, c);
    r := if ok then Linked else Panic;
  }

  /** The clearing write of unlink at an entry that dirlookup found: one binding goes, no other file changes, and
      even on a full disk the write does not come back short. It fails exactly when log_write finds the log full. */
  method ClearEntry(disk: FileSys, d: nat, k: nat, key: Name, ghost c: seq<Byte>, ghost m: map<Name, Half>)
    returns (ok: bool, ghost c': seq<Byte>)
    requires disk.Valid() && IsDir(disk.fs, d, c) && Refines(c, m) && Names(c, k, key)
    modifies disk
    ensures ok <==> !Log.TooMany(disk.nlog, |old(disk.lh)|)
    ensures ok ==> disk.Valid() && OthersSame(old(disk.fs), disk.fs, d)
    ensures ok ==> IsDir(disk.fs, d, c') && Refines(c', m - {key})
  {
    var e: seq<Byte> := seq(ESIZE, _ => 0);
    c' := Patch(c, ESIZE * k, e);
    UnlinkRefines(c, m, k, key);
    ok := WriteEntry(disk, d, k, e, c);
  }

  /** isdirempty: nothing in use after the first two entries. */
  method IsDirEmpty(disk: FileSys, d: nat, ghost c: seq<Byte>) returns (empty: bool)
    requires disk.Valid() && IsDir(disk.fs, d, c)
    modifies disk
    ensures disk.Valid() && disk.fs == old(disk.fs) && disk.trace == old(disk.trace)
    ensures empty <==> forall k :: k >= 2 ==> !Live(c, k)
  {
    var k := 2;
    while ESIZE * k < disk.mem[d].size
      invariant 2 <= k && (ESIZE * k <= |c| || k == 2)
      invariant disk.Valid() && disk.fs == old(disk.fs) && disk.trace == old(disk.trace)
      invariant forall j :: 2 <= j < k ==> !Live(c, j)
      decreases |c| - ESIZE * k
    {
      var e := ReadEntry(disk, d, k, c);
      if EInum(e) != 0 {
        assert Live(c, k);
        return false;
      }
      k := k + 1;
    }
    empty := true;
  }
}
