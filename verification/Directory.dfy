/** Directories as values: a file of 16-byte entries, and the finite map from names to inode numbers that it
    stands for. */
module Directory {
  import opened BlockWords
  import opened FileModel

  const DIRSIZ := 14
  const ESIZE := 16

  type Name = seq<Byte>

  // ---------- Names ----------

  /** The part of a name that counts. */
  function Key(name: Name): (key: Name)
    ensures |key| <= DIRSIZ
  {
    if |name| <= DIRSIZ then name else name[..DIRSIZ]
  }

  /** The string in a field: up to its first zero byte or its end. */
  function UpToNul(s: seq<Byte>): (r: Name)
    ensures |r| <= |s|
  {
    if s == [] || s[0] == 0 then [] else [s[0]] + UpToNul(s[1..])
  }

  /** What strncpy leaves in the field. */
  function Field(name: Name): (f: seq<Byte>)
    ensures |f| == DIRSIZ
  {
    Key(name) + seq(DIRSIZ - |Key(name)|, _ => 0)
  }

  lemma {:induction false} UpToNulPadded(s: seq<Byte>, n: nat)
    requires 0 !in s
    ensures UpToNul(s + seq(n, _ => 0)) == s
  {
    if s != [] {
      UpToNulPadded(s[1..], n);
      assert (s + seq(n, _ => 0))[1..] == s[1..] + seq(n, _ => 0);
      assert s[0] in s;
    }
  }

  /** A stored name reads back as the part of it that counts. */
  lemma FieldReadsBack(name: Name)
    requires 0 !in name
    ensures UpToNul(Field(name)) == Key(name)
  {
    assert 0 !in Key(name);
    UpToNulPadded(Key(name), DIRSIZ - |Key(name)|);
  }

  /** strncpy into the field of an entry. */
  method StrNCpy(name: Name) returns (f: seq<Byte>)
    requires 0 !in name
    ensures f == Field(name)
  {
    f := [];
    while |f| < DIRSIZ && |f| < |name|
      invariant |f| <= DIRSIZ && |f| <= |name| && f == name[..|f|]
      decreases DIRSIZ - |f|
    {
      f := f + [name[|f|]];
    }
    ghost var k := |f|;
    assert f == Key(name);
    while |f| < DIRSIZ
      invariant k <= |f| <= DIRSIZ && f == Key(name) + seq(|f| - k, _ => 0)
      decreases DIRSIZ - |f|
    {
      f := f + [0];
    }
  }

  /** namecmp says equal exactly when the name's first 14 bytes are the string in the field. */
  method NameCmp(name: Name, f: seq<Byte>) returns (same: bool)
    requires 0 !in name && |f| == DIRSIZ
    ensures same <==> Key(name) == UpToNul(f)
  {
    var k := 0;
    while k < DIRSIZ && k < |name| && name[k] == f[k]
      invariant 0 <= k <= DIRSIZ && k <= |name|
      invariant name[..k] == f[..k]
    {
      k := k + 1;
    }
    assert 0 !in name[..k];
    UpToNulPrefix(f, k);
    same := k == DIRSIZ || (k == |name| && f[k] == 0);
    if k == DIRSIZ {
      assert Key(name) == name[..k] == f[..k] && f[k..] == [];
    } else if k == |name| {
      assert Key(name) == name[..k] && f[k..][0] == f[k];
    } else {
      assert name[k] in name;
      NameDiffers(name, f, k);
    }
  }

  lemma {:induction false} UpToNulPrefix(f: seq<Byte>, k: nat)
    requires k <= |f| && 0 !in f[..k]
    ensures UpToNul(f) == f[..k] + UpToNul(f[k..])
  {
    if k > 0 {
      assert f[0] in f[..k];
      assert f[1..][..k - 1] == f[..k][1..] && f[1..][k - 1..] == f[k..];
      UpToNulPrefix(f[1..], k - 1);
    } else {
      assert f[0..] == f;
    }
  }

  lemma NameDiffers(name: Name, f: seq<Byte>, k: nat)
    requires k < |name| && k < DIRSIZ == |f| && name[..k] == f[..k] && name[k] != f[k] && 0 !in name
    requires UpToNul(f) == f[..k] + UpToNul(f[k..])
    ensures Key(name) != UpToNul(f)
  {
    assert Key(name)[k] == name[k] != 0 by {
      assert name[k] in name;
    }
    if |UpToNul(f)| > k {
      assert UpToNul(f)[k] == f[k];
    }
  }

  // ---------- Entries ----------

  predicate Whole(c: seq<Byte>) {
    |c| % ESIZE == 0
  }

  predicate IsEntry(c: seq<Byte>, k: int) {
    0 <= k && ESIZE * k + ESIZE <= |c|
  }

  function EntryOf(c: seq<Byte>, k: nat): (e: seq<Byte>)
    requires IsEntry(c, k)
    ensures |e| == ESIZE
  {
    c[ESIZE * k..ESIZE * k + ESIZE]
  }

  function EInum(e: seq<Byte>): Half
    requires |e| == ESIZE
  {
    var low: int, high: int := e[0], e[1];
    low + 0x100 * high
  }

  function EName(e: seq<Byte>): Name
    requires |e| == ESIZE
  {
    UpToNul(e[2..])
  }

  function NewEntry(name: Name, inum: Half): (e: seq<Byte>)
    ensures |e| == ESIZE
  {
    [inum % 0x100, inum / 0x100] + Field(name)
  }

  lemma NewEntryReadsBack(name: Name, inum: Half)
    requires 0 !in name
    ensures EInum(NewEntry(name, inum)) == inum && EName(NewEntry(name, inum)) == Key(name)
  {
    FieldReadsBack(name);
    assert NewEntry(name, inum)[2..] == Field(name);
  }

  predicate Live(c: seq<Byte>, k: int) {
    IsEntry(c, k) && EInum(EntryOf(c, k)) != 0
  }

  /** The k-th entry is in use, for this name. */
  predicate Names(c: seq<Byte>, k: int, key: Name) {
    Live(c, k) && EName(EntryOf(c, k)) == key
  }

  // ---------- The map ----------

  /** The directory stands for the map m, and holds no name twice. */
  ghost predicate Refines(c: seq<Byte>, m: map<Name, Half>) {
    && Whole(c)
    && (forall k {:trigger EntryOf(c, k)} :: Live(c, k) ==> Binds(m, EntryOf(c, k)))
    && (forall key :: key in m ==> exists k :: Names(c, k, key))
    && (forall j, k, key :: Names(c, j, key) && Names(c, k, key) ==> j == k)
  }

  predicate Binds(m: map<Name, Half>, e: seq<Byte>)
    requires |e| == ESIZE
  {
    EName(e) in m && m[EName(e)] == EInum(e)
  }

  lemma NamedIn(c: seq<Byte>, m: map<Name, Half>, k: int, key: Name)
    requires Refines(c, m) && Names(c, k, key)
    ensures key in m && m[key] == EInum(EntryOf(c, k))
  {
    assert Binds(m, EntryOf(c, k));
  }

  lemma RefinesSub(c: seq<Byte>, m: map<Name, Half>, n: map<Name, Half>, key: Name)
    requires Refines(c, m) && Refines(c, n) && key in m
    ensures key in n && n[key] == m[key]
  {
    var k :| Names(c, k, key);
    NamedIn(c, m, k, key);
    NamedIn(c, n, k, key);
  }

  /** The map is a function of the bytes. */
  lemma RefinesOne(c: seq<Byte>, m: map<Name, Half>, n: map<Name, Half>)
    requires Refines(c, m) && Refines(c, n)
    ensures m == n
  {
    forall key | key in m
      ensures key in n && n[key] == m[key]
    {
      RefinesSub(c, m, n, key);
    }
    forall key | key in n
      ensures key in m
    {
      RefinesSub(c, n, m, key);
    }
  }

  /** Writing one entry, over an old one or at the end, changes that entry alone. */
  lemma EntryAfter(c: seq<Byte>, k: nat, e: seq<Byte>, j: int)
    requires Whole(c) && ESIZE * k <= |c| && |e| == ESIZE
    ensures var c' := Patch(c, ESIZE * k, e);
      && Whole(c') && (IsEntry(c', j) <==> IsEntry(c, j) || j == k)
      && (IsEntry(c', j) ==> EntryOf(c', j) == if j == k then e else EntryOf(c, j))
  {
    var c' := Patch(c, ESIZE * k, e);
    if IsEntry(c, j) && j != k {
      assert EntryOf(c', j) == EntryOf(c, j);
    } else if j == k {
      assert EntryOf(c', k) == e;
    }
  }

  /** dirlink's write: exactly one binding is added. */
  lemma LinkRefines(c: seq<Byte>, m: map<Name, Half>, k: nat, name: Name, inum: Half)
    requires Refines(c, m) && ESIZE * k <= |c| && !Live(c, k) && Key(name) !in m && 0 !in name && inum != 0
    ensures Refines(Patch(c, ESIZE * k, NewEntry(name, inum)), m[Key(name) := inum])
  {
    var e, m' := NewEntry(name, inum), m[Key(name) := inum];
    var c' := Patch(c, ESIZE * k, e);
    NewEntryReadsBack(name, inum);
    EntryAfter(c, k, e, k);
    forall j, key
      ensures Names(c', j, key) <==> if j == k then key == Key(name) else Names(c, j, key)
    {
      EntryAfter(c, k, e, j);
    }
    forall j | Live(c', j)
      ensures Binds(m', EntryOf(c', j))
    {
      EntryAfter(c, k, e, j);
      if j != k {
        assert Binds(m, EntryOf(c, j));
      }
    }
    forall key | key in m'
      ensures exists j :: Names(c', j, key)
    {
      if key == Key(name) {
        assert Names(c', k, key);
      } else {
        var j :| Names(c, j, key);
        assert Names(c', j, key);
      }
    }
    forall i, j, key | Names(c', i, key) && Names(c', j, key)
      ensures i == j
    {
      if i != k {
        NamedIn(c, m, i, key);
      }
      if j != k {
        NamedIn(c, m, j, key);
      }
    }
  }

  /** An entry with inode number zero is no entry: writing one in a free place changes nothing. */
  lemma DeadRefines(c: seq<Byte>, m: map<Name, Half>, k: nat, e: seq<Byte>)
    requires Refines(c, m) && ESIZE * k <= |c| && !Live(c, k) && |e| == ESIZE && EInum(e) == 0
    ensures Refines(Patch(c, ESIZE * k, e), m)
  {
    var c' := Patch(c, ESIZE * k, e);
    EntryAfter(c, k, e, k);
    forall j, key
      ensures Names(c', j, key) <==> Names(c, j, key)
    {
      EntryAfter(c, k, e, j);
    }
    forall j | Live(c', j)
      ensures Binds(m, EntryOf(c', j))
    {
      EntryAfter(c, k, e, j);
      assert Names(c, j, EName(EntryOf(c, j)));
      NamedIn(c, m, j, EName(EntryOf(c, j)));
    }
    forall key | key in m
      ensures exists j :: Names(c', j, key)
    {
      var j :| Names(c, j, key);
      assert Names(c', j, key);
    }
  }

  /** unlink's write of a zeroed entry: exactly one binding is removed. */
  lemma UnlinkRefines(c: seq<Byte>, m: map<Name, Half>, k: nat, key: Name)
    requires Refines(c, m) && Names(c, k, key)
    ensures Refines(Patch(c, ESIZE * k, seq(ESIZE, _ => 0)), m - {key})
  {
    var e: seq<Byte>, m' := seq(ESIZE, _ => 0), m - {key};
    var c' := Patch(c, ESIZE * k, e);
    EntryAfter(c, k, e, k);
    forall j, other
      ensures Names(c', j, other) <==> j != k && Names(c, j, other)
    {
      EntryAfter(c, k, e, j);
    }
    forall j | Live(c', j)
      ensures Binds(m', EntryOf(c', j))
    {
      EntryAfter(c, k, e, j);
      var other := EName(EntryOf(c, j));
      assert Names(c, j, other);
      NamedIn(c, m, j, other);
    }
    forall other | other in m'
      ensures exists j :: Names(c', j, other)
    {
      var j :| Names(c, j, other);
      assert Names(c', j, other);
    }
  }

  // ---------- Searching ----------

  /** No entry before k is for the name. */
  ghost predicate NotBefore(c: seq<Byte>, k: nat, key: Name) {
    forall j {:trigger Names(c, j, key)} :: 0 <= j < k ==> !Names(c, j, key)
  }

  lemma NotBeforeMore(c: seq<Byte>, k: nat, key: Name)
    requires NotBefore(c, k, key) && IsEntry(c, k) && !Hits(EntryOf(c, k), key)
    ensures NotBefore(c, k + 1, key)
  {
  }

  predicate Hits(e: seq<Byte>, key: Name)
    requires |e| == ESIZE
  {
    EInum(e) != 0 && EName(e) == key
  }

  /** dirlookup's test of one entry. */
  method Matches(e: seq<Byte>, name: Name) returns (hit: bool)
    requires |e| == ESIZE && 0 !in name
    ensures hit <==> Hits(e, Key(name))
  {
    if EInum(e) == 0 {
      return false;
    }
    hit := NameCmp(name, e[2..]);
  }

  /** A search that ran to the end proves the name unbound. */
  lemma NotThere(c: seq<Byte>, m: map<Name, Half>, k: nat, key: Name)
    requires Refines(c, m) && ESIZE * k >= |c| && NotBefore(c, k, key)
    ensures key !in m
  {
    forall j
      ensures !Names(c, j, key)
    {
      if IsEntry(c, j) {
        assert 0 <= j < k;
      }
    }
  }
}
