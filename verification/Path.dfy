/** Path names as values: their components, what skipelem takes off, and the walk from directory to
    directory that a path stands for. */
module Path {
  import opened Common
  import opened BlockWords
  import opened FileModel
  import opened Directory

  const SLASH: Byte := 47

  // ---------- Components ----------

  /** The pieces between slashes, empty ones included. */
  function Split(p: Name): (r: seq<Name>)
    ensures |r| > 0
  {
    if p == [] then [[]]
    else if p[0] == SLASH then [[]] + Split(p[1..])
    else
      var r := Split(p[1..]);
      [[p[0]] + r[0]] + r[1..]
  }

  function NonEmptyKeys(r: seq<Name>): seq<Name> {
    if r == [] then []
    else if r[0] == [] then NonEmptyKeys(r[1..])
    else [Key(r[0])] + NonEmptyKeys(r[1..])
  }

  /** The nonempty pieces, each cut to the 14 bytes that count. */
  function Components(p: Name): seq<Name> {
    NonEmptyKeys(Split(p))
  }

  /** A slash at the front does not count. */
  lemma LeadingSlash(p: Name)
    requires p != [] && p[0] == 47
    ensures Components(p) == Components(p[1..])
  {
    assert Split(p)[1..] == Split(p[1..]);
  }

  lemma {:induction false} SplitFirst(p: Name, e: nat)
    requires e <= |p| && SLASH !in p[..e] && (e < |p| ==> p[e] == SLASH)
    ensures Split(p)[0] == p[..e] && Split(p)[1..] == if e < |p| then Split(p[e + 1..]) else []
  {
    if e == 0 {
      if p != [] {
        assert Split(p)[1..] == Split(p[1..]);
      }
    } else {
      assert p[0] in p[..e];
      assert p[1..][..e - 1] == p[..e][1..];
      SplitFirst(p[1..], e - 1);
      assert p[..e] == [p[0]] + p[1..][..e - 1];
      if e < |p| {
        assert p[1..][e..] == p[e + 1..];
      }
    }
  }

  /** The first component of a path that starts with one, and the rest.  With `LeadingSlash` and `NoComponents` this
      says of every path what its components are. */
  lemma FirstComponent(p: Name, e: nat)
    requires 0 < e <= |p| && 47 !in p[..e] && (e < |p| ==> p[e] == 47)
    ensures Components(p) == [if e > 14 then p[..14] else p[..e]] + Components(p[e..])
  {
    SplitFirst(p, e);
    assert Key(p[..e]) == if e > 14 then p[..14] else p[..e];
    if e < |p| {
      LeadingSlash(p[e..]);
      assert p[e..][1..] == p[e + 1..];
    } else {
      assert p[e..] == [];
      NoComponents();
    }
  }

  lemma NoComponents()
    ensures Components([]) == []
  {
    var r := Split([]);
    assert r[0] == [] && r[1..] == [];
  }

  lemma {:induction false} SlashesOnly(p: Name, i: nat)
    requires i <= |p| && forall k :: 0 <= k < i ==> p[k] == SLASH
    ensures Components(p) == Components(p[i..])
  {
    if i > 0 {
      LeadingSlash(p);
      SlashesOnly(p[1..], i - 1);
      assert p[1..][i - 1..] == p[i..];
    } else {
      assert p[0..] == p;
    }
  }

  /** skipelem from place i: the next component and the place of the one after it, or None when there is
      none. The last component leaves the end of the path. */
  method SkipElem(path: Name, i: nat) returns (r: Option<Name>, j: nat)
    requires i <= |path|
    ensures r.None? <==> Components(path[i..]) == []
    ensures i <= j <= |path|
    ensures r.Some? ==> i < j && Components(path[i..]) == [r.value] + Components(path[j..])
    ensures r.Some? ==> (j == |path| <==> Components(path[j..]) == [])
    ensures r.Some? ==> |r.value| <= DIRSIZ && (0 !in path ==> 0 !in r.value)
  {
    var a := SkipSlashes(path, i);
    if a == |path| {
      NoComponents();
      return None, a;
    }
    var e := a;
    while e < |path| && path[e] != SLASH
      invariant a <= e <= |path| && SLASH !in path[a..e]
    {
      e := e + 1;
    }
    var len := e - a;
    r := Some(if len >= DIRSIZ then path[a..a + DIRSIZ] else path[a..e]);
    assert path[a..][..len] == path[a..e] && path[a..][len..] == path[e..];
    FirstComponent(path[a..], len);
    assert r.value == if len > 14 then path[a..][..14] else path[a..][..len];
    j := SkipSlashes(path, e);
    RestHasComponent(path, j);
  }

  method SkipSlashes(path: Name, i: nat) returns (j: nat)
    requires i <= |path|
    ensures i <= j <= |path| && (j < |path| ==> path[j] != SLASH)
    ensures Components(path[i..]) == Components(path[j..])
  {
    j := i;
    while j < |path| && path[j] == SLASH
      invariant i <= j <= |path| && forall k :: i <= k < j ==> path[k] == SLASH
    {
      j := j + 1;
    }
    SlashesOnly(path[i..], j - i);
    assert path[i..][j - i..] == path[j..];
  }

  /** A path without a leading slash has a component unless it is at its end. */
  lemma RestHasComponent(path: Name, j: nat)
    requires j <= |path| && (j < |path| ==> path[j] != SLASH)
    ensures j == |path| <==> Components(path[j..]) == []
  {
    var p := path[j..];
    if p == [] {
      NoComponents();
    } else {
      assert Split(p)[0] != [];
    }
  }

  // ---------- Walking ----------

  /** The directories: for each inode that is one, its bindings. */
  type Dirs = map<nat, map<Name, Half>>

  /** Where a sequence of names leads from inode d. With `parent` the walk stops one name early, at the
      directory that would hold the last one. */
  function Resolve(dirs: Dirs, d: nat, names: seq<Name>, parent: bool): Option<nat>
    decreases |names|
  {
    if names == [] then if parent then None else Some(d)
    else if d !in dirs then None
    else if parent && |names| == 1 then Some(d)
    else if names[0] !in dirs[d] then None
    else Resolve(dirs, dirs[d][names[0]], names[1..], parent)
  }

  /** Walking a path is walking its beginning and then, from there, its end. */
  lemma {:induction false} ResolveTwice(dirs: Dirs, d: nat, a: seq<Name>, b: seq<Name>)
    ensures Resolve(dirs, d, a + b, false) ==
      if Resolve(dirs, d, a, false).None? then None else Resolve(dirs, Resolve(dirs, d, a, false).value, b, false)
    decreases |a|
  {
    if a == [] {
      assert a + b == b;
    } else {
      assert (a + b)[1..] == a[1..] + b;
      if d in dirs && a[0] in dirs[d] {
        ResolveTwice(dirs, dirs[d][a[0]], a[1..], b);
      }
    }
  }

  /** The parent of a path is where all but its last name leads, if that is a directory. */
  lemma {:induction false} ParentIs(dirs: Dirs, d: nat, a: seq<Name>, last: Name)
    ensures Resolve(dirs, d, a + [last], true) ==
      var p := Resolve(dirs, d, a, false); if p.Some? && p.value in dirs then p else None
    decreases |a|
  {
    if a != [] {
      assert (a + [last])[1..] == a[1..] + [last];
      if d in dirs && a[0] in dirs[d] {
        ParentIs(dirs, dirs[d][a[0]], a[1..], last);
      }
    }
  }

  /** A whole path is the last name looked up in its parent. */
  lemma LastStep(dirs: Dirs, d: nat, a: seq<Name>, last: Name)
    ensures Resolve(dirs, d, a + [last], false) ==
      var p := Resolve(dirs, d, a + [last], true);
      if p.Some? && p.value in dirs && last in dirs[p.value] then Some(dirs[p.value][last]) else None
  {
    ResolveTwice(dirs, d, a, [last]);
    ParentIs(dirs, d, a, last);
    var p := Resolve(dirs, d, a, false);
    if p.Some? && p.value in dirs && last in dirs[p.value] {
      assert Resolve(dirs, p.value, [last], false) == Resolve(dirs, dirs[p.value][last], [last][1..], false);
    }
  }

  /** A walk step by step: each inode but the last is a directory, and its binding for the next name is the next inode. */
  ghost predicate Trail(dirs: Dirs, ds: seq<nat>, names: seq<Name>) {
    && |ds| == |names| + 1
    && forall i :: 0 <= i < |names| ==> ds[i] in dirs && names[i] in dirs[ds[i]] && ds[i + 1] == dirs[ds[i]][names[i]]
  }

  ghost predicate LeadsTo(dirs: Dirs, d: nat, names: seq<Name>, x: nat) {
    exists ds :: Trail(dirs, ds, names) && ds[0] == d && ds[|names|] == x
  }

  lemma LeadsNowhere(dirs: Dirs, d: nat, x: nat)
    ensures LeadsTo(dirs, d, [], x) <==> x == d
  {
    if x == d {
      assert Trail(dirs, [d], []);
    }
  }

  lemma LeadsOn(dirs: Dirs, d: nat, names: seq<Name>, x: nat)
    requires names != []
    ensures LeadsTo(dirs, d, names, x) <==>
      d in dirs && names[0] in dirs[d] && LeadsTo(dirs, dirs[d][names[0]], names[1..], x)
  {
    if LeadsTo(dirs, d, names, x) {
      var ds :| Trail(dirs, ds, names) && ds[0] == d && ds[|names|] == x;
      assert ds[0] in dirs && names[0] in dirs[ds[0]] && ds[1] == dirs[ds[0]][names[0]];
      assert Trail(dirs, ds[1..], names[1..]);
    }
    if d in dirs && names[0] in dirs[d] && LeadsTo(dirs, dirs[d][names[0]], names[1..], x) {
      var ds :| Trail(dirs, ds, names[1..]) && ds[0] == dirs[d][names[0]] && ds[|names| - 1] == x;
      var all := [d] + ds;
      forall i | 0 <= i < |names|
        ensures all[i] in dirs && names[i] in dirs[all[i]] && all[i + 1] == dirs[all[i]][names[i]]
      {
        if i > 0 {
          assert names[1..][i - 1] == names[i] && all[i] == ds[i - 1] && all[i + 1] == ds[i];
        }
      }
      assert Trail(dirs, all, names);
    }
  }

  /** A path leads to x exactly if there is such a walk, and its parent is the directory that the walk without the
      last name ends in. */
  lemma {:induction false} ResolveIs(dirs: Dirs, d: nat, names: seq<Name>, x: nat)
    ensures Resolve(dirs, d, names, false) == Some(x) <==> LeadsTo(dirs, d, names, x)
    ensures Resolve(dirs, d, names, true) == Some(x) <==>
      names != [] && x in dirs && LeadsTo(dirs, d, names[..|names| - 1], x)
    decreases |names|
  {
    if names == [] {
      LeadsNowhere(dirs, d, x);
    } else {
      var first := names[..|names| - 1];
      LeadsOn(dirs, d, names, x);
      if |names| == 1 {
        LeadsNowhere(dirs, d, x);
      } else {
        LeadsOn(dirs, d, first, x);
        assert first[1..] == names[1..][..|names| - 2];
      }
      if d in dirs && names[0] in dirs[d] {
        ResolveIs(dirs, dirs[d][names[0]], names[1..], x);
      }
    }
  }
}
