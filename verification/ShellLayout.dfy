/** Where the parts of a command stand in the line it was typed in, said of the characters alone: which words are
    arguments and which are files, and which '|', ';' and '&' make which node of the tree. */
module ShellLayout {
  import opened ShellGrammar

  /** The scanner's two sets of characters. */
  lemma CharClasses(c: char)
    ensures IsSpace(c) <==> c in " \t\r\n\U{b}"
    ensures IsSymbol(c) <==> c in "<|>&;()"
  {
  }

  predicate Blank(s: string, lo: nat, hi: nat)
    requires hi <= |s|
  {
    forall k :: lo <= k < hi ==> IsSpace(s[k])
  }

  /** [q, e) is a whole run of word characters: it can be extended to neither side. */
  predicate WordOf(s: string, q: nat, e: nat) {
    && q < e <= |s| && (forall k :: q <= k < e ==> IsWordChar(s[k]))
    && (e < |s| ==> !IsWordChar(s[e])) && (q > 0 ==> !IsWordChar(s[q - 1]))
  }

  /** No word goes across i. */
  predicate Boundary(s: string, i: nat) {
    i <= |s| && (0 < i < |s| ==> !IsWordChar(s[i - 1]) || !IsWordChar(s[i]))
  }

  lemma WordsApart(s: string, q: nat, e: nat, q': nat, e': nat)
    requires WordOf(s, q, e) && WordOf(s, q', e')
    ensures (q == q' && e == e') || e <= q' || e' <= q
  {
  }

  lemma WordSide(s: string, q: nat, e: nat, i: nat)
    requires WordOf(s, q, e) && Boundary(s, i)
    ensures e <= i || i <= q
  {
  }

  lemma BlankWordless(s: string, lo: nat, hi: nat, q: nat, e: nat)
    requires hi <= |s| && Blank(s, lo, hi) && WordOf(s, q, e) && lo <= q
    ensures e > hi
  {
    assert IsWordChar(s[q]);
  }

  // ---------- Redirections ----------

  /** The last character before q that is not white space is the '<' or '>' at m. */
  predicate OpBefore(s: string, lo: nat, q: nat, m: nat)
    requires q <= |s|
  {
    lo <= m < q && (s[m] == '<' || s[m] == '>') && Blank(s, m + 1, q)
  }

  /** A word that begins at q is the file of a redirection. */
  ghost predicate IsFile(s: string, lo: nat, q: nat)
    requires q <= |s|
  {
    exists m: nat :: OpBefore(s, lo, q, m)
  }

  ghost predicate NoFiles(s: string, lo: nat, from: nat, hi: nat)
    requires hi <= |s|
  {
    forall q: nat, e: nat :: WordOf(s, q, e) && from <= q && e <= hi ==> !IsFile(s, lo, q)
  }

  ghost predicate AllFiles(s: string, lo: nat, from: nat, hi: nat)
    requires hi <= |s|
  {
    forall q: nat, e: nat :: WordOf(s, q, e) && from <= q && e <= hi ==> IsFile(s, lo, q)
  }

  /** '<' opens the file for reading as descriptor 0, '>' for writing as descriptor 1. */
  predicate OpenedAs(c: Cmd, op: char)
    requires c.RedirCmd?
  {
    if op == '<' then !c.forWriting && c.fd == 0 else c.forWriting && c.fd == 1
  }

  ghost predicate Opened(s: string, lo: nat, c: Cmd)
    requires c.RedirCmd? && c.q <= |s|
  {
    exists m: nat :: OpBefore(s, lo, c.q, m) && OpenedAs(c, s[m])
  }

  /** c is base under one redirection for each file of [lo, hi), the first innermost. */
  ghost predicate Wrapped(s: string, c: Cmd, base: Cmd, lo: nat, hi: nat)
    requires lo <= hi <= |s|
    decreases c
  {
    || (c == base && NoFiles(s, lo, lo, hi))
    || (&& c.RedirCmd? && lo <= c.q && c.e <= hi && WordOf(s, c.q, c.e) && Opened(s, lo, c)
        && NoFiles(s, lo, c.e, hi) && Wrapped(s, c.cmd, base, lo, c.q))
  }

  /** Words beyond hi that are no files change nothing. */
  lemma WrappedMore(s: string, c: Cmd, base: Cmd, lo: nat, hi: nat, hi': nat)
    requires lo <= hi <= hi' <= |s| && Wrapped(s, c, base, lo, hi) && Boundary(s, hi) && NoFiles(s, lo, hi, hi')
    ensures Wrapped(s, c, base, lo, hi')
  {
    forall q: nat, e: nat | WordOf(s, q, e) && e <= hi'
      ensures e <= hi || hi <= q
    {
      WordSide(s, q, e, hi);
    }
  }

  // ---------- Arguments ----------

  /** The words in order of place. */
  predicate Ascending(argv: seq<(nat, nat)>) {
    forall i, j :: 0 <= i < j < |argv| ==> argv[i].1 <= argv[j].0
  }

  /** argv is all the words of [lo, hi) that are no files. */
  ghost predicate Arguments(s: string, argv: seq<(nat, nat)>, lo: nat, hi: nat)
    requires hi <= |s|
  {
    && Ascending(argv)
    && forall q: nat, e: nat :: (q, e) in argv <==> WordOf(s, q, e) && lo <= q && e <= hi && !IsFile(s, lo, q)
  }

  /** parseexec stores each word in the exec node, which may by then be under redirections. */
  function AddWord(c: Cmd, w: (nat, nat)): Cmd {
    match c
    case ExecCmd(argv) => ExecCmd(argv + [w])
    case RedirCmd(c', q, e, b, fd) => RedirCmd(AddWord(c', w), q, e, b, fd)
    case _ => c
  }

  lemma {:induction false} WrappedAdd(s: string, c: Cmd, argv: seq<(nat, nat)>, w: (nat, nat), lo: nat, hi: nat)
    requires lo <= hi <= |s| && Wrapped(s, c, ExecCmd(argv), lo, hi)
    ensures Wrapped(s, AddWord(c, w), ExecCmd(argv + [w]), lo, hi)
    decreases c
  {
    if c != ExecCmd(argv) {
      var m: nat :| OpBefore(s, lo, c.q, m) && OpenedAs(c, s[m]);
      assert OpenedAs(AddWord(c, w), s[m]);
      WrappedAdd(s, c.cmd, argv, w, lo, c.q);
    }
  }

  /** Only words and redirections. */
  predicate Plain(s: string, lo: nat, hi: nat)
    requires hi <= |s|
  {
    forall k :: lo <= k < hi ==> s[k] !in "|&;()"
  }

  /** Between two tokens of a simple command, or of the redirections after a parenthesis: c is what base has become. */
  ghost predicate SoFar(s: string, c: Cmd, base: Cmd, lo: nat, j: nat) {
    lo <= j <= |s| && Boundary(s, j) && !IsFile(s, lo, j) && Plain(s, lo, j) && Wrapped(s, c, base, lo, j)
  }

  lemma SoFarStarts(s: string, base: Cmd, lo: nat)
    requires Boundary(s, lo)
    ensures SoFar(s, base, base, lo, lo) && Arguments(s, [], lo, lo) && AllFiles(s, lo, lo, lo)
  {
  }

  /** A word [q, e) and the white space after it: no word follows an operator there. */
  lemma AfterWord(s: string, lo: nat, q: nat, e: nat, j: nat)
    requires WordOf(s, q, e) && lo <= q && e <= j <= |s| && Blank(s, e, j)
    ensures Boundary(s, j) && !IsFile(s, lo, j)
  {
    assert IsWordChar(s[e - 1]);
  }

  /** One redirection more: the operator ends at t, the file is [q, e), and the next token is at j'. */
  lemma RedirStep(s: string, c: Cmd, base: Cmd, lo: nat, j: nat, t: nat, q: nat, e: nat, j': nat, c': Cmd)
    requires SoFar(s, c, base, lo, j) && j < t <= q && WordOf(s, q, e) && e <= j' <= |s|
    requires (forall k :: j <= k < t ==> s[k] == '<' || s[k] == '>') && Blank(s, t, q) && Blank(s, e, j')
    requires c'.RedirCmd? && c'.cmd == c && c'.q == q && c'.e == e && OpenedAs(c', s[t - 1])
    ensures SoFar(s, c', base, lo, j') && AllFiles(s, lo, j, j')
  {
    assert OpBefore(s, lo, q, t - 1);
    AfterWord(s, lo, q, e, j');
    forall q': nat, e': nat | WordOf(s, q', e') && j <= q' && e' <= j'
      ensures q' == q && e' == e
    {
      WordsApart(s, q, e, q', e');
      assert IsWordChar(s[q']);
    }
    assert NoFiles(s, lo, j, q) && NoFiles(s, lo, e, j');
    WrappedMore(s, c, base, lo, j, q);
  }

  /** One argument more. */
  lemma ArgStep(s: string, c: Cmd, argv: seq<(nat, nat)>, lo: nat, j: nat, e: nat, j': nat)
    requires SoFar(s, c, ExecCmd(argv), lo, j) && Arguments(s, argv, lo, j)
    requires WordOf(s, j, e) && e <= j' <= |s| && Blank(s, e, j')
    ensures SoFar(s, AddWord(c, (j, e)), ExecCmd(argv + [(j, e)]), lo, j')
    ensures Arguments(s, argv + [(j, e)], lo, j')
  {
    var argv' := argv + [(j, e)];
    AfterWord(s, lo, j, e, j');
    WrappedAdd(s, c, argv, (j, e), lo, j);
    forall q: nat, e': nat | WordOf(s, q, e') && j <= q && e' <= j'
      ensures q == j && e' == e
    {
      WordsApart(s, j, e, q, e');
      if e <= q {
        BlankWordless(s, e, j', q, e');
      }
    }
    WrappedMore(s, AddWord(c, (j, e)), ExecCmd(argv'), lo, j, j');
    forall q: nat, e': nat
      ensures (q, e') in argv' <==> WordOf(s, q, e') && lo <= q && e' <= j' && !IsFile(s, lo, q)
    {
      if WordOf(s, q, e') {
        WordSide(s, q, e', j);
      }
      assert (q, e') in argv' <==> (q, e') in argv || (q, e') == (j, e);
    }
    forall i | 0 <= i < |argv|
      ensures argv[i].1 <= j
    {
      assert (argv[i].0, argv[i].1) in argv;
    }
  }

  /** Redirections leave the arguments alone. */
  lemma ArgumentsStay(s: string, argv: seq<(nat, nat)>, lo: nat, j: nat, j': nat)
    requires lo <= j <= j' <= |s| && Arguments(s, argv, lo, j) && Boundary(s, j) && AllFiles(s, lo, j, j')
    ensures Arguments(s, argv, lo, j')
  {
    forall q: nat, e: nat
      ensures (q, e) in argv <==> WordOf(s, q, e) && lo <= q && e <= j' && !IsFile(s, lo, q)
    {
      if WordOf(s, q, e) {
        WordSide(s, q, e, j);
      }
    }
  }

  lemma FilesMore(s: string, lo: nat, i: nat, j: nat, k: nat)
    requires i <= j <= k <= |s| && AllFiles(s, lo, i, j) && AllFiles(s, lo, j, k) && Boundary(s, j)
    ensures AllFiles(s, lo, i, k)
  {
    forall q: nat, e: nat | WordOf(s, q, e) && i <= q && e <= k
      ensures IsFile(s, lo, q)
    {
      WordSide(s, q, e, j);
    }
  }

  // ---------- Parentheses ----------

  function Step(c: char): int {
    if c == '(' then 1 else if c == ')' then -1 else 0
  }

  /** How many parentheses are open at hi, counted from lo. */
  function Depth(s: string, lo: nat, hi: nat): int
    requires lo <= hi <= |s|
    decreases hi
  {
    if lo == hi then 0 else Depth(s, lo, hi - 1) + Step(s[hi - 1])
  }

  predicate Balanced(s: string, lo: nat, hi: nat)
    requires lo <= hi <= |s|
  {
    Depth(s, lo, hi) == 0 && forall m :: lo <= m <= hi ==> Depth(s, lo, m) >= 0
  }

  /** Outside parentheses none of these characters occurs. */
  predicate Free(s: string, lo: nat, hi: nat, ops: string)
    requires lo <= hi <= |s|
  {
    forall m :: lo <= m < hi && s[m] in ops ==> Depth(s, lo, m) > 0
  }

  lemma {:induction false} DepthSum(s: string, lo: nat, mid: nat, hi: nat)
    requires lo <= mid <= hi <= |s|
    ensures Depth(s, lo, hi) == Depth(s, lo, mid) + Depth(s, mid, hi)
    decreases hi
  {
    if mid < hi {
      DepthSum(s, lo, mid, hi - 1);
    }
  }

  lemma {:induction false} PlainFlat(s: string, lo: nat, hi: nat)
    requires lo <= hi <= |s| && Plain(s, lo, hi)
    ensures Depth(s, lo, hi) == 0
    decreases hi
  {
    if lo < hi {
      assert s[hi - 1] !in "|&;()";
      PlainFlat(s, lo, hi - 1);
    }
  }

  lemma PlainFree(s: string, lo: nat, hi: nat, ops: string)
    requires lo <= hi <= |s| && Plain(s, lo, hi) && forall c :: c in ops ==> c in "|&;"
    ensures Balanced(s, lo, hi) && Free(s, lo, hi, ops)
  {
    forall m | lo <= m <= hi
      ensures Depth(s, lo, m) == 0
    {
      PlainFlat(s, lo, m);
    }
  }

  /** Two stretches side by side, and a character between them. */
  lemma JoinBalanced(s: string, lo: nat, m: nat, hi: nat)
    requires lo <= m < hi <= |s| && Balanced(s, lo, m) && Balanced(s, m + 1, hi) && Step(s[m]) == 0
    ensures Balanced(s, lo, hi)
    ensures forall k :: lo <= k <= m ==> Depth(s, lo, k) >= 0
    ensures forall k :: m < k <= hi ==> Depth(s, lo, k) == Depth(s, m + 1, k)
  {
    forall k | m < k <= hi
      ensures Depth(s, lo, k) == Depth(s, m + 1, k)
    {
      DepthSum(s, lo, m + 1, k);
    }
  }

  lemma JoinFree(s: string, lo: nat, m: nat, hi: nat, ops: string)
    requires lo <= m < hi <= |s| && Balanced(s, lo, m) && Balanced(s, m + 1, hi) && Step(s[m]) == 0
    requires Free(s, lo, m, ops) && Free(s, m + 1, hi, ops) && s[m] !in ops
    ensures Free(s, lo, hi, ops)
  {
    JoinBalanced(s, lo, m, hi);
  }

  /** A parenthesised stretch and redirections after it. */
  lemma ParensFree(s: string, a: nat, b: nat, hi: nat, ops: string)
    requires a < b < hi <= |s| && s[a] == '(' && s[b] == ')' && Balanced(s, a + 1, b) && Plain(s, b + 1, hi)
    requires forall c :: c in ops ==> c in "|&;"
    ensures Balanced(s, a, hi) && Free(s, a, hi, ops)
  {
    forall k | a < k <= b
      ensures Depth(s, a, k) == 1 + Depth(s, a + 1, k)
    {
      DepthSum(s, a, a + 1, k);
      assert Depth(s, a, a + 1) == 1;
    }
    forall k | b < k <= hi
      ensures Depth(s, a, k) == 0
    {
      DepthSum(s, a, b + 1, k);
      PlainFlat(s, b + 1, k);
    }
  }

  // ---------- The tree in the line ----------

  ghost predicate SimpleAt(s: string, c: Cmd, lo: nat, hi: nat, argv: seq<(nat, nat)>) {
    lo <= hi <= |s| && Plain(s, lo, hi) && Wrapped(s, c, ExecCmd(argv), lo, hi) && Arguments(s, argv, lo, hi)
  }

  /** "( base ) redirections" */
  ghost predicate BlockAt(s: string, c: Cmd, lo: nat, hi: nat, b: nat, base: Cmd)
    decreases hi - lo, 0
  {
    && lo < b < hi <= |s| && s[lo] == '(' && s[b] == ')' && Balanced(s, lo + 1, b) && Placed(s, base, Skip(s, lo + 1), b)
    && Plain(s, b + 1, hi) && Skip(s, b + 1) <= hi && Wrapped(s, c, base, Skip(s, b + 1), hi)
    && AllFiles(s, Skip(s, b + 1), Skip(s, b + 1), hi)
  }

  /** The left side of a '|' is one command, and the right side all of the pipeline after it. */
  ghost predicate PipeAt(s: string, l: Cmd, r: Cmd, lo: nat, hi: nat, m: nat)
    decreases hi - lo, 0
  {
    && lo <= m < hi <= |s| && s[m] == '|' && Balanced(s, lo, m) && Balanced(s, m + 1, hi)
    && Free(s, lo, m, "|&;") && Free(s, m + 1, hi, "&;") && Placed(s, l, lo, m) && Placed(s, r, Skip(s, m + 1), hi)
  }

  /** The left side of a ';' is everything up to the first one. */
  ghost predicate ListAt(s: string, l: Cmd, r: Cmd, lo: nat, hi: nat, m: nat)
    decreases hi - lo, 0
  {
    && lo <= m < hi <= |s| && s[m] == ';' && Balanced(s, lo, m) && Balanced(s, m + 1, hi)
    && Free(s, lo, m, ";") && Placed(s, l, lo, m) && Placed(s, r, Skip(s, m + 1), hi)
  }

  /** The command is followed by '&', with nothing after it. */
  ghost predicate BackAt(s: string, c: Cmd, lo: nat, hi: nat, m: nat)
    decreases hi - lo, 0
  {
    && lo <= m < hi <= |s| && s[m] == '&' && Blank(s, m + 1, hi) && Balanced(s, lo, m) && Free(s, lo, m, ";")
    && Placed(s, c, lo, m)
  }

  /** The command c is what [lo, hi) of the line says. */
  ghost predicate Placed(s: string, c: Cmd, lo: nat, hi: nat)
    decreases hi - lo, 1
  {
    || (exists argv :: SimpleAt(s, c, lo, hi, argv))
    || (exists b: nat, base :: BlockAt(s, c, lo, hi, b, base))
    || (c.PipeCmd? && exists m: nat :: PipeAt(s, c.left, c.right, lo, hi, m))
    || (c.ListCmd? && exists m: nat :: ListAt(s, c.left, c.right, lo, hi, m))
    || (c.BackCmd? && exists m: nat :: BackAt(s, c.cmd, lo, hi, m))
  }

  /** [lo, hi) is a whole command, with none of the characters ops outside parentheses, and hi is where a token begins. */
  ghost predicate Region(s: string, c: Cmd, lo: nat, hi: nat, ops: string) {
    && lo <= hi <= |s| && Placed(s, c, lo, hi) && Balanced(s, lo, hi) && Free(s, lo, hi, ops)
    && Boundary(s, hi) && Skip(s, hi) == hi
  }

  lemma BlankBoundary(s: string, i: nat)
    requires Boundary(s, i)
    ensures Boundary(s, Skip(s, i))
  {
    SkipIs(s, i);
  }

  lemma SymbolBoundary(s: string, m: nat)
    requires m < |s| && !IsWordChar(s[m])
    ensures Boundary(s, m) && Boundary(s, m + 1) && Boundary(s, Skip(s, m + 1))
  {
    BlankBoundary(s, m + 1);
  }

  /** White space in front changes nothing. */
  lemma BlankFront(s: string, lo: nat, lo': nat, hi: nat, ops: string)
    requires lo <= lo' <= hi <= |s| && Blank(s, lo, lo') && Balanced(s, lo', hi) && Free(s, lo', hi, ops)
    requires forall c :: c in ops ==> c in "|&;"
    ensures Balanced(s, lo, hi) && Free(s, lo, hi, ops)
  {
    forall k | lo <= k <= lo'
      ensures Depth(s, lo, k) == 0
    {
      assert Plain(s, lo, k);
      PlainFlat(s, lo, k);
    }
    forall k | lo' <= k <= hi
      ensures Depth(s, lo, k) == Depth(s, lo', k)
    {
      DepthSum(s, lo, lo', k);
    }
  }

  lemma SimpleRegion(s: string, c: Cmd, argv: seq<(nat, nat)>, lo: nat, hi: nat)
    requires SoFar(s, c, ExecCmd(argv), lo, hi) && Arguments(s, argv, lo, hi) && Skip(s, hi) == hi
    ensures Region(s, c, lo, hi, "|&;")
  {
    assert SimpleAt(s, c, lo, hi, argv);
    PlainFree(s, lo, hi, "|&;");
  }

  lemma BlockRegion(s: string, base: Cmd, c: Cmd, lo: nat, b: nat, hi: nat)
    requires lo < b < |s| && s[lo] == '(' && s[b] == ')' && Region(s, base, Skip(s, lo + 1), b, "")
    requires SoFar(s, c, base, Skip(s, b + 1), hi) && AllFiles(s, Skip(s, b + 1), Skip(s, b + 1), hi) && Skip(s, hi) == hi
    ensures Region(s, c, lo, hi, "|&;")
  {
    SkipIs(s, lo + 1);
    SkipIs(s, b + 1);
    BlankFront(s, lo + 1, Skip(s, lo + 1), b, "");
    assert Plain(s, b + 1, hi);
    assert BlockAt(s, c, lo, hi, b, base);
    ParensFree(s, lo, b, hi, "|&;");
  }

  lemma FewerOps(s: string, lo: nat, hi: nat, ops: string, fewer: string)
    requires lo <= hi <= |s| && Free(s, lo, hi, ops) && forall c :: c in fewer ==> c in ops
    ensures Free(s, lo, hi, fewer)
  {
  }

  lemma PipeRegion(s: string, l: Cmd, r: Cmd, lo: nat, m: nat, hi: nat)
    requires Region(s, l, lo, m, "|&;") && m < |s| && s[m] == '|' && Region(s, r, Skip(s, m + 1), hi, "&;")
    ensures Region(s, PipeCmd(l, r), lo, hi, "&;")
  {
    var k := Skip(s, m + 1);
    assert Balanced(s, m + 1, hi) && Free(s, m + 1, hi, "&;") by {
      SkipIs(s, m + 1);
      BlankFront(s, m + 1, k, hi, "&;");
    }
    assert PipeAt(s, l, r, lo, hi, m);
    assert Balanced(s, lo, hi) && Free(s, lo, hi, "&;") by {
      FewerOps(s, lo, m, "|&;", "&;");
      JoinBalanced(s, lo, m, hi);
      JoinFree(s, lo, m, hi, "&;");
    }
  }

  lemma ListRegion(s: string, l: Cmd, r: Cmd, lo: nat, m: nat, hi: nat)
    requires Region(s, l, lo, m, ";") && m < |s| && s[m] == ';' && Region(s, r, Skip(s, m + 1), hi, "")
    ensures Region(s, ListCmd(l, r), lo, hi, "")
  {
    var k := Skip(s, m + 1);
    assert Balanced(s, m + 1, hi) by {
      SkipIs(s, m + 1);
      BlankFront(s, m + 1, k, hi, "");
    }
    assert ListAt(s, l, r, lo, hi, m);
    JoinBalanced(s, lo, m, hi);
  }

  lemma BackRegion(s: string, c: Cmd, lo: nat, m: nat)
    requires Region(s, c, lo, m, ";") && m < |s| && s[m] == '&'
    ensures Region(s, BackCmd(c), lo, Skip(s, m + 1), ";")
  {
    var hi := Skip(s, m + 1);
    SymbolBoundary(s, m);
    SkipIs(s, m + 1);
    assert BackAt(s, c, lo, hi, m);
    assert Balanced(s, lo, hi) && Free(s, lo, hi, ";") by {
      assert Plain(s, m + 1, hi);
      PlainFree(s, m + 1, hi, ";");
      JoinBalanced(s, lo, m, hi);
      JoinFree(s, lo, m, hi, ";");
    }
  }

  // ---------- Tokens in place ----------

  lemma WordHere(s: string, q: nat)
    requires q < |s| && IsWordChar(s[q]) && Boundary(s, q)
    ensures WordOf(s, q, WordEnd(s, q)) && Boundary(s, WordEnd(s, q)) && Boundary(s, Skip(s, WordEnd(s, q)))
  {
    var e := WordEnd(s, q);
    assert q < e;
    BlankBoundary(s, e);
  }

  /** A redirection token at j and the word after it. */
  lemma RedirHere(s: string, c: Cmd, base: Cmd, lo: nat, j: nat, q: nat, c': Cmd)
    requires SoFar(s, c, base, lo, j) && j < |s| && (s[j] == '<' || s[j] == '>')
    requires q == Skip(s, TokenAt(s, j).1) && q < |s| && IsWordChar(s[q])
    requires TokenAt(s, j).0.Sym? && c' == Redirected(c, Redir(TokenAt(s, j).0.c, q, WordEnd(s, q)))
    ensures var j' := Skip(s, WordEnd(s, q)); SoFar(s, c', base, lo, j') && AllFiles(s, lo, j, j')
  {
    var t, e := TokenAt(s, j).1, WordEnd(s, q);
    assert (forall k :: j <= k < t ==> s[k] == '<' || s[k] == '>') && OpenedAs(c', s[t - 1]);
    assert WordOf(s, q, e) by {
      SymbolBoundary(s, t - 1);
      WordHere(s, q);
    }
    var j' := Skip(s, e);
    SkipIs(s, t);
    SkipIs(s, e);
    RedirStep(s, c, base, lo, j, t, q, e, j', c');
  }

  lemma ArgHere(s: string, c: Cmd, argv: seq<(nat, nat)>, lo: nat, j: nat)
    requires SoFar(s, c, ExecCmd(argv), lo, j) && Arguments(s, argv, lo, j) && j < |s| && IsWordChar(s[j])
    ensures var w, j' := (j, WordEnd(s, j)), Skip(s, WordEnd(s, j));
      SoFar(s, AddWord(c, w), ExecCmd(argv + [w]), lo, j') && Arguments(s, argv + [w], lo, j')
  {
    WordHere(s, j);
    SkipIs(s, WordEnd(s, j));
    ArgStep(s, c, argv, lo, j, WordEnd(s, j), Skip(s, WordEnd(s, j)));
  }

  // ---------- What this says of the words ----------

  /** [q, e) is one of the command's argument or file words. */
  predicate HasWord(c: Cmd, q: nat, e: nat) {
    match c
    case ExecCmd(argv) => (q, e) in argv
    case RedirCmd(c', q', e', _, _) => HasWord(c', q, e) || (q', e') == (q, e)
    case PipeCmd(l, r) => HasWord(l, q, e) || HasWord(r, q, e)
    case ListCmd(l, r) => HasWord(l, q, e) || HasWord(r, q, e)
    case BackCmd(c') => HasWord(c', q, e)
  }

  /** [q, e) is a word of the stretch. */
  predicate WordIn(s: string, lo: nat, hi: nat, q: nat, e: nat) {
    WordOf(s, q, e) && lo <= q && e <= hi
  }

  lemma {:induction false} WrappedWords(s: string, c: Cmd, base: Cmd, lo: nat, hi: nat, q: nat, e: nat)
    requires lo <= hi <= |s| && Wrapped(s, c, base, lo, hi)
    ensures HasWord(c, q, e) <==> HasWord(base, q, e) || (WordIn(s, lo, hi, q, e) && IsFile(s, lo, q))
    decreases c
  {
    if !(c == base && NoFiles(s, lo, lo, hi)) {
      WrappedWords(s, c.cmd, base, lo, c.q, q, e);
      var m: nat :| OpBefore(s, lo, c.q, m) && OpenedAs(c, s[m]);
      if WordOf(s, q, e) {
        WordsApart(s, c.q, c.e, q, e);
      }
    }
  }

  lemma SkipWords(s: string, lo: nat, hi: nat, q: nat, e: nat)
    requires lo <= hi <= |s|
    ensures WordIn(s, lo, hi, q, e) <==> WordIn(s, Skip(s, lo), hi, q, e)
  {
    SkipIs(s, lo);
    assert WordOf(s, q, e) ==> IsWordChar(s[q]);
  }

  /** No word goes across a symbol. */
  lemma SymbolWords(s: string, lo: nat, m: nat, hi: nat, q: nat, e: nat)
    requires lo <= m < hi <= |s| && !IsWordChar(s[m])
    ensures WordIn(s, lo, hi, q, e) <==> WordIn(s, lo, m, q, e) || WordIn(s, m + 1, hi, q, e)
  {
  }

  lemma PipeParts(s: string, l: Cmd, r: Cmd, lo: nat, hi: nat, m: nat)
    requires PipeAt(s, l, r, lo, hi, m)
    ensures lo <= m < hi <= |s| && s[m] == '|' && Placed(s, l, lo, m) && Placed(s, r, Skip(s, m + 1), hi)
  {
  }

  lemma ListParts(s: string, l: Cmd, r: Cmd, lo: nat, hi: nat, m: nat)
    requires ListAt(s, l, r, lo, hi, m)
    ensures lo <= m < hi <= |s| && s[m] == ';' && Placed(s, l, lo, m) && Placed(s, r, Skip(s, m + 1), hi)
  {
  }

  lemma BackParts(s: string, c: Cmd, lo: nat, hi: nat, m: nat)
    requires BackAt(s, c, lo, hi, m)
    ensures lo <= m < hi <= |s| && s[m] == '&' && Blank(s, m + 1, hi) && Placed(s, c, lo, m)
  {
  }

  /** The words of the command are the words of its stretch of the line: none is lost and none is made up. */
  lemma {:induction false} PlacedWords(s: string, c: Cmd, lo: nat, hi: nat, q: nat, e: nat)
    requires Placed(s, c, lo, hi)
    ensures hi <= |s| && (HasWord(c, q, e) <==> WordIn(s, lo, hi, q, e))
    decreases hi - lo
  {
    if argv :| SimpleAt(s, c, lo, hi, argv) {
      WrappedWords(s, c, ExecCmd(argv), lo, hi, q, e);
    } else if b: nat, base :| BlockAt(s, c, lo, hi, b, base) {
      PlacedWords(s, base, Skip(s, lo + 1), b, q, e);
      WrappedWords(s, c, base, Skip(s, b + 1), hi, q, e);
      SymbolWords(s, lo, lo, hi, q, e);
      SymbolWords(s, lo + 1, b, hi, q, e);
      SkipWords(s, lo + 1, b, q, e);
      SkipWords(s, b + 1, hi, q, e);
    } else if c.PipeCmd? {
      var m: nat :| PipeAt(s, c.left, c.right, lo, hi, m);
      PipeParts(s, c.left, c.right, lo, hi, m);
      SidesWords(s, c.left, c.right, lo, m, hi, q, e);
    } else if c.ListCmd? {
      var m: nat :| ListAt(s, c.left, c.right, lo, hi, m);
      ListParts(s, c.left, c.right, lo, hi, m);
      SidesWords(s, c.left, c.right, lo, m, hi, q, e);
    } else {
      var m: nat :| BackAt(s, c.cmd, lo, hi, m);
      BackParts(s, c.cmd, lo, hi, m);
      PlacedWords(s, c.cmd, lo, m, q, e);
      SymbolWords(s, lo, m, hi, q, e);
      SkipWords(s, m + 1, hi, q, e);
      if WordOf(s, q, e) && m < q {
        BlankWordless(s, m + 1, hi, q, e);
      }
    }
  }

  lemma {:induction false} SidesWords(s: string, l: Cmd, r: Cmd, lo: nat, m: nat, hi: nat, q: nat, e: nat)
    requires lo <= m < hi <= |s| && !IsWordChar(s[m]) && Placed(s, l, lo, m) && Placed(s, r, Skip(s, m + 1), hi)
    ensures HasWord(l, q, e) || HasWord(r, q, e) <==> WordIn(s, lo, hi, q, e)
    decreases hi - lo, 0
  {
    PlacedWords(s, l, lo, m, q, e);
    PlacedWords(s, r, Skip(s, m + 1), hi, q, e);
    SymbolWords(s, lo, m, hi, q, e);
    SkipWords(s, m + 1, hi, q, e);
  }

  /** All words of c end before m, and all of them begin after it. */
  ghost predicate Ends(c: Cmd, m: nat) {
    forall q: nat, e: nat :: HasWord(c, q, e) ==> e <= m
  }

  ghost predicate Begins(c: Cmd, m: nat) {
    forall q: nat, e: nat :: HasWord(c, q, e) ==> m < q
  }

  ghost predicate Between(s: string, l: Cmd, op: char, r: Cmd, m: nat) {
    m < |s| && s[m] == op && Ends(l, m) && Begins(r, m)
  }

  ghost predicate Before(s: string, c: Cmd, op: char, m: nat) {
    m < |s| && s[m] == op && Ends(c, m)
  }

  /** Throughout the tree: the arguments stand in order, the file of a redirection has '<' before it if it is read and '>'
      if it is written, the two sides of a pipe or list stand to the two sides of a '|' or ';', and a background command
      has a '&' after it. */
  ghost predicate InOrder(s: string, c: Cmd) {
    match c
    case ExecCmd(argv) => Ascending(argv)
    case RedirCmd(c', q, e, w, fd) => InOrder(s, c') && WordOf(s, q, e) && Opened(s, 0, c)
    case PipeCmd(l, r) => InOrder(s, l) && InOrder(s, r) && exists m: nat :: Between(s, l, '|', r, m)
    case ListCmd(l, r) => InOrder(s, l) && InOrder(s, r) && exists m: nat :: Between(s, l, ';', r, m)
    case BackCmd(c') => InOrder(s, c') && exists m: nat :: Before(s, c', '&', m)
  }

  lemma {:induction false} WrappedInOrder(s: string, c: Cmd, base: Cmd, lo: nat, hi: nat)
    requires lo <= hi <= |s| && Wrapped(s, c, base, lo, hi) && InOrder(s, base)
    ensures InOrder(s, c)
    decreases c
  {
    if c != base {
      var m: nat :| OpBefore(s, lo, c.q, m) && OpenedAs(c, s[m]);
      assert OpBefore(s, 0, c.q, m);
      WrappedInOrder(s, c.cmd, base, lo, c.q);
    }
  }

  lemma SidesApart(s: string, l: Cmd, r: Cmd, lo: nat, m: nat, hi: nat)
    requires lo <= m < hi <= |s| && Placed(s, l, lo, m) && Placed(s, r, Skip(s, m + 1), hi)
    ensures Between(s, l, s[m], r, m)
  {
    forall q: nat, e: nat | HasWord(l, q, e)
      ensures e <= m
    {
      PlacedWords(s, l, lo, m, q, e);
    }
    forall q: nat, e: nat | HasWord(r, q, e)
      ensures m < q
    {
      PlacedWords(s, r, Skip(s, m + 1), hi, q, e);
    }
  }

  lemma {:induction false} PlacedInOrder(s: string, c: Cmd, lo: nat, hi: nat)
    requires Placed(s, c, lo, hi)
    ensures InOrder(s, c)
    decreases hi - lo
  {
    if argv :| SimpleAt(s, c, lo, hi, argv) {
      WrappedInOrder(s, c, ExecCmd(argv), lo, hi);
    } else if b: nat, base :| BlockAt(s, c, lo, hi, b, base) {
      PlacedInOrder(s, base, Skip(s, lo + 1), b);
      WrappedInOrder(s, c, base, Skip(s, b + 1), hi);
    } else if c.PipeCmd? {
      var m: nat :| PipeAt(s, c.left, c.right, lo, hi, m);
      PipeParts(s, c.left, c.right, lo, hi, m);
      PlacedInOrder(s, c.left, lo, m);
      PlacedInOrder(s, c.right, Skip(s, m + 1), hi);
      SidesApart(s, c.left, c.right, lo, m, hi);
    } else if c.ListCmd? {
      var m: nat :| ListAt(s, c.left, c.right, lo, hi, m);
      ListParts(s, c.left, c.right, lo, hi, m);
      PlacedInOrder(s, c.left, lo, m);
      PlacedInOrder(s, c.right, Skip(s, m + 1), hi);
      SidesApart(s, c.left, c.right, lo, m, hi);
    } else {
      var m: nat :| BackAt(s, c.cmd, lo, hi, m);
      BackParts(s, c.cmd, lo, hi, m);
      PlacedInOrder(s, c.cmd, lo, m);
      forall q: nat, e: nat | HasWord(c.cmd, q, e)
        ensures e <= m
      {
        PlacedWords(s, c.cmd, lo, m, q, e);
      }
      assert Before(s, c.cmd, '&', m);
    }
  }

  /** A command that is the whole line has all its words, in order. */
  lemma WholeLine(s: string, c: Cmd)
    requires Placed(s, c, Skip(s, 0), |s|)
    ensures InOrder(s, c) && forall q: nat, e: nat :: HasWord(c, q, e) <==> WordOf(s, q, e)
  {
    PlacedInOrder(s, c, Skip(s, 0), |s|);
    forall q: nat, e: nat
      ensures HasWord(c, q, e) <==> WordOf(s, q, e)
    {
      PlacedWords(s, c, Skip(s, 0), |s|, q, e);
      SkipWords(s, 0, |s|, q, e);
    }
  }
}
