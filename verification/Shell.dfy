/** sh.c's parser as it runs, on positions in the line, and nulterminate on the line's buffer. */
module Shell {
  import opened Common
  import opened ShellGrammar
  import opened ShellParse
  import opened ShellLayout

  // ---------- Scanning ----------

  lemma SkipTwice(s: string, i: nat)
    requires i <= |s|
    ensures Skip(s, Skip(s, i)) == Skip(s, i)
    ensures Lex(s, Skip(s, i)) == Lex(s, i)
  {
    var j := Skip(s, i);
    assert j < |s| ==> !IsSpace(s[j]);
    assert Skip(s, j) == j;
  }

  /** Looking at one character is enough to know how the tokens start. */
  lemma PeekTells(s: string, i: nat, c: char)
    requires i <= |s| && Skip(s, i) == i
    requires IsSymbol(c) && c != '>'
    ensures Starts(Lex(s, i), c) <==> i < |s| && s[i] == c
  {
    if i < |s| {
      assert Lex(s, i) == Cons(TokenAt(s, i).0, Lex(s, TokenAt(s, i).1));
    }
  }

  lemma PeekTellsRedir(s: string, i: nat)
    requires i <= |s| && Skip(s, i) == i
    ensures StartsRedir(Lex(s, i)) <==> i < |s| && (s[i] == '<' || s[i] == '>')
  {
    if i < |s| {
      assert Lex(s, i) == Cons(TokenAt(s, i).0, Lex(s, TokenAt(s, i).1));
    }
  }

  lemma PeekTellsEnd(s: string, i: nat)
    requires i <= |s| && Skip(s, i) == i
    ensures EndsExec(Lex(s, i)) <==> i == |s| || s[i] == '|' || s[i] == ')' || s[i] == '&' || s[i] == ';'
  {
    PeekTells(s, i, '|');
    PeekTells(s, i, ')');
    PeekTells(s, i, '&');
    PeekTells(s, i, ';');
  }

  method SkipSpaces(s: string, i: nat) returns (j: nat)
    requires i <= |s|
    ensures j == Skip(s, i)
  {
    j := i;
    while j < |s| && IsSpace(s[j])
      invariant i <= j <= |s| && Skip(s, j) == Skip(s, i)
    {
      j := j + 1;
    }
  }

  method Peek(s: string, i: nat, toks: string) returns (found: bool, j: nat)
    requires i <= |s|
    ensures i <= j <= |s| && j == Skip(s, i) == Skip(s, j) && Lex(s, j) == Lex(s, i)
    ensures found <==> j < |s| && s[j] in toks
  {
    j := SkipSpaces(s, i);
    SkipTwice(s, i);
    found := j < |s| && s[j] in toks;
  }

  /** The next token, None at the end of the line, and the place of the one after it. */
  method GetToken(s: string, i: nat) returns (t: Option<Tok>, j: nat)
    requires i <= |s|
    ensures i <= j <= |s|
    ensures t.None? <==> Lex(s, i).Nil?
    ensures t.Some? ==> i < j && Lex(s, i) == Cons(t.value, Lex(s, j))
    ensures t.Some? ==> Skip(s, i) < |s| && t.value == TokenAt(s, Skip(s, i)).0 && j == Skip(s, TokenAt(s, Skip(s, i)).1)
  {
    var q := SkipSpaces(s, i);
    if q == |s| {
      return None, q;
    }
    var e := q + 1;
    if s[q] == '>' {
      if e < |s| && s[e] == '>' {
        e := e + 1;
        t := Some(Sym('+'));
      } else {
        t := Some(Sym('>'));
      }
    } else if IsSymbol(s[q]) {
      t := Some(Sym(s[q]));
    } else {
      while e < |s| && IsWordChar(s[e])
        invariant q < e <= |s| && WordEnd(s, e) == WordEnd(s, q)
      {
        e := e + 1;
      }
      t := Some(Word(q, e));
    }
    assert TokenAt(s, q) == (t.value, e);
    SkipTwice(s, e);
    j := SkipSpaces(s, e);
  }

  // ---------- Parsing ----------

  datatype Parsed = Done(cmd: Cmd, next: nat) | Failed(error: Error)

  /** A run on the characters gives the command the tokens stand for, or the same error, and stops where
      the unread tokens start. */
  ghost predicate Agrees(s: string, i: nat, r: Parsed, spec: Res<Cmd>)
    requires i <= |s|
  {
    match spec
    case Err(e) => r == Failed(e)
    case Ok(c, rest) => r.Done? && r.cmd == c && i <= r.next <= |s| && Lex(s, r.next) == rest
  }

  function WrapRes(c: Cmd, r: Res<List<Redir>>): Res<Cmd> {
    match r
    case Err(e) => Err(e)
    case Ok(rs, rest) => Ok(Wrap(c, rs), rest)
  }

  function ExecRes(r: Res<Exec>): Res<Cmd> {
    match r
    case Err(e) => Err(e)
    case Ok(x, rest) => Ok(ExecTree(x), rest)
  }

  function PipeRes(r: Res<Pipe>): Res<Cmd> {
    match r
    case Err(e) => Err(e)
    case Ok(p, rest) => Ok(PipeTree(p), rest)
  }

  function LineRes(r: Res<Line>): Res<Cmd> {
    match r
    case Err(e) => Err(e)
    case Ok(l, rest) => Ok(LineTree(l), rest)
  }

  /** One turn of parseredirs' loop, at a '<' or '>'. */
  method ParseRedir(c: Cmd, s: string, j: nat, ghost base: Cmd, ghost lo: nat) returns (r: Parsed)
    requires j < |s| && Skip(s, j) == j && s[j] in "<>" && SoFar(s, c, base, lo, j)
    ensures r.Failed? ==> WrapRes(c, Redirs(Lex(s, j))) == Err(r.error)
    ensures r.Done? ==> j < r.next <= |s| && Skip(s, r.next) == r.next
    ensures r.Done? ==> WrapRes(r.cmd, Redirs(Lex(s, r.next))) == WrapRes(c, Redirs(Lex(s, j)))
    ensures r.Done? ==> SoFar(s, r.cmd, base, lo, r.next) && AllFiles(s, lo, j, r.next)
  {
    PeekTellsRedir(s, j);
    var t, k := GetToken(s, j);
    var file, m := GetToken(s, k);
    if file.None? || file.value.Sym? {
      return Failed(MissingFile);
    }
    var cmd := Redirected(c, Redir(t.value.c, file.value.q, file.value.e));
    RedirHere(s, c, base, lo, j, k, cmd);
    r := Done(cmd, m);
  }

  /** parseredirs after the token before i: c is what `base` has become since lo. */
  method ParseRedirs(c: Cmd, s: string, i: nat, ghost base: Cmd, ghost lo: nat) returns (r: Parsed)
    requires i <= |s| && SoFar(s, c, base, lo, Skip(s, i))
    ensures Agrees(s, i, r, WrapRes(c, Redirs(Lex(s, i))))
    ensures r.Done? ==> SoFar(s, r.cmd, base, lo, r.next) && Skip(s, r.next) == r.next
    ensures r.Done? ==> Skip(s, i) <= r.next && AllFiles(s, lo, Skip(s, i), r.next)
  {
    var cmd := c;
    var found, j := Peek(s, i, "<>");
    while found
      invariant i <= Skip(s, i) <= j <= |s| && Skip(s, j) == j
      invariant SoFar(s, cmd, base, lo, j) && AllFiles(s, lo, Skip(s, i), j)
      invariant found <==> j < |s| && s[j] in "<>"
      invariant WrapRes(cmd, Redirs(Lex(s, j))) == WrapRes(c, Redirs(Lex(s, i)))
      decreases |s| - j
    {
      r := ParseRedir(cmd, s, j, base, lo);
      if r.Failed? {
        return;
      }
      FilesMore(s, lo, Skip(s, i), j, r.next);
      cmd := r.cmd;
      found, j := Peek(s, r.next, "<>");
    }
    PeekTellsRedir(s, j);
    r := Done(cmd, j);
  }

  /** The command after the rest of the words, each with its redirections, in the order they are met. */
  function AddArgs(c: Cmd, args: List<Arg>): Cmd
    decreases args
  {
    match args
    case Nil => c
    case Cons(a, t) => AddArgs(Wrap(AddWord(c, (a.q, a.e)), a.redirs), t)
  }

  function ArgsRes(c: Cmd, r: Res<List<Arg>>): Res<Cmd> {
    match r
    case Err(e) => Err(e)
    case Ok(args, rest) => Ok(AddArgs(c, args), rest)
  }

  lemma {:induction false} AddWordUnder(c: Cmd, rs: List<Redir>, w: (nat, nat))
    ensures AddWord(Wrap(c, rs), w) == Wrap(AddWord(c, w), rs)
    decreases rs
  {
    if rs.Cons? {
      AddWordUnder(Redirected(c, rs.head), rs.tail, w);
    }
  }

  lemma {:induction false} WrapAppend(c: Cmd, rs: List<Redir>, us: List<Redir>)
    ensures Wrap(Wrap(c, rs), us) == Wrap(c, Append(rs, us))
    decreases rs
  {
    if rs.Cons? {
      WrapAppend(Redirected(c, rs.head), rs.tail, us);
    }
  }

  lemma {:induction false} AppendAssoc(a: List<Redir>, b: List<Redir>, c: List<Redir>)
    ensures Append(Append(a, b), c) == Append(a, Append(b, c))
  {
    if a.Cons? {
      AppendAssoc(a.tail, b, c);
    }
  }

  /** Words and redirections may be interleaved at will: the arguments are the words in order, and the
      redirections apply in order. */
  lemma {:induction false} AddArgsGathers(ws: seq<(nat, nat)>, rs: List<Redir>, args: List<Arg>)
    ensures AddArgs(Wrap(ExecCmd(ws), rs), args) == Wrap(ExecCmd(ws + Words(args)), Append(rs, ArgRedirs(args)))
    decreases args
  {
    match args
    case Nil =>
      assert ws + [] == ws;
      AppendNil(rs);
    case Cons(a, t) =>
      AddWordUnder(ExecCmd(ws), rs, (a.q, a.e));
      WrapAppend(ExecCmd(ws + [(a.q, a.e)]), rs, a.redirs);
      AddArgsGathers(ws + [(a.q, a.e)], Append(rs, a.redirs), t);
      AppendAssoc(rs, a.redirs, ArgRedirs(t));
      assert ws + [(a.q, a.e)] + Words(t) == ws + Words(args);
  }

  lemma {:induction false} AppendNil(rs: List<Redir>)
    ensures Append(rs, Nil) == rs
  {
    if rs.Cons? {
      AppendNil(rs.tail);
    }
  }

  /** What parseexec computes on a simple command is the tree of its derivation. */
  lemma SimpleRes(ts: Toks)
    requires !Starts(ts, '(')
    ensures var r := Redirs(ts);
      ExecRes(ShellParse.ParseExec(ts)) ==
        if r.Err? then Err(r.error) else ArgsRes(Wrap(ExecCmd([]), r.d), Args(r.rest, 0))
  {
    var r := Redirs(ts);
    if r.Ok? {
      var a := Args(r.rest, 0);
      if a.Ok? {
        AddArgsGathers([], r.d, a.d);
        assert [] + Words(a.d) == Words(a.d);
      }
    }
  }

  /** One round of parseexec's loop on the tokens: a word, then its redirections. */
  lemma ArgsStep(c: Cmd, ts: Toks, argc: nat)
    requires !EndsExec(ts) && ts.head.Word? && argc + 1 < MAXARGS
    ensures var w := AddWord(c, (ts.head.q, ts.head.e));
      var r := Redirs(ts.tail);
      ArgsRes(c, Args(ts, argc)) ==
        if r.Err? then Err(r.error) else ArgsRes(Wrap(w, r.d), Args(r.rest, argc + 1))
  {
  }

  /** One round of the loop as it runs. */
  method ParseArg(c: Cmd, s: string, j: nat, argc: nat, ghost argv: seq<(nat, nat)>, ghost lo: nat)
    returns (r: Parsed, ghost argv': seq<(nat, nat)>)
    requires j <= |s| && !EndsExec(Lex(s, j)) && argc < MAXARGS
    requires SoFar(s, c, ExecCmd(argv), lo, j) && Arguments(s, argv, lo, j) && Skip(s, j) == j
    ensures r.Done? ==> r.next <= |s| && Skip(s, r.next) == r.next
    ensures r.Done? ==> SoFar(s, r.cmd, ExecCmd(argv'), lo, r.next) && Arguments(s, argv', lo, r.next)
    ensures r.Failed? ==> ArgsRes(c, Args(Lex(s, j), argc)) == Err(r.error)
    ensures r.Done? ==> argc + 1 < MAXARGS && j < r.next <= |s|
    ensures r.Done? ==> ArgsRes(r.cmd, Args(Lex(s, r.next), argc + 1)) == ArgsRes(c, Args(Lex(s, j), argc))
  {
    var t, k := GetToken(s, j);
    if t.value.Sym? {
      return Failed(Syntax), argv;
    }
    if argc + 1 >= MAXARGS {
      return Failed(TooManyArgs), argv;
    }
    ArgsStep(c, Lex(s, j), argc);
    ArgHere(s, c, argv, lo, j);
    argv' := argv + [(t.value.q, t.value.e)];
    r := ParseRedirs(AddWord(c, (t.value.q, t.value.e)), s, k, ExecCmd(argv'), lo);
    if r.Done? {
      ArgumentsStay(s, argv', lo, k, r.next);
    }
  }

  /** The loop's exits: a symbol that ends the command, or no token at all. */
  method AtEnd(s: string, i: nat) returns (stop: bool, j: nat)
    requires i <= |s|
    ensures i <= j <= |s| && j == Skip(s, i) == Skip(s, j) && Lex(s, j) == Lex(s, i)
    ensures stop <==> EndsExec(Lex(s, j))
  {
    var found;
    found, j := Peek(s, i, "|)&;");
    PeekTellsEnd(s, j);
    stop := found || j == |s|;
  }

  method ParseSimple(s: string, i: nat) returns (r: Parsed)
    requires i <= |s| && !Starts(Lex(s, i), '(') && Boundary(s, i)
    ensures Agrees(s, i, r, ExecRes(ShellParse.ParseExec(Lex(s, i))))
    ensures r.Done? ==> Region(s, r.cmd, Skip(s, i), r.next, "|&;")
  {
    ghost var lo, argv: seq<(nat, nat)> := Skip(s, i), [];
    BlankBoundary(s, i);
    SoFarStarts(s, ExecCmd([]), lo);
    ghost var spec := ExecRes(ShellParse.ParseExec(Lex(s, i)));
    SimpleRes(Lex(s, i));
    r := ParseRedirs(ExecCmd([]), s, i, ExecCmd([]), lo);
    if r.Failed? {
      return;
    }
    ArgumentsStay(s, argv, lo, lo, r.next);
    var argc := 0;
    var stop, j := AtEnd(s, r.next);
    while !stop
      invariant r.Done? && i <= j <= |s| && Skip(s, j) == j
      invariant SoFar(s, r.cmd, ExecCmd(argv), lo, j) && Arguments(s, argv, lo, j)
      invariant stop <==> EndsExec(Lex(s, j))
      invariant argc < MAXARGS
      invariant ArgsRes(r.cmd, Args(Lex(s, j), argc)) == spec
      decreases |s| - j
    {
      r, argv := ParseArg(r.cmd, s, j, argc, argv, lo);
      if r.Failed? {
        return;
      }
      argc := argc + 1;
      stop, j := AtEnd(s, r.next);
    }
    r := Done(r.cmd, j);
    SimpleRegion(s, r.cmd, argv, lo, j);
  }

  method ParseExec(s: string, i: nat) returns (r: Parsed)
    requires i <= |s| && Boundary(s, i)
    ensures Agrees(s, i, r, ExecRes(ShellParse.ParseExec(Lex(s, i))))
    ensures r.Done? ==> Region(s, r.cmd, Skip(s, i), r.next, "|&;")
    decreases |s| - i, 1
  {
    var found, j := Peek(s, i, "(");
    PeekTells(s, j, '(');
    BlankBoundary(s, i);
    if found {
      r := ParseBlock(s, j);
    } else {
      r := ParseSimple(s, j);
    }
  }

  /** The closing parenthesis at k or the panic, and the redirections after it. */
  method CloseBlock(c: Cmd, s: string, k: nat, ghost i: nat) returns (r: Parsed)
    requires i < k <= |s| && s[i] == '(' && Region(s, c, Skip(s, i + 1), k, "")
    ensures !Starts(Lex(s, k), ')') ==> r == Failed(MissingParen)
    ensures Starts(Lex(s, k), ')') ==> Agrees(s, k, r, WrapRes(c, Redirs(Lex(s, k).tail)))
    ensures r.Done? ==> Region(s, r.cmd, i, r.next, "|&;")
  {
    var found, _ := Peek(s, k, ")");
    PeekTells(s, k, ')');
    if !found {
      return Failed(MissingParen);
    }
    var _, m := GetToken(s, k);
    r := ParseTail(c, s, k, m);
    if r.Done? {
      BlockRegion(s, c, r.cmd, i, k, r.next);
    }
  }

  /** The redirections after the parenthesis at k. */
  method ParseTail(c: Cmd, s: string, ghost k: nat, m: nat) returns (r: Parsed)
    requires k < m <= |s| && s[k] == ')' && m == Skip(s, k + 1)
    ensures Agrees(s, m, r, WrapRes(c, Redirs(Lex(s, m))))
    ensures r.Done? ==> SoFar(s, r.cmd, c, m, r.next) && Skip(s, r.next) == r.next && AllFiles(s, m, m, r.next)
  {
    SymbolBoundary(s, k);
    SoFarStarts(s, c, m);
    SkipTwice(s, k + 1);
    r := ParseRedirs(c, s, m, c, m);
  }

  method ParseBlock(s: string, i: nat) returns (r: Parsed)
    requires i < |s| && Skip(s, i) == i && s[i] == '(' && Starts(Lex(s, i), '(')
    ensures Agrees(s, i, r, ExecRes(ShellParse.ParseExec(Lex(s, i))))
    ensures r.Done? ==> Region(s, r.cmd, i, r.next, "|&;")
    decreases |s| - i, 0
  {
    var _, j := GetToken(s, i);
    SymbolBoundary(s, i);
    r := ParseLine(s, j);
    if r.Done? {
      r := CloseBlock(r.cmd, s, r.next, i);
    }
  }

  function PairRes(left: Cmd, r: Res<Cmd>): Res<Cmd> {
    match r
    case Err(e) => Err(e)
    case Ok(c, rest) => Ok(PipeCmd(left, c), rest)
  }

  /** The pipeline after the '|' at j. */
  method PipeTail(s: string, j: nat) returns (r: Parsed)
    requires j < |s| && Skip(s, j) == j && s[j] == '|' && Starts(Lex(s, j), '|')
    ensures Agrees(s, j, r, PipeRes(ShellParse.ParsePipe(Lex(s, j).tail)))
    ensures r.Done? ==> Region(s, r.cmd, Skip(s, j + 1), r.next, "&;")
    decreases |s| - j, 0
  {
    var _, k := GetToken(s, j);
    SymbolBoundary(s, j);
    SkipTwice(s, j + 1);
    r := ParsePipe(s, k);
  }

  /** The rest of a pipeline after its first command. */
  method PipeRest(left: Cmd, s: string, j: nat, ghost lo: nat) returns (r: Parsed)
    requires j <= |s| && Region(s, left, lo, j, "|&;")
    ensures Agrees(s, j, r,
                   if Starts(Lex(s, j), '|') then PairRes(left, PipeRes(ShellParse.ParsePipe(Lex(s, j).tail)))
                   else Ok(left, Lex(s, j)))
    ensures r.Done? ==> Region(s, r.cmd, lo, r.next, "&;")
    decreases |s| - j, 1
  {
    var found, _ := Peek(s, j, "|");
    PeekTells(s, j, '|');
    if !found {
      FewerOps(s, lo, j, "|&;", "&;");
      return Done(left, j);
    }
    r := PipeTail(s, j);
    if r.Done? {
      PipeRegion(s, left, r.cmd, lo, j, r.next);
      r := Done(PipeCmd(left, r.cmd), r.next);
    }
  }

  method ParsePipe(s: string, i: nat) returns (r: Parsed)
    requires i <= |s| && Boundary(s, i)
    ensures Agrees(s, i, r, PipeRes(ShellParse.ParsePipe(Lex(s, i))))
    ensures r.Done? ==> Region(s, r.cmd, Skip(s, i), r.next, "&;")
    decreases |s| - i, 2
  {
    r := ParseExec(s, i);
    if r.Done? {
      r := PipeRest(r.cmd, s, r.next, Skip(s, i));
    }
  }

  /** parseline's loop over '&' on the tokens. */
  function RunBacks(c: Cmd, ts: Toks): Res<Cmd>
    decreases ts
  {
    if Starts(ts, '&') then RunBacks(BackCmd(c), ts.tail) else Ok(c, ts)
  }

  lemma {:induction false} RunBacksIs(c: Cmd, ts: Toks)
    ensures RunBacks(c, ts) == Ok(Backs(c, TakeBacks(ts).0), TakeBacks(ts).1)
    decreases ts
  {
    if Starts(ts, '&') {
      RunBacksIs(BackCmd(c), ts.tail);
    }
  }

  /** One '&' more, at j. */
  method ParseBack(c: Cmd, s: string, j: nat, ghost lo: nat) returns (k: nat)
    requires j < |s| && s[j] == '&' && Starts(Lex(s, j), '&') && Region(s, c, lo, j, ";")
    ensures j < k <= |s| && Lex(s, k) == Lex(s, j).tail && Region(s, BackCmd(c), lo, k, ";")
  {
    var _, next := GetToken(s, j);
    k := next;
    BackRegion(s, c, lo, j);
  }

  method ParseBacks(c: Cmd, s: string, i: nat, ghost lo: nat) returns (cmd: Cmd, j: nat)
    requires i <= |s| && Region(s, c, lo, i, ";")
    ensures i <= j <= |s| && Region(s, cmd, lo, j, ";")
    ensures cmd == Backs(c, TakeBacks(Lex(s, i)).0) && Lex(s, j) == TakeBacks(Lex(s, i)).1
  {
    cmd := c;
    var found;
    found, j := Peek(s, i, "&");
    PeekTells(s, j, '&');
    while found
      invariant i <= j <= |s| && Region(s, cmd, lo, j, ";")
      invariant found <==> Starts(Lex(s, j), '&')
      invariant found ==> j < |s| && s[j] == '&'
      invariant RunBacks(cmd, Lex(s, j)) == RunBacks(c, Lex(s, i))
      decreases |s| - j
    {
      var k := ParseBack(cmd, s, j, lo);
      cmd := BackCmd(cmd);
      found, j := Peek(s, k, "&");
      PeekTells(s, j, '&');
    }
    RunBacksIs(c, Lex(s, i));
  }

  function ListRes(left: Cmd, r: Res<Cmd>): Res<Cmd> {
    match r
    case Err(e) => Err(e)
    case Ok(c, rest) => Ok(ListCmd(left, c), rest)
  }

  /** The line after the ';' at j. */
  method LineTail(s: string, j: nat) returns (r: Parsed)
    requires j < |s| && Skip(s, j) == j && s[j] == ';' && Starts(Lex(s, j), ';')
    ensures Agrees(s, j, r, LineRes(ShellParse.ParseLine(Lex(s, j).tail)))
    ensures r.Done? ==> Region(s, r.cmd, Skip(s, j + 1), r.next, "")
    decreases |s| - j, 0
  {
    var _, k := GetToken(s, j);
    SymbolBoundary(s, j);
    SkipTwice(s, j + 1);
    r := ParseLine(s, k);
  }

  /** The rest of a line after its first pipeline. */
  method LineRest(left: Cmd, s: string, j: nat, ghost lo: nat) returns (r: Parsed)
    requires j <= |s| && Region(s, left, lo, j, ";")
    ensures Agrees(s, j, r,
                   if Starts(Lex(s, j), ';') then ListRes(left, LineRes(ShellParse.ParseLine(Lex(s, j).tail)))
                   else Ok(left, Lex(s, j)))
    ensures r.Done? ==> Region(s, r.cmd, lo, r.next, "")
    decreases |s| - j, 1
  {
    var found, _ := Peek(s, j, ";");
    PeekTells(s, j, ';');
    if !found {
      FewerOps(s, lo, j, ";", "");
      return Done(left, j);
    }
    r := LineTail(s, j);
    if r.Done? {
      ListRegion(s, left, r.cmd, lo, j, r.next);
      r := Done(ListCmd(left, r.cmd), r.next);
    }
  }

  method ParseLine(s: string, i: nat) returns (r: Parsed)
    requires i <= |s| && Boundary(s, i)
    ensures Agrees(s, i, r, LineRes(ShellParse.ParseLine(Lex(s, i))))
    ensures r.Done? ==> Region(s, r.cmd, Skip(s, i), r.next, "")
    decreases |s| - i, 3
  {
    r := ParsePipe(s, i);
    if r.Done? {
      FewerOps(s, Skip(s, i), r.next, "&;", ";");
      var left, j := ParseBacks(r.cmd, s, r.next, Skip(s, i));
      r := LineRest(left, s, j, Skip(s, i));
    }
  }

  /** parsecmd accepts a line exactly when the line has a derivation, and then gives the derivation's tree. */
  method ParseCmd(s: string) returns (r: Parsed)
    ensures r.Done? <==> exists l :: LineOk(l) && SpellLine(l, Nil) == Lex(s, 0)
    ensures forall l :: LineOk(l) && SpellLine(l, Nil) == Lex(s, 0) ==> r == Done(LineTree(l), |s|)
    ensures r.Done? ==> CmdOf(s, r.cmd) && Placed(s, r.cmd, Skip(s, 0), |s|) && InOrder(s, r.cmd)
    ensures r.Done? ==> forall q: nat, e: nat :: HasWord(r.cmd, q, e) <==> WordOf(s, q, e)
  {
    r := ParseLine(s, 0);
    ghost var spec := ShellParse.ParseLine(Lex(s, 0));
    ghost var whole := ShellParse.ParseCmd(Lex(s, 0));
    if r.Done? {
      var _, j := Peek(s, r.next, "");
      assert Lex(s, j).Nil? <==> j == |s|;
      r := if j != |s| then Failed(Leftovers) else Done(r.cmd, j);
    }
    assert r.Done? <==> whole.Ok?;
    assert r.Done? ==> r == Done(LineTree(whole.d), |s|);
    if r.Done? {
      AcceptsExactly(Lex(s, 0), whole.d);
      LexWords(s, 0);
      LineWords(s, whole.d, Nil);
      WholeLine(s, r.cmd);
    }
    forall l | LineOk(l) && SpellLine(l, Nil) == Lex(s, 0)
      ensures r == Done(LineTree(l), |s|)
    {
      AcceptsExactly(Lex(s, 0), l);
    }
  }

  // ---------- Words of a command are words of the line ----------

  predicate TokensOf(s: string, ts: Toks) {
    ts.Cons? ==> (ts.head.Word? ==> WordOf(s, ts.head.q, ts.head.e)) && TokensOf(s, ts.tail)
  }

  predicate ArgvOf(s: string, argv: seq<(nat, nat)>) {
    forall i :: 0 <= i < |argv| ==> WordOf(s, argv[i].0, argv[i].1)
  }

  predicate CmdOf(s: string, c: Cmd) {
    match c
    case ExecCmd(argv) => ArgvOf(s, argv)
    case RedirCmd(c', q, e, _, _) => CmdOf(s, c') && WordOf(s, q, e)
    case PipeCmd(l, r) => CmdOf(s, l) && CmdOf(s, r)
    case ListCmd(l, r) => CmdOf(s, l) && CmdOf(s, r)
    case BackCmd(c') => CmdOf(s, c')
  }

  lemma {:induction false} LexWords(s: string, i: nat)
    requires i <= |s| && Boundary(s, i)
    ensures TokensOf(s, Lex(s, i))
    decreases |s| - i
  {
    var j := Skip(s, i);
    BlankBoundary(s, i);
    if j < |s| {
      if IsWordChar(s[j]) {
        WordHere(s, j);
      } else {
        SymbolBoundary(s, TokenAt(s, j).1 - 1);
      }
      LexWords(s, TokenAt(s, j).1);
    }
  }

  predicate RedirsOf(s: string, rs: List<Redir>) {
    rs.Cons? ==> WordOf(s, rs.head.q, rs.head.e) && RedirsOf(s, rs.tail)
  }

  lemma {:induction false} RedirsWords(s: string, rs: List<Redir>, rest: Toks)
    requires TokensOf(s, SpellRedirs(rs, rest))
    ensures RedirsOf(s, rs) && TokensOf(s, rest)
  {
    if rs.Cons? {
      assert TokensOf(s, Cons(Word(rs.head.q, rs.head.e), SpellRedirs(rs.tail, rest)));
      RedirsWords(s, rs.tail, rest);
    }
  }

  lemma {:induction false} AppendWords(s: string, rs: List<Redir>, us: List<Redir>)
    requires RedirsOf(s, rs) && RedirsOf(s, us)
    ensures RedirsOf(s, Append(rs, us))
  {
    if rs.Cons? {
      AppendWords(s, rs.tail, us);
    }
  }

  lemma {:induction false} ArgsWords(s: string, args: List<Arg>, rest: Toks)
    requires TokensOf(s, SpellArgs(args, rest))
    ensures ArgvOf(s, Words(args)) && RedirsOf(s, ArgRedirs(args)) && TokensOf(s, rest)
  {
    if args.Cons? {
      RedirsWords(s, args.head.redirs, SpellArgs(args.tail, rest));
      ArgsWords(s, args.tail, rest);
      AppendWords(s, args.head.redirs, ArgRedirs(args.tail));
    }
  }

  lemma {:induction false} WrapWords(s: string, c: Cmd, rs: List<Redir>)
    requires CmdOf(s, c) && RedirsOf(s, rs)
    ensures CmdOf(s, Wrap(c, rs))
    decreases rs
  {
    if rs.Cons? {
      WrapWords(s, Redirected(c, rs.head), rs.tail);
    }
  }

  lemma {:induction false} BacksWords(s: string, c: Cmd, n: nat, rest: Toks)
    requires CmdOf(s, c) && TokensOf(s, SpellBacks(n, rest))
    ensures CmdOf(s, Backs(c, n)) && TokensOf(s, rest)
    decreases n
  {
    if n > 0 {
      BacksWords(s, BackCmd(c), n - 1, rest);
    }
  }

  lemma {:induction false} ExecWords(s: string, x: Exec, rest: Toks)
    requires TokensOf(s, SpellExec(x, rest))
    ensures CmdOf(s, ExecTree(x)) && TokensOf(s, rest)
  {
    match x
    case Block(l, after) =>
      LineWords(s, l, Cons(Sym(')'), SpellRedirs(after, rest)));
      RedirsWords(s, after, rest);
      WrapWords(s, LineTree(l), after);
    case Simple(first, args) =>
      RedirsWords(s, first, SpellArgs(args, rest));
      ArgsWords(s, args, rest);
      AppendWords(s, first, ArgRedirs(args));
      WrapWords(s, ExecCmd(Words(args)), Append(first, ArgRedirs(args)));
  }

  lemma {:induction false} PipeWords(s: string, p: Pipe, rest: Toks)
    requires TokensOf(s, SpellPipe(p, rest))
    ensures CmdOf(s, PipeTree(p)) && TokensOf(s, rest)
  {
    match p.rest
    case None =>
      ExecWords(s, p.exec, rest);
    case Some(q) =>
      ExecWords(s, p.exec, Cons(Sym('|'), SpellPipe(q, rest)));
      PipeWords(s, q, rest);
  }

  lemma {:induction false} LineWords(s: string, l: Line, rest: Toks)
    requires TokensOf(s, SpellLine(l, rest))
    ensures CmdOf(s, LineTree(l)) && TokensOf(s, rest)
  {
    var tail := if l.rest.None? then rest else Cons(Sym(';'), SpellLine(l.rest.value, rest));
    PipeWords(s, l.pipe, SpellBacks(l.backs, tail));
    BacksWords(s, PipeTree(l.pipe), l.backs, tail);
    if l.rest.Some? {
      LineWords(s, l.rest.value, rest);
    }
  }

  // ---------- Cutting the line into strings ----------

  const NUL: char := '\0'

  predicate EndsIn(argv: seq<(nat, nat)>, k: nat) {
    exists i :: 0 <= i < |argv| && argv[i].1 == k
  }

  predicate EndsAt(c: Cmd, k: nat) {
    match c
    case ExecCmd(argv) => EndsIn(argv, k)
    case RedirCmd(c', _, e, _, _) => EndsAt(c', k) || e == k
    case PipeCmd(l, r) => EndsAt(l, k) || EndsAt(r, k)
    case ListCmd(l, r) => EndsAt(l, k) || EndsAt(r, k)
    case BackCmd(c') => EndsAt(c', k)
  }

  /** A NUL goes only where a word ends. */
  lemma {:induction false} EndsWord(c: Cmd, k: nat) returns (q: nat)
    requires EndsAt(c, k)
    ensures HasWord(c, q, k)
    decreases c
  {
    match c
    case ExecCmd(argv) =>
      var i :| 0 <= i < |argv| && argv[i].1 == k;
      q := argv[i].0;
      assert argv[i] == (q, k);
    case RedirCmd(c', q', e', _, _) =>
      if e' == k { q := q'; } else { q := EndsWord(c', k); }
    case PipeCmd(l, r) =>
      if EndsAt(l, k) { q := EndsWord(l, k); } else { q := EndsWord(r, k); }
    case ListCmd(l, r) =>
      if EndsAt(l, k) { q := EndsWord(l, k); } else { q := EndsWord(r, k); }
    case BackCmd(c') =>
      q := EndsWord(c', k);
  }

  /** The string C reads from position q: up to the first NUL. */
  function CString(t: string, q: nat): string
    requires q <= |t|
    decreases |t| - q
  {
    if q == |t| || t[q] == NUL then [] else [t[q]] + CString(t, q + 1)
  }

  method NulTerminate(buf: array<char>, c: Cmd, ghost s: string)
    requires buf.Length == |s| + 1 && CmdOf(s, c)
    modifies buf
    ensures forall k :: 0 <= k < buf.Length ==> buf[k] == if EndsAt(c, k) then NUL else old(buf[k])
  {
    match c
    case ExecCmd(argv) =>
      var i := 0;
      while i < |argv|
        invariant 0 <= i <= |argv|
        invariant forall k :: 0 <= k < buf.Length ==> buf[k] == if EndsIn(argv[..i], k) then NUL else old(buf[k])
      {
        assert WordOf(s, argv[i].0, argv[i].1);
        EndsInOneMore(argv, i);
        buf[argv[i].1] := NUL;
        i := i + 1;
      }
      assert argv[..i] == argv;
    case RedirCmd(c', _, e, _, _) =>
      NulTerminate(buf, c', s);
      buf[e] := NUL;
    case PipeCmd(l, r) =>
      NulTerminate(buf, l, s);
      NulTerminate(buf, r, s);
    case ListCmd(l, r) =>
      NulTerminate(buf, l, s);
      NulTerminate(buf, r, s);
    case BackCmd(c') =>
      NulTerminate(buf, c', s);
  }

  lemma EndsInOneMore(argv: seq<(nat, nat)>, i: nat)
    requires i < |argv|
    ensures forall k :: EndsIn(argv[..i + 1], k) <==> EndsIn(argv[..i], k) || argv[i].1 == k
  {
    forall k
      ensures EndsIn(argv[..i + 1], k) <==> EndsIn(argv[..i], k) || argv[i].1 == k
    {
      if EndsIn(argv[..i], k) {
        var m :| 0 <= m < i && argv[..i][m].1 == k;
        assert argv[..i + 1][m].1 == k;
      }
      if EndsIn(argv[..i + 1], k) {
        var m :| 0 <= m < i + 1 && argv[..i + 1][m].1 == k;
        assert m < i ==> argv[..i][m].1 == k;
      }
      assert argv[..i + 1][i] == argv[i];
    }
  }

  /** No end of a word falls inside a word. */
  lemma {:induction false} EndsOutside(s: string, c: Cmd, k: nat)
    requires CmdOf(s, c) && EndsAt(c, k)
    ensures k == |s| || (k < |s| && !IsWordChar(s[k]))
  {
    match c
    case ExecCmd(argv) =>
      var i :| 0 <= i < |argv| && argv[i].1 == k;
      assert WordOf(s, argv[i].0, argv[i].1);
    case RedirCmd(c', _, e, _, _) =>
      if e != k {
        EndsOutside(s, c', k);
      }
    case PipeCmd(l, r) =>
      if EndsAt(l, k) { EndsOutside(s, l, k); } else { EndsOutside(s, r, k); }
    case ListCmd(l, r) =>
      if EndsAt(l, k) { EndsOutside(s, l, k); } else { EndsOutside(s, r, k); }
    case BackCmd(c') =>
      EndsOutside(s, c', k);
  }

  lemma {:induction false} WordEnds(s: string, c: Cmd, q: nat, e: nat)
    requires CmdOf(s, c) && HasWord(c, q, e)
    ensures WordOf(s, q, e) && EndsAt(c, e)
  {
    match c
    case ExecCmd(argv) =>
      var i :| 0 <= i < |argv| && argv[i] == (q, e);
      assert argv[i].1 == e;
    case RedirCmd(c', q', e', _, _) =>
      if (q', e') != (q, e) {
        WordEnds(s, c', q, e);
      }
    case PipeCmd(l, r) =>
      if HasWord(l, q, e) { WordEnds(s, l, q, e); } else { WordEnds(s, r, q, e); }
    case ListCmd(l, r) =>
      if HasWord(l, q, e) { WordEnds(s, l, q, e); } else { WordEnds(s, r, q, e); }
    case BackCmd(c') =>
      WordEnds(s, c', q, e);
  }

  lemma {:induction false} CStringIs(t: string, q: nat, e: nat)
    requires q <= e < |t| && t[e] == NUL
    requires forall k :: q <= k < e ==> t[k] != NUL
    ensures CString(t, q) == t[q..e]
    decreases e - q
  {
    if q < e {
      CStringIs(t, q + 1, e);
      assert t[q..e] == [t[q]] + t[q + 1..e];
    }
  }

  /** After nulterminate, every argument and file name of the command reads as the word that was typed:
      ending the words one after another damages none of them. */
  lemma WordsReadBack(s: string, c: Cmd, t: string, q: nat, e: nat)
    requires NUL !in s && |t| == |s| + 1
    requires CmdOf(s, c) && HasWord(c, q, e)
    requires forall k :: 0 <= k < |t| ==> t[k] == if EndsAt(c, k) then NUL else (s + [NUL])[k]
    ensures q < e <= |s| && CString(t, q) == s[q..e]
  {
    WordEnds(s, c, q, e);
    forall k | q <= k < e
      ensures t[k] == s[k] && s[k] != NUL
    {
      if EndsAt(c, k) {
        EndsOutside(s, c, k);
      }
      assert s[k] in s;
    }
    CStringIs(t, q, e);
    assert t[q..e] == s[q..e];
  }

  /** parsecmd on the buffer of a line: parse, then cut. Every word of the command is then a C string equal
      to what was typed. */
  method Run(buf: array<char>, s: string) returns (r: Parsed)
    requires NUL !in s && buf[..] == s + [NUL]
    modifies buf
    ensures r.Done? <==> exists l :: LineOk(l) && SpellLine(l, Nil) == Lex(s, 0)
    ensures forall l :: LineOk(l) && SpellLine(l, Nil) == Lex(s, 0) ==> r == Done(LineTree(l), |s|)
    ensures r.Failed? ==> buf[..] == old(buf[..])
    ensures r.Done? ==> Placed(s, r.cmd, Skip(s, 0), |s|) && InOrder(s, r.cmd)
    ensures r.Done? ==> forall q: nat, e: nat :: HasWord(r.cmd, q, e) <==> WordOf(s, q, e)
    ensures r.Done? ==> forall q: nat, e: nat :: HasWord(r.cmd, q, e) ==> q < e <= |s| && CString(buf[..], q) == s[q..e]
  {
    r := ParseCmd(s);
    if r.Done? {
      NulTerminate(buf, r.cmd, s);
      forall q: nat, e: nat | HasWord(r.cmd, q, e)
        ensures q < e <= |s| && CString(buf[..], q) == s[q..e]
      {
        WordsReadBack(s, r.cmd, buf[..], q, e);
      }
    }
  }
}
