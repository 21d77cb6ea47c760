/** The decisions of sh.c's recursive-descent parser on a token list, and their exact agreement with the
    grammar: it accepts the tokens of derivations, and gives back the derivation. */
module ShellParse {
  import opened Common
  import opened ShellGrammar

  /** The panics of the parser. */
  datatype Error = MissingFile | Syntax | MissingParen | TooManyArgs | Leftovers

  datatype Res<D> = Ok(d: D, rest: Toks) | Err(error: Error)

  predicate Starts(ts: Toks, c: char) {
    ts.Cons? && ts.head == Sym(c)
  }

  predicate StartsRedir(ts: Toks) {
    Starts(ts, '<') || Starts(ts, '>') || Starts(ts, '+')
  }

  function Redirs(ts: Toks): (r: Res<List<Redir>>)
    ensures r.Ok? ==> Length(r.rest) <= Length(ts)
  {
    if !StartsRedir(ts) then Ok(Nil, ts)
    else if ts.tail.Nil? || !ts.tail.head.Word? then Err(MissingFile)
    else
      match Redirs(ts.tail.tail)
      case Err(e) => Err(e)
      case Ok(rs, rest) => Ok(Cons(Redir(ts.head.c, ts.tail.head.q, ts.tail.head.e), rs), rest)
  }

  predicate EndsExec(ts: Toks) {
    ts.Nil? || Starts(ts, '|') || Starts(ts, ')') || Starts(ts, '&') || Starts(ts, ';')
  }

  /** The words of a simple command that already has `argc` of them. */
  function Args(ts: Toks, argc: nat): (r: Res<List<Arg>>)
    ensures r.Ok? ==> Length(r.rest) <= Length(ts)
    decreases Length(ts)
  {
    if EndsExec(ts) then Ok(Nil, ts)
    else if !ts.head.Word? then Err(Syntax)
    else if argc + 1 >= MAXARGS then Err(TooManyArgs)
    else
      match Redirs(ts.tail)
      case Err(e) => Err(e)
      case Ok(rs, rest) =>
        match Args(rest, argc + 1)
        case Err(e) => Err(e)
        case Ok(args, rest') => Ok(Cons(Arg(ts.head.q, ts.head.e, rs), args), rest')
  }

  function ParseExec(ts: Toks): (r: Res<Exec>)
    ensures r.Ok? ==> Length(r.rest) <= Length(ts)
    decreases Length(ts), 1
  {
    if Starts(ts, '(') then
      match ParseLine(ts.tail)
      case Err(e) => Err(e)
      case Ok(l, rest) =>
        if !Starts(rest, ')') then Err(MissingParen)
        else
          match Redirs(rest.tail)
          case Err(e) => Err(e)
          case Ok(rs, rest') => Ok(Block(l, rs), rest')
    else
      match Redirs(ts)
      case Err(e) => Err(e)
      case Ok(rs, rest) =>
        match Args(rest, 0)
        case Err(e) => Err(e)
        case Ok(args, rest') => Ok(Simple(rs, args), rest')
  }

  function ParsePipe(ts: Toks): (r: Res<Pipe>)
    ensures r.Ok? ==> Length(r.rest) <= Length(ts)
    decreases Length(ts), 2
  {
    match ParseExec(ts)
    case Err(e) => Err(e)
    case Ok(x, rest) =>
      if !Starts(rest, '|') then Ok(Pipe(x, None), rest)
      else
        match ParsePipe(rest.tail)
        case Err(e) => Err(e)
        case Ok(p, rest') => Ok(Pipe(x, Some(p)), rest')
  }

  /** How many '&' come first, and what is after them. */
  function TakeBacks(ts: Toks): (r: (nat, Toks))
    ensures Length(r.1) <= Length(ts)
  {
    if Starts(ts, '&') then
      var r := TakeBacks(ts.tail);
      (r.0 + 1, r.1)
    else
      (0, ts)
  }

  function ParseLine(ts: Toks): (r: Res<Line>)
    ensures r.Ok? ==> Length(r.rest) <= Length(ts)
    decreases Length(ts), 3
  {
    match ParsePipe(ts)
    case Err(e) => Err(e)
    case Ok(p, rest0) =>
      var (n, rest) := TakeBacks(rest0);
      if !Starts(rest, ';') then Ok(Line(p, n, None), rest)
      else
        match ParseLine(rest.tail)
        case Err(e) => Err(e)
        case Ok(l, rest') => Ok(Line(p, n, Some(l)), rest')
  }

  // ---------- Everything accepted is a derivation ----------

  lemma {:induction false} RedirsSound(ts: Toks)
    requires Redirs(ts).Ok?
    ensures var r := Redirs(ts); RedirsOk(r.d) && ts == SpellRedirs(r.d, r.rest) && !StartsRedir(r.rest)
  {
    if StartsRedir(ts) {
      RedirsSound(ts.tail.tail);
    }
  }

  lemma {:induction false} ArgsSound(ts: Toks, argc: nat)
    requires Args(ts, argc).Ok? && argc < MAXARGS
    ensures var r := Args(ts, argc); ArgsOk(r.d) && argc + Length(r.d) < MAXARGS && ts == SpellArgs(r.d, r.rest)
    decreases Length(ts)
  {
    if !EndsExec(ts) {
      RedirsSound(ts.tail);
      ArgsSound(Redirs(ts.tail).rest, argc + 1);
    }
  }

  lemma {:induction false} ExecSound(ts: Toks)
    requires ParseExec(ts).Ok?
    ensures var r := ParseExec(ts); ExecOk(r.d) && ts == SpellExec(r.d, r.rest)
    decreases Length(ts), 1
  {
    if Starts(ts, '(') {
      LineSound(ts.tail);
      RedirsSound(ParseLine(ts.tail).rest.tail);
    } else {
      RedirsSound(ts);
      ArgsSound(Redirs(ts).rest, 0);
    }
  }

  lemma {:induction false} PipeSound(ts: Toks)
    requires ParsePipe(ts).Ok?
    ensures var r := ParsePipe(ts); PipeOk(r.d) && ts == SpellPipe(r.d, r.rest)
    decreases Length(ts), 2
  {
    ExecSound(ts);
    var rest := ParseExec(ts).rest;
    if Starts(rest, '|') {
      PipeSound(rest.tail);
    }
  }

  lemma {:induction false} BacksSound(ts: Toks)
    ensures var (n, rest) := TakeBacks(ts); ts == SpellBacks(n, rest) && !Starts(rest, '&')
  {
    if Starts(ts, '&') {
      BacksSound(ts.tail);
    }
  }

  lemma {:induction false} LineSound(ts: Toks)
    requires ParseLine(ts).Ok?
    ensures var r := ParseLine(ts); LineOk(r.d) && ts == SpellLine(r.d, r.rest)
    decreases Length(ts), 3
  {
    PipeSound(ts);
    var rest0 := ParsePipe(ts).rest;
    BacksSound(rest0);
    var rest := TakeBacks(rest0).1;
    if Starts(rest, ';') {
      LineSound(rest.tail);
    }
  }

  // ---------- Every derivation is accepted ----------

  lemma {:induction false} RedirsComplete(rs: List<Redir>, rest: Toks)
    requires RedirsOk(rs) && !StartsRedir(rest)
    ensures Redirs(SpellRedirs(rs, rest)) == Ok(rs, rest)
  {
    if rs.Cons? {
      RedirsComplete(rs.tail, rest);
    }
  }

  lemma {:induction false} ArgsComplete(args: List<Arg>, rest: Toks, argc: nat)
    requires ArgsOk(args) && argc + Length(args) < MAXARGS && EndsExec(rest)
    ensures Args(SpellArgs(args, rest), argc) == Ok(args, rest)
    ensures !StartsRedir(SpellArgs(args, rest))
  {
    if args.Cons? {
      ArgsComplete(args.tail, rest, argc + 1);
      RedirsComplete(args.head.redirs, SpellArgs(args.tail, rest));
    }
  }

  lemma {:induction false} ExecComplete(x: Exec, rest: Toks)
    requires ExecOk(x) && EndsExec(rest)
    ensures ParseExec(SpellExec(x, rest)) == Ok(x, rest)
  {
    match x
    case Block(l, after) =>
      LineComplete(l, Cons(Sym(')'), SpellRedirs(after, rest)));
      RedirsComplete(after, rest);
    case Simple(first, args) =>
      ArgsComplete(args, rest, 0);
      RedirsComplete(first, SpellArgs(args, rest));
      assert !Starts(SpellArgs(args, rest), '(');
      assert !Starts(SpellRedirs(first, SpellArgs(args, rest)), '(');
  }

  predicate EndsPipe(ts: Toks) {
    ts.Nil? || Starts(ts, ')') || Starts(ts, '&') || Starts(ts, ';')
  }

  lemma {:induction false} PipeComplete(p: Pipe, rest: Toks)
    requires PipeOk(p) && EndsPipe(rest)
    ensures ParsePipe(SpellPipe(p, rest)) == Ok(p, rest)
  {
    match p.rest
    case None =>
      ExecComplete(p.exec, rest);
    case Some(q) =>
      PipeComplete(q, rest);
      ExecComplete(p.exec, Cons(Sym('|'), SpellPipe(q, rest)));
  }

  lemma {:induction false} BacksComplete(n: nat, rest: Toks)
    requires !Starts(rest, '&')
    ensures TakeBacks(SpellBacks(n, rest)).0 == n
    ensures TakeBacks(SpellBacks(n, rest)).1 == rest
  {
    if n > 0 {
      BacksComplete(n - 1, rest);
    }
  }

  predicate EndsLine(ts: Toks) {
    ts.Nil? || Starts(ts, ')')
  }

  lemma {:induction false} LineComplete(l: Line, rest: Toks)
    requires LineOk(l) && EndsLine(rest)
    ensures ParseLine(SpellLine(l, rest)) == Ok(l, rest)
  {
    match l.rest
    case None =>
      BacksComplete(l.backs, rest);
      PipeComplete(l.pipe, SpellBacks(l.backs, rest));
    case Some(m) =>
      LineComplete(m, rest);
      var after := Cons(Sym(';'), SpellLine(m, rest));
      BacksComplete(l.backs, after);
      PipeComplete(l.pipe, SpellBacks(l.backs, after));
  }

  // ---------- Exactly the language ----------

  /** parsecmd on tokens: a whole line and nothing after it. */
  function ParseCmd(ts: Toks): Res<Line> {
    match ParseLine(ts)
    case Err(e) => Err(e)
    case Ok(l, rest) => if rest == Nil then Ok(l, Nil) else Err(Leftovers)
  }

  /** The parser accepts exactly the token lists that have a derivation, and returns it. */
  lemma AcceptsExactly(ts: Toks, l: Line)
    ensures ParseCmd(ts) == Ok(l, Nil) <==> LineOk(l) && SpellLine(l, Nil) == ts
  {
    if ParseCmd(ts) == Ok(l, Nil) {
      LineSound(ts);
    }
    if LineOk(l) && SpellLine(l, Nil) == ts {
      LineComplete(l, Nil);
    }
  }

  /** No token list has two derivations. */
  lemma DerivationUnique(l: Line, m: Line)
    requires LineOk(l) && LineOk(m) && SpellLine(l, Nil) == SpellLine(m, Nil)
    ensures l == m
  {
    AcceptsExactly(SpellLine(l, Nil), l);
    AcceptsExactly(SpellLine(m, Nil), m);
  }

  /** A command has at most nine words. */
  lemma NineWords(first: List<Redir>, args: List<Arg>)
    ensures ExecOk(Simple(first, args)) <==> RedirsOk(first) && ArgsOk(args) && Length(args) <= 9
  {
  }
}
