/** The language of sh.c's command lines: tokens, derivations of the grammar, and the command tree each
    derivation stands for. */
module ShellGrammar {
  import opened Common

  const MAXARGS := 10

  /** A word is a range of the input; a symbol is its character, with '+' for ">>". */
  datatype Tok = Sym(c: char) | Word(q: nat, e: nat)

  datatype List<T> = Nil | Cons(head: T, tail: List<T>)

  type Toks = List<Tok>

  predicate IsSpace(c: char) {
    c == ' ' || c == '\t' || c == '\r' || c == '\n' || c == '\U{b}'
  }

  predicate IsSymbol(c: char) {
    c == '<' || c == '|' || c == '>' || c == '&' || c == ';' || c == '(' || c == ')'
  }

  predicate IsWordChar(c: char) {
    !IsSpace(c) && !IsSymbol(c)
  }

  // ---------- Tokens of a line ----------

  /** The first place from i on that is not white space. */
  function Skip(s: string, i: nat): (j: nat)
    requires i <= |s|
    ensures i <= j <= |s|
    ensures j < |s| ==> !IsSpace(s[j])
    decreases |s| - i
  {
    if i < |s| && IsSpace(s[i]) then Skip(s, i + 1) else i
  }

  lemma {:induction false} SkipIs(s: string, i: nat)
    requires i <= |s|
    ensures forall k :: i <= k < Skip(s, i) ==> IsSpace(s[k])
    decreases |s| - i
  {
    if i < |s| && IsSpace(s[i]) {
      SkipIs(s, i + 1);
    }
  }

  /** The end of the word characters from i on. */
  function WordEnd(s: string, i: nat): (j: nat)
    requires i <= |s|
    ensures i <= j <= |s|
    ensures forall k :: i <= k < j ==> IsWordChar(s[k])
    ensures j < |s| ==> !IsWordChar(s[j])
    decreases |s| - i
  {
    if i < |s| && IsWordChar(s[i]) then WordEnd(s, i + 1) else i
  }

  /** The token at i, where i is not white space, and where it ends. */
  function TokenAt(s: string, i: nat): (r: (Tok, nat))
    requires i < |s| && !IsSpace(s[i])
    ensures i < r.1 <= |s|
  {
    if s[i] == '>' && i + 1 < |s| && s[i + 1] == '>' then (Sym('+'), i + 2)
    else if IsSymbol(s[i]) then (Sym(s[i]), i + 1)
    else (Word(i, WordEnd(s, i)), WordEnd(s, i))
  }

  /** The tokens from position i on. */
  function Lex(s: string, i: nat): Toks
    requires i <= |s|
    decreases |s| - i
  {
    var j := Skip(s, i);
    if j == |s| then Nil else Cons(TokenAt(s, j).0, Lex(s, TokenAt(s, j).1))
  }

  // ---------- Derivations ----------

  datatype Redir = Redir(op: char, q: nat, e: nat)

  datatype Arg = Arg(q: nat, e: nat, redirs: List<Redir>)

  /** exec -> block | simple command;  pipe -> exec [| pipe];  line -> pipe &* [; line] */
  datatype Exec = Block(line: Line, after: List<Redir>) | Simple(first: List<Redir>, args: List<Arg>)
  datatype Pipe = Pipe(exec: Exec, rest: Option<Pipe>)
  datatype Line = Line(pipe: Pipe, backs: nat, rest: Option<Line>)

  function Length<T>(l: List<T>): nat {
    match l
    case Nil => 0
    case Cons(_, t) => 1 + Length(t)
  }

  predicate RedirsOk(rs: List<Redir>) {
    rs.Cons? ==> (rs.head.op == '<' || rs.head.op == '>' || rs.head.op == '+') && RedirsOk(rs.tail)
  }

  predicate ArgsOk(args: List<Arg>) {
    args.Cons? ==> RedirsOk(args.head.redirs) && ArgsOk(args.tail)
  }

  predicate ExecOk(x: Exec) {
    match x
    case Block(l, after) => LineOk(l) && RedirsOk(after)
    case Simple(first, args) => RedirsOk(first) && ArgsOk(args) && Length(args) < MAXARGS
  }

  predicate PipeOk(p: Pipe) {
    ExecOk(p.exec) && (p.rest.Some? ==> PipeOk(p.rest.value))
  }

  predicate LineOk(l: Line) {
    PipeOk(l.pipe) && (l.rest.Some? ==> LineOk(l.rest.value))
  }

  // ---------- The tokens a derivation spells, in front of others ----------

  function SpellRedirs(rs: List<Redir>, then': Toks): Toks {
    match rs
    case Nil => then'
    case Cons(r, t) => Cons(Sym(r.op), Cons(Word(r.q, r.e), SpellRedirs(t, then')))
  }

  function SpellArgs(args: List<Arg>, then': Toks): Toks {
    match args
    case Nil => then'
    case Cons(a, t) => Cons(Word(a.q, a.e), SpellRedirs(a.redirs, SpellArgs(t, then')))
  }

  function SpellBacks(n: nat, then': Toks): Toks {
    if n == 0 then then' else Cons(Sym('&'), SpellBacks(n - 1, then'))
  }

  function SpellExec(x: Exec, then': Toks): Toks {
    match x
    case Block(l, after) => Cons(Sym('('), SpellLine(l, Cons(Sym(')'), SpellRedirs(after, then'))))
    case Simple(first, args) => SpellRedirs(first, SpellArgs(args, then'))
  }

  function SpellPipe(p: Pipe, then': Toks): Toks {
    match p.rest
    case None => SpellExec(p.exec, then')
    case Some(q) => SpellExec(p.exec, Cons(Sym('|'), SpellPipe(q, then')))
  }

  function SpellLine(l: Line, then': Toks): Toks {
    match l.rest
    case None => SpellPipe(l.pipe, SpellBacks(l.backs, then'))
    case Some(m) => SpellPipe(l.pipe, SpellBacks(l.backs, Cons(Sym(';'), SpellLine(m, then'))))
  }

  // ---------- The command a derivation stands for ----------

  datatype Cmd =
    | ExecCmd(argv: seq<(nat, nat)>)
    | RedirCmd(cmd: Cmd, q: nat, e: nat, forWriting: bool, fd: nat)
    | PipeCmd(left: Cmd, right: Cmd)
    | ListCmd(left: Cmd, right: Cmd)
    | BackCmd(cmd: Cmd)

  function Redirected(c: Cmd, r: Redir): Cmd {
    if r.op == '<' then RedirCmd(c, r.q, r.e, false, 0) else RedirCmd(c, r.q, r.e, true, 1)
  }

  /** Each redirection wraps what was there; '>' and ">>" differ in nothing. */
  function Wrap(c: Cmd, rs: List<Redir>): Cmd
    decreases rs
  {
    match rs
    case Nil => c
    case Cons(r, t) => Wrap(Redirected(c, r), t)
  }

  function Words(args: List<Arg>): seq<(nat, nat)> {
    match args
    case Nil => []
    case Cons(a, t) => [(a.q, a.e)] + Words(t)
  }

  function Append(rs: List<Redir>, us: List<Redir>): List<Redir> {
    match rs
    case Nil => us
    case Cons(r, t) => Cons(r, Append(t, us))
  }

  function ArgRedirs(args: List<Arg>): List<Redir> {
    match args
    case Nil => Nil
    case Cons(a, t) => Append(a.redirs, ArgRedirs(t))
  }

  function Backs(c: Cmd, n: nat): Cmd
    decreases n
  {
    if n == 0 then c else Backs(BackCmd(c), n - 1)
  }

  /** All the words are the arguments, wherever the redirections stood among them. */
  function ExecTree(x: Exec): Cmd {
    match x
    case Block(l, after) => Wrap(LineTree(l), after)
    case Simple(first, args) => Wrap(ExecCmd(Words(args)), Append(first, ArgRedirs(args)))
  }

  function PipeTree(p: Pipe): Cmd {
    match p.rest
    case None => ExecTree(p.exec)
    case Some(q) => PipeCmd(ExecTree(p.exec), PipeTree(q))
  }

  function LineTree(l: Line): Cmd {
    match l.rest
    case None => Backs(PipeTree(l.pipe), l.backs)
    case Some(m) => ListCmd(Backs(PipeTree(l.pipe), l.backs), LineTree(m))
  }
}
