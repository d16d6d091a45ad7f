/** What sh.c reads: tokens, command trees, and its descent parser as functions of the text and a cursor. */
module ShellSyntax {
  const MAXARGS: nat := 10
  const O_RDONLY: nat := 0
  const O_WRONLY_CREATE: nat := 0x201

  datatype Cmd =
    | Exec(args: seq<string>)
    | Redir(cmd: Cmd, file: string, mode: nat, fd: nat)
    | Pipe(left: Cmd, right: Cmd)
    | List(left: Cmd, right: Cmd)
    | Back(cmd: Cmd)

  datatype Error = Syntax | MissingFile | MissingParen | TooManyArgs

  /** A command and where the cursor stopped, or the panic that ended the shell's child. */
  datatype Parsed = Parsed(cmd: Cmd, at: nat) | Panic(error: Error)

  /** A C string's characters: everything before its NUL. */
  type Text = s: string | forall k | 0 <= k < |s| :: s[k] != '\0'

  predicate IsSpace(c: char) {
    c == ' ' || c == '\t' || c == '\r' || c == '\n' || c == 11 as char
  }

  predicate IsSymbol(c: char) {
    c == '<' || c == '|' || c == '>' || c == '&' || c == ';' || c == '(' || c == ')'
  }

  predicate IsWordChar(c: char) {
    c != '\0' && !IsSpace(c) && !IsSymbol(c)
  }

  /** The character under the cursor; the terminating NUL at the end. */
  function At(t: Text, i: nat): char {
    if i < |t| then t[i] else '\0'
  }

  function Skip(t: Text, i: nat): (j: nat)
    requires i <= |t|
    ensures i <= j <= |t|
    ensures !IsSpace(At(t, j))
    decreases |t| - i
  {
    if i < |t| && IsSpace(t[i]) then Skip(t, i + 1) else i
  }

  function WordEnd(t: Text, i: nat): (j: nat)
    requires i <= |t|
    ensures i <= j <= |t|
    ensures !IsWordChar(At(t, j))
    decreases |t| - i
  {
    if i < |t| && IsWordChar(t[i]) then WordEnd(t, i + 1) else i
  }

  /** gettoken's result: the kind, the token's span, and the cursor after the blanks that follow. */
  datatype Token = Token(kind: char, q: nat, eq: nat, next: nat)

  predicate IsSingle(c: char) {
    c == '|' || c == '(' || c == ')' || c == ';' || c == '&' || c == '<'
  }

  function TokenEnd(t: Text, q: nat): (e: nat)
    requires q <= |t|
    ensures q <= e <= |t|
    ensures q < |t| && !IsSpace(t[q]) ==> q < e
  {
    var c := At(t, q);
    if c == '\0' then q
    else if IsSingle(c) then q + 1
    else if c == '>' then (if At(t, q + 1) == '>' then q + 2 else q + 1)
    else WordEnd(t, q)
  }

  function TokenKind(t: Text, q: nat): char {
    var c := At(t, q);
    if c == '\0' || IsSingle(c) then c
    else if c == '>' then (if At(t, q + 1) == '>' then '+' else '>')
    else 'a'
  }

  function GetToken(t: Text, i: nat): (r: Token)
    requires i <= |t|
    ensures i <= r.q <= r.eq <= r.next <= |t|
    ensures r.kind != '\0' ==> i < r.next
  {
    var q := Skip(t, i);
    Token(TokenKind(t, q), q, TokenEnd(t, q), Skip(t, TokenEnd(t, q)))
  }

  // --- The parser ---

  /** The Exec node at the bottom of a chain of redirections gets one more argument. */
  function AddArg(c: Cmd, w: string): Cmd {
    match c
    case Exec(args) => Exec(args + [w])
    case Redir(d, file, mode, fd) => Redir(AddArg(d, w), file, mode, fd)
    case _ => c
  }

  function Redirected(c: Cmd, kind: char, file: string): Cmd {
    if kind == '<' then Redir(c, file, O_RDONLY, 0) else Redir(c, file, O_WRONLY_CREATE, 1)
  }

  function ParseRedirs(t: Text, i: nat, c: Cmd): (r: Parsed)
    requires i <= |t|
    ensures r.Parsed? ==> i <= r.at <= |t|
    decreases |t| - i
  {
    var j := Skip(t, i);
    if At(t, j) == '<' || At(t, j) == '>' then
      var op := GetToken(t, j);
      var file := GetToken(t, op.next);
      if file.kind != 'a' then Panic(MissingFile)
      else ParseRedirs(t, file.next, Redirected(c, op.kind, t[file.q..file.eq]))
    else
      Parsed(c, j)
  }

  predicate EndsExec(c: char) {
    c == '|' || c == ')' || c == '&' || c == ';'
  }

  /** The loop of parseexec, with `argc` arguments read so far into the bottom of `c`. */
  function ParseArgs(t: Text, i: nat, c: Cmd, argc: nat): (r: Parsed)
    requires i <= |t|
    ensures r.Parsed? ==> i <= r.at <= |t|
    decreases |t| - i
  {
    var j := Skip(t, i);
    if EndsExec(At(t, j)) then Parsed(c, j)
    else
      var tok := GetToken(t, j);
      if tok.kind == '\0' then Parsed(c, tok.next)
      else if tok.kind != 'a' then Panic(Syntax)
      else if argc + 1 >= MAXARGS then Panic(TooManyArgs)
      else
        match ParseRedirs(t, tok.next, AddArg(c, t[tok.q..tok.eq]))
        case Panic(e) => Panic(e)
        case Parsed(d, k) => ParseArgs(t, k, d, argc + 1)
  }

  function ParseExec(t: Text, i: nat): (r: Parsed)
    requires i <= |t|
    ensures r.Parsed? ==> i <= r.at <= |t|
    decreases |t| - i, 2
  {
    var j := Skip(t, i);
    if At(t, j) == '(' then ParseBlock(t, j)
    else
      match ParseRedirs(t, j, Exec([]))
      case Panic(e) => Panic(e)
      case Parsed(c, k) => ParseArgs(t, k, c, 0)
  }

  function ParseBlock(t: Text, i: nat): (r: Parsed)
    requires i < |t| && t[i] == '('
    ensures r.Parsed? ==> i <= r.at <= |t|
    decreases |t| - i, 1
  {
    match ParseLine(t, GetToken(t, i).next)
    case Panic(e) => Panic(e)
    case Parsed(c, k) =>
      var j := Skip(t, k);
      if At(t, j) != ')' then Panic(MissingParen)
      else ParseRedirs(t, GetToken(t, j).next, c)
  }

  function ParsePipe(t: Text, i: nat): (r: Parsed)
    requires i <= |t|
    ensures r.Parsed? ==> i <= r.at <= |t|
    decreases |t| - i, 3
  {
    match ParseExec(t, i)
    case Panic(e) => Panic(e)
    case Parsed(c, k) =>
      var j := Skip(t, k);
      if At(t, j) == '|' then
        match ParsePipe(t, GetToken(t, j).next)
        case Panic(e) => Panic(e)
        case Parsed(d, m) => Parsed(Pipe(c, d), m)
      else
        Parsed(c, j)
  }

  /** The tail of parseline: any number of '&', then perhaps ';' and the rest of the line. */
  function ParseTail(t: Text, i: nat, c: Cmd): (r: Parsed)
    requires i <= |t|
    ensures r.Parsed? ==> i <= r.at <= |t|
    decreases |t| - i, 0
  {
    var j := Skip(t, i);
    if At(t, j) == '&' then ParseTail(t, GetToken(t, j).next, Back(c))
    else if At(t, j) == ';' then
      match ParseLine(t, GetToken(t, j).next)
      case Panic(e) => Panic(e)
      case Parsed(d, m) => Parsed(List(c, d), m)
    else
      Parsed(c, j)
  }

  function ParseLine(t: Text, i: nat): (r: Parsed)
    requires i <= |t|
    ensures r.Parsed? ==> i <= r.at <= |t|
    decreases |t| - i, 4
  {
    match ParsePipe(t, i)
    case Panic(e) => Panic(e)
    case Parsed(c, k) => ParseTail(t, k, c)
  }

  function ParseCmd(t: Text): Parsed {
    match ParseLine(t, 0)
    case Panic(e) => Panic(e)
    case Parsed(c, k) => if Skip(t, k) != |t| then Panic(Syntax) else Parsed(c, |t|)
  }

  // --- Which trees the parser can build, and how to write one down ---

  predicate GoodWord(w: string) {
    |w| > 0 && forall k | 0 <= k < |w| :: IsWordChar(w[k])
  }

  predicate GoodMode(mode: nat, fd: nat) {
    (mode == O_RDONLY && fd == 0) || (mode == O_WRONLY_CREATE && fd == 1)
  }

  /** Fewer than MAXARGS words in every Exec, and only the two kinds of redirection. */
  predicate Good(c: Cmd) {
    match c
    case Exec(args) => |args| < MAXARGS && forall k | 0 <= k < |args| :: GoodWord(args[k])
    case Redir(d, file, mode, fd) => Good(d) && GoodWord(file) && GoodMode(mode, fd)
    case Pipe(l, r) => Good(l) && Good(r)
    case List(l, r) => Good(l) && Good(r)
    case Back(d) => Good(d)
  }

  function Words(args: seq<string>): string {
    if |args| == 0 then "" else args[0] + " " + Words(args[1..])
  }

  /** What lies under the redirections. */
  function Core(c: Cmd): (r: Cmd)
    ensures !r.Redir? && (r == c || r < c)
  {
    if c.Redir? then Core(c.cmd) else c
  }

  function Op(mode: nat): string {
    if mode == O_RDONLY then "<" else ">"
  }

  function Redirs(c: Cmd): string {
    if c.Redir? then Redirs(c.cmd) + Op(c.mode) + c.file + " " else ""
  }

  /** A node with an operator of its own, its parts in parentheses only where the grammar needs them. */
  function PrintNode(c: Cmd): string
    decreases c, 0
  {
    match c
    case List(l, r) => PrintBack(l) + ";" + PrintLine(r)
    case Back(d) => PrintBack(d) + "&"
    case Pipe(l, r) => PrintExec(l) + "|" + PrintPipe(r)
    case _ => ""
  }

  function PrintLine(c: Cmd): string
    decreases c, 4
  {
    if c.List? then PrintNode(c) else PrintBack(c)
  }

  function PrintBack(c: Cmd): string
    decreases c, 3
  {
    if c.Back? then PrintNode(c) else PrintPipe(c)
  }

  function PrintPipe(c: Cmd): string
    decreases c, 2
  {
    if c.Pipe? then PrintNode(c) else PrintExec(c)
  }

  function PrintExec(c: Cmd): string
    decreases c, 1
  {
    if Core(c).Exec? then Words(Core(c).args) + Redirs(c) else "(" + PrintNode(Core(c)) + ")" + Redirs(c)
  }
}
