/** The grammar of sh.c as a relation between token sequences and trees, and that the descent parser decides it. */
module ShellGrammar {
  import opened ShellSyntax
  import opened ShellTokens
  import opened ShellRoundTrip

  // --- The grammar ---

  predicate IsRedir(tok: Tok) {
    tok == Mark('<') || tok == Mark('>') || tok == Mark('+')
  }

  /** How a redirection opens its file: "<" for reading on descriptor 0; ">" and ">>" alike for writing on 1. */
  predicate OpensAs(tok: Tok, mode: nat, fd: nat) {
    (tok == Mark('<') && mode == 0 && fd == 0) || ((tok == Mark('>') || tok == Mark('+')) && mode == 0x201 && fd == 1)
  }

  /** `c` is `d` with the redirections of `ts` around it, the last one outermost. */
  predicate Wrapped(ts: seq<Tok>, d: Cmd, c: Cmd)
    decreases |ts|
  {
    if ts == [] then c == d
    else
      var n := |ts|;
      n >= 2 && c.Redir? && ts[n - 1] == Word(c.file) && OpensAs(ts[n - 2], c.mode, c.fd) &&
      Wrapped(ts[..n - 2], d, c.cmd)
  }

  /** The last argument taken off again. */
  function DropArg(c: Cmd): Cmd {
    match c
    case Exec(args) => if |args| > 0 then Exec(args[..|args| - 1]) else c
    case Redir(d, file, mode, fd) => Redir(DropArg(d), file, mode, fd)
    case _ => c
  }

  /** Words and redirections in any order: the arguments in order at the bottom, the last redirection outermost. */
  predicate Simple(ts: seq<Tok>, c: Cmd)
    decreases |ts|
  {
    if ts == [] then c == Exec([])
    else
      var n := |ts|;
      ts[n - 1].Word? &&
      if n >= 2 && IsRedir(ts[n - 2]) then
        c.Redir? && ts[n - 1] == Word(c.file) && OpensAs(ts[n - 2], c.mode, c.fd) && Simple(ts[..n - 2], c.cmd)
      else
        Core(c).Exec? && |Core(c).args| > 0 && ts[n - 1] == Word(Core(c).args[|Core(c).args| - 1]) &&
        Simple(ts[..n - 1], DropArg(c))
  }

  /** command: at most nine words with redirections, or a line in parentheses with redirections behind it. */
  ghost predicate IsExec(ts: seq<Tok>, c: Cmd)
    decreases |ts|, 1
  {
    (Simple(ts, c) && Core(c).Exec? && |Core(c).args| < 10) || exists m: nat, d :: IsBlock(ts, m, d, c)
  }

  ghost predicate IsBlock(ts: seq<Tok>, m: nat, d: Cmd, c: Cmd)
    decreases |ts|, 0
  {
    1 <= m < |ts| && ts[0] == Mark('(') && ts[m] == Mark(')') && IsLine(ts[1..m], d) && Wrapped(ts[m + 1..], d, c)
  }

  /** pipe: commands joined by '|', to the right. */
  ghost predicate IsPipe(ts: seq<Tok>, c: Cmd)
    decreases |ts|, 2
  {
    IsExec(ts, c) ||
    (c.Pipe? &&
     exists m :: 0 <= m < |ts| && ts[m] == Mark('|') && IsExec(ts[..m], c.left) && IsPipe(ts[m + 1..], c.right))
  }

  /** A pipe and any number of '&'. */
  ghost predicate IsBack(ts: seq<Tok>, c: Cmd)
    decreases |ts|, 3
  {
    IsPipe(ts, c) ||
    (c.Back? && |ts| > 0 && ts[|ts| - 1] == Mark('&') && IsBack(ts[..|ts| - 1], c.cmd))
  }

  /** line: those, separated by ';', to the right. */
  ghost predicate IsLine(ts: seq<Tok>, c: Cmd)
    decreases |ts|, 4
  {
    IsBack(ts, c) ||
    (c.List? &&
     exists m :: 0 <= m < |ts| && ts[m] == Mark(';') && IsBack(ts[..m], c.left) && IsLine(ts[m + 1..], c.right))
  }

  // --- Building up from the front ---

  lemma {:induction false} WrappedMore(ts: seq<Tok>, us: seq<Tok>, b: Cmd, d: Cmd, c: Cmd)
    requires Wrapped(ts, b, d) && Wrapped(us, d, c)
    ensures Wrapped(ts + us, b, c)
    decreases |us|
  {
    var n := |us|;
    if us == [] {
      assert ts + us == ts;
    } else {
      WrappedMore(ts, us[..n - 2], b, d, c.cmd);
      assert (ts + us)[..|ts + us| - 2] == ts + us[..n - 2];
    }
  }

  lemma WrappedOne(op: Tok, file: string, mode: nat, fd: nat, d: Cmd)
    requires OpensAs(op, mode, fd)
    ensures Wrapped([op, Word(file)], d, Redir(d, file, mode, fd))
  {
    assert [op, Word(file)][..0] == [];
  }

  /** Redirections start with an operator and a word. */
  lemma {:induction false} WrappedFirst(ts: seq<Tok>, d: Cmd, c: Cmd) returns (mode: nat, fd: nat)
    requires Wrapped(ts, d, c) && ts != []
    ensures |ts| >= 2 && ts[1].Word? && OpensAs(ts[0], mode, fd) && Wrapped(ts[2..], Redir(d, ts[1].w, mode, fd), c)
    decreases |ts|
  {
    var n := |ts|;
    if n == 2 {
      mode, fd := c.mode, c.fd;
      assert ts[..0] == [] && ts[2..] == [];
    } else {
      mode, fd := WrappedFirst(ts[..n - 2], d, c.cmd);
      assert ts[..n - 2][2..] == ts[2..][..n - 4];
    }
  }

  lemma {:induction false} DropAdd(c: Cmd, w: string)
    requires Core(c).Exec?
    ensures DropArg(AddArg(c, w)) == c && Core(AddArg(c, w)) == Exec(Core(c).args + [w])
    decreases c
  {
    if c.Redir? {
      DropAdd(c.cmd, w);
    }
  }

  lemma {:induction false} AddDrop(c: Cmd)
    requires Core(c).Exec? && |Core(c).args| > 0
    ensures var w := Core(c).args[|Core(c).args| - 1];
            AddArg(DropArg(c), w) == c && Core(DropArg(c)) == Exec(Core(c).args[..|Core(c).args| - 1])
    decreases c
  {
    if c.Redir? {
      AddDrop(c.cmd);
    } else {
      assert c.args == c.args[..|c.args| - 1] + [c.args[|c.args| - 1]];
    }
  }

  lemma {:induction false} SimpleExec(ts: seq<Tok>, c: Cmd)
    requires Simple(ts, c)
    ensures Core(c).Exec?
    decreases |ts|
  {
    if ts != [] && |ts| >= 2 && IsRedir(ts[|ts| - 2]) {
      SimpleExec(ts[..|ts| - 2], c.cmd);
    }
  }

  lemma SimpleWord(ts: seq<Tok>, c: Cmd, w: string)
    requires Simple(ts, c)
    ensures Simple(ts + [Word(w)], AddArg(c, w)) && Core(AddArg(c, w)).Exec? && Core(c).Exec?
    ensures |Core(AddArg(c, w)).args| == |Core(c).args| + 1
  {
    SimpleExec(ts, c);
    DropAdd(c, w);
    assert (ts + [Word(w)])[..|ts|] == ts;
  }

  lemma {:induction false} SimpleWrapped(ts: seq<Tok>, us: seq<Tok>, d: Cmd, c: Cmd)
    requires Simple(ts, d) && Wrapped(us, d, c)
    ensures Simple(ts + us, c) && Core(c) == Core(d)
    decreases |us|
  {
    var n := |us|;
    if us == [] {
      assert ts + us == ts;
    } else {
      SimpleWrapped(ts, us[..n - 2], d, c.cmd);
      assert (ts + us)[..|ts + us| - 2] == ts + us[..n - 2];
    }
  }

  /** The tokens say which tree it is. */
  lemma {:induction false} SimpleUnique(ts: seq<Tok>, c: Cmd, d: Cmd)
    requires Simple(ts, c) && Simple(ts, d)
    ensures c == d
    decreases |ts|
  {
    var n := |ts|;
    if n > 0 {
      if n >= 2 && IsRedir(ts[n - 2]) {
        SimpleUnique(ts[..n - 2], c.cmd, d.cmd);
      } else {
        SimpleUnique(ts[..n - 1], DropArg(c), DropArg(d));
        AddDrop(c);
        AddDrop(d);
      }
    }
  }

  /** More tokens, no fewer arguments. */
  lemma {:induction false} SimpleMore(ts: seq<Tok>, us: seq<Tok>, d: Cmd, c: Cmd)
    requires Simple(ts, d) && Simple(ts + us, c) && Core(d).Exec?
    ensures Core(c).Exec? && |Core(c).args| >= |Core(d).args|
    decreases |us|
  {
    var all := ts + us;
    var n, k := |all|, |us|;
    SimpleExec(all, c);
    if us == [] {
      assert all == ts;
      SimpleUnique(ts, c, d);
    } else if k >= 2 && IsRedir(us[k - 2]) {
      assert all[..n - 2] == ts + us[..k - 2];
      SimpleMore(ts, us[..k - 2], d, c.cmd);
    } else {
      assert all[..n - 1] == ts + us[..k - 1];
      AddDrop(c);
      SimpleMore(ts, us[..k - 1], d, DropArg(c));
    }
  }

  /** Every symbol in it is a redirection with a word behind it. */
  lemma {:induction false} SimpleMarks(ts: seq<Tok>, c: Cmd, k: nat)
    requires Simple(ts, c) && k < |ts| && !ts[k].Word?
    ensures k + 1 < |ts| && IsRedir(ts[k]) && ts[k + 1].Word?
    decreases |ts|
  {
    var n := |ts|;
    if n >= 2 && IsRedir(ts[n - 2]) {
      if k < n - 2 {
        SimpleMarks(ts[..n - 2], c.cmd, k);
      }
    } else {
      SimpleMarks(ts[..n - 1], DropArg(c), k);
    }
  }

  // --- What the parser sees of the tokens ---

  function FirstOf(tok: Tok): char {
    if tok.Word? then 'a' else if tok.kind == '+' then '>' else tok.kind
  }

  /** peek and gettoken at position `i`, by the tokens from there on. */
  lemma Head(t: Text, i: nat)
    requires i <= |t|
    ensures var ts, j := Toks(t, i), Skip(t, i);
            Toks(t, j) == ts && Skip(t, j) == j && GetToken(t, j) == GetToken(t, i) &&
            (ts == [] <==> j == |t|) && (ts == [] <==> GetToken(t, j).kind == '\0') && (ts == [] ==> At(t, j) == '\0')
    ensures var ts, j := Toks(t, i), Skip(t, i);
            ts != [] ==>
              var r := GetToken(t, j);
              GoodTok(ts[0]) && j == r.q < r.eq <= r.next && Toks(t, r.next) == ts[1..] && i < r.next &&
              (if ts[0].Word? then r.kind == 'a' && t[r.q..r.eq] == ts[0].w && IsWordChar(At(t, j))
               else r.kind == ts[0].kind && At(t, j) == FirstOf(ts[0]))
  {
    SkipIdle(t, i);
    var ts, j := Toks(t, i), Skip(t, i);
    if ts != [] {
      FoundToken(t, j);
      assert Toks(t, j) == [TokOf(t, GetToken(t, j))] + Toks(t, GetToken(t, j).next);
    }
  }

  /** A character that is no symbol begins no symbol. */
  lemma WordStart(c: char)
    requires IsWordChar(c)
    ensures !EndsExec(c) && c != '<' && c != '>' && c != '('
  {
  }

  /** One redirection: parseredirs goes on behind it, panics for want of a file, or is through. */
  lemma RedirsTurn(t: Text, i: nat, c: Cmd) returns (k: nat, d: Cmd)
    requires i <= |t|
    ensures var ts := Toks(t, i);
            if ts != [] && IsRedir(ts[0]) then
              if |ts| >= 2 && ts[1].Word? then
                i < k <= |t| && d.Redir? && d.cmd == c && ts == [ts[0], Word(d.file)] + Toks(t, k) &&
                OpensAs(ts[0], d.mode, d.fd) && ParseRedirs(t, i, c) == ParseRedirs(t, k, d)
              else ParseRedirs(t, i, c).Panic?
            else ParseRedirs(t, i, c) == Parsed(c, Skip(t, i))
  {
    var ts, j := Toks(t, i), Skip(t, i);
    Head(t, i);
    k, d := i, c;
    if ts != [] && IsRedir(ts[0]) {
      var op := GetToken(t, j);
      var file := GetToken(t, op.next);
      Head(t, op.next);
      SkipIdle(t, op.next);
      k, d := file.next, Redirected(c, op.kind, t[file.q..file.eq]);
    }
  }

  /** What ends a command. */
  predicate Stop(ts: seq<Tok>) {
    ts == [] || ts[0] == Mark('|') || ts[0] == Mark(')') || ts[0] == Mark('&') || ts[0] == Mark(';')
  }

  /** One turn of parseexec's loop. */
  lemma ArgsTurnToks(t: Text, i: nat, c: Cmd, argc: nat) returns (k: nat)
    requires i <= |t|
    ensures var ts, r := Toks(t, i), ParseArgs(t, i, c, argc);
            if Stop(ts) then r.Parsed? && r.cmd == c && i <= r.at <= |t| && Toks(t, r.at) == ts
            else if ts[0].Word? && argc + 1 < 10 then
              i < k <= |t| && ts == [ts[0]] + Toks(t, k) && r == Continue(t, k, AddArg(c, ts[0].w), argc + 1)
            else r.Panic?
  {
    Head(t, i);
    k := GetToken(t, Skip(t, i)).next;
    if Toks(t, i) == [] {
      assert k == |t|;
    } else if Toks(t, i)[0].Word? {
      WordStart(At(t, Skip(t, i)));
    }
    ArgsTurns(t, i, c, argc);
  }

  // --- Whatever the parser returns obeys the grammar ---

  lemma Regroup(a: seq<Tok>, b: seq<Tok>, c: seq<Tok>)
    ensures a + b + c == a + (b + c)
  {
  }

  lemma {:induction false} RedirsSound(t: Text, i: nat, c: Cmd, r: Parsed) returns (used: seq<Tok>)
    requires i <= |t| && r == ParseRedirs(t, i, c) && r.Parsed?
    ensures Toks(t, i) == used + Toks(t, r.at) && Wrapped(used, c, r.cmd)
    decreases |t| - i
  {
    var ts := Toks(t, i);
    var k, d := RedirsTurn(t, i, c);
    if ts != [] && IsRedir(ts[0]) {
      var more := RedirsSound(t, k, d, r);
      var first := [ts[0], Word(d.file)];
      WrappedOne(ts[0], d.file, d.mode, d.fd, c);
      WrappedMore(first, more, c, d, r.cmd);
      used := first + more;
      Regroup(first, more, Toks(t, r.at));
    } else {
      used := [];
      SkipIdle(t, i);
    }
  }

  /** The redirections behind a word. */
  lemma WordSound(t: Text, k: nat, p: seq<Tok>, d: Cmd, r: Parsed) returns (used: seq<Tok>)
    requires k <= |t| && Simple(p, d) && r == ParseRedirs(t, k, d) && r.Parsed?
    ensures Toks(t, k) == used + Toks(t, r.at) && Core(r.cmd) == Core(d) && Simple(p + used, r.cmd)
  {
    used := RedirsSound(t, k, d, r);
    SimpleWrapped(p, used, d, r.cmd);
  }

  /** One argument with the redirections behind it. */
  lemma ArgSound(t: Text, i: nat, p: seq<Tok>, c: Cmd, argc: nat, r: Parsed)
    returns (used: seq<Tok>, q: nat, e: Cmd)
    requires i <= |t| && r == ParseArgs(t, i, c, argc) && r.Parsed? && !Stop(Toks(t, i))
    requires Simple(p, c) && Core(c).Exec? && |Core(c).args| == argc
    ensures i < q <= |t| && Toks(t, i) == used + Toks(t, q) && Simple(p + used, e)
    ensures Core(e).Exec? && |Core(e).args| == argc + 1 < 10 && r == ParseArgs(t, q, e, argc + 1)
  {
    var tok := Toks(t, i)[0];
    var k := ArgsTurnToks(t, i, c, argc);
    var d := AddArg(c, tok.w);
    SimpleWord(p, c, tok.w);
    var s := ParseRedirs(t, k, d);
    q, e := s.at, s.cmd;
    var more := WordSound(t, k, p + [tok], d, s);
    used := [tok] + more;
    Regroup([tok], more, Toks(t, q));
    Regroup(p, [tok], more);
  }

  lemma {:induction false} ArgsSound(t: Text, i: nat, p: seq<Tok>, c: Cmd, argc: nat, r: Parsed)
    returns (used: seq<Tok>)
    requires i <= |t| && r == ParseArgs(t, i, c, argc) && r.Parsed?
    requires Simple(p, c) && Core(c).Exec? && |Core(c).args| == argc < 10
    ensures Toks(t, i) == used + Toks(t, r.at) && Simple(p + used, r.cmd)
    ensures Core(r.cmd).Exec? && |Core(r.cmd).args| < 10
    decreases |t| - i
  {
    if Stop(Toks(t, i)) {
      var k := ArgsTurnToks(t, i, c, argc);
      used := [];
      assert p + [] == p;
    } else {
      var first, q, e := ArgSound(t, i, p, c, argc, r);
      var more := ArgsSound(t, q, p + first, e, argc + 1, r);
      used := first + more;
      Regroup(first, more, Toks(t, r.at));
      Regroup(p, first, more);
    }
  }

  /** A command without parentheses. */
  lemma SimpleSound(t: Text, i: nat, r: Parsed) returns (used: seq<Tok>)
    requires i <= |t| && At(t, Skip(t, i)) != '(' && r == ParseExec(t, i) && r.Parsed?
    ensures Toks(t, i) == used + Toks(t, r.at) && IsExec(used, r.cmd)
  {
    var j := Skip(t, i);
    SkipIdle(t, i);
    var s := ParseRedirs(t, j, Exec([]));
    var first := WordSound(t, j, [], Exec([]), s);
    assert [] + first == first;
    var more := ArgsSound(t, s.at, first, s.cmd, 0, r);
    used := first + more;
    Regroup(first, more, Toks(t, r.at));
  }

  /** The symbol peek sees is the first token. */
  lemma Peeked(t: Text, i: nat, c: char)
    requires i <= |t| && At(t, Skip(t, i)) == c && IsSingle(c)
    ensures var next := GetToken(t, Skip(t, i)).next; i < next <= |t| && Toks(t, i) == [Mark(c)] + Toks(t, next)
  {
    Head(t, i);
    if Toks(t, i)[0].Word? {
      assert false;
    }
  }

  /** What parseexec makes of a block, by what parseline returned for its inside. */
  lemma BlockResult(t: Text, i: nat)
    requires i <= |t| && At(t, Skip(t, i)) == '('
    ensures var l := ParseLine(t, GetToken(t, Skip(t, i)).next);
            ParseExec(t, i) ==
            if l.Panic? then l
            else if At(t, Skip(t, l.at)) != ')' then Panic(MissingParen)
            else ParseRedirs(t, GetToken(t, Skip(t, l.at)).next, l.cmd)
  {
  }

  /** A block, once its line is known to obey the grammar. */
  lemma BlockSound(t: Text, i: nat, l: Parsed, line: seq<Tok>, r: Parsed) returns (used: seq<Tok>)
    requires i <= |t| && At(t, Skip(t, i)) == '(' && r == ParseExec(t, i) && r.Parsed?
    requires var from := GetToken(t, Skip(t, i)).next;
             l == ParseLine(t, from) && l.Parsed? && Toks(t, from) == line + Toks(t, l.at) && IsLine(line, l.cmd)
    ensures Toks(t, i) == used + Toks(t, r.at) && IsExec(used, r.cmd)
  {
    BlockResult(t, i);
    Peeked(t, i, '(');
    Peeked(t, l.at, ')');
    var redirs := RedirsSound(t, GetToken(t, Skip(t, l.at)).next, l.cmd, r);
    used := BlockToks(line, redirs, l.cmd, r.cmd);
    Regroup4([Mark('(')], line, [Mark(')')], redirs, Toks(t, r.at));
  }

  lemma Regroup3(a: seq<Tok>, b: seq<Tok>, c: seq<Tok>, d: seq<Tok>)
    ensures a + (b + (c + d)) == a + b + c + d
  {
  }

  lemma Regroup4(a: seq<Tok>, b: seq<Tok>, c: seq<Tok>, d: seq<Tok>, e: seq<Tok>)
    ensures a + (b + (c + (d + e))) == a + b + c + d + e
  {
  }

  lemma BlockToks(line: seq<Tok>, redirs: seq<Tok>, d: Cmd, c: Cmd) returns (all: seq<Tok>)
    requires IsLine(line, d) && Wrapped(redirs, d, c)
    ensures all == [Mark('(')] + line + [Mark(')')] + redirs && IsExec(all, c)
  {
    all := [Mark('(')] + line + [Mark(')')] + redirs;
    var m := |line| + 1;
    assert all[1..m] == line && all[m + 1..] == redirs;
    assert IsBlock(all, m, d, c);
  }

  lemma {:induction false} ExecSound(t: Text, i: nat, r: Parsed) returns (used: seq<Tok>)
    requires i <= |t| && r == ParseExec(t, i) && r.Parsed?
    ensures Toks(t, i) == used + Toks(t, r.at) && IsExec(used, r.cmd)
    decreases |t| - i, 2
  {
    if At(t, Skip(t, i)) == '(' {
      BlockResult(t, i);
      Peeked(t, i, '(');
      var from := GetToken(t, Skip(t, i)).next;
      var l := ParseLine(t, from);
      var line := LineSound(t, from, l);
      used := BlockSound(t, i, l, line, r);
    } else {
      used := SimpleSound(t, i, r);
    }
  }

  /** A separator between two parts. */
  lemma Joint(a: seq<Tok>, sep: Tok, b: seq<Tok>)
    ensures var all := a + [sep] + b;
            |a| < |all| && all[|a|] == sep && all[..|a|] == a && all[|a| + 1..] == b
  {
  }

  lemma {:induction false} PipeSound(t: Text, i: nat, r: Parsed) returns (used: seq<Tok>)
    requires i <= |t| && r == ParsePipe(t, i) && r.Parsed?
    ensures Toks(t, i) == used + Toks(t, r.at) && IsPipe(used, r.cmd)
    decreases |t| - i, 3
  {
    var l := ParseExec(t, i);
    var left := ExecSound(t, i, l);
    var j := Skip(t, l.at);
    if At(t, j) == '|' {
      Peeked(t, l.at, '|');
      var s := ParsePipe(t, GetToken(t, j).next);
      var right := PipeSound(t, GetToken(t, j).next, s);
      used := left + [Mark('|')] + right;
      Joint(left, Mark('|'), right);
      Regroup3(left, [Mark('|')], right, Toks(t, r.at));
    } else {
      used := left;
      SkipIdle(t, l.at);
    }
  }

  lemma {:induction false} TailSound(t: Text, i: nat, p: seq<Tok>, c: Cmd, r: Parsed) returns (used: seq<Tok>)
    requires i <= |t| && r == ParseTail(t, i, c) && r.Parsed? && IsBack(p, c)
    ensures Toks(t, i) == used + Toks(t, r.at) && IsLine(p + used, r.cmd)
    decreases |t| - i, 0
  {
    var j := Skip(t, i);
    if At(t, j) == '&' {
      Peeked(t, i, '&');
      Joint(p, Mark('&'), []);
      assert IsBack(p + [Mark('&')], Back(c)) by {
        assert (p + [Mark('&')])[..|p|] == p;
      }
      var more := TailSound(t, GetToken(t, j).next, p + [Mark('&')], Back(c), r);
      used := [Mark('&')] + more;
      Regroup([Mark('&')], more, Toks(t, r.at));
      Regroup(p, [Mark('&')], more);
    } else if At(t, j) == ';' {
      Peeked(t, i, ';');
      var s := ParseLine(t, GetToken(t, j).next);
      var right := LineSound(t, GetToken(t, j).next, s);
      used := [Mark(';')] + right;
      Joint(p, Mark(';'), right);
      Regroup([Mark(';')], right, Toks(t, r.at));
      Regroup(p, [Mark(';')], right);
    } else {
      used := [];
      SkipIdle(t, i);
      assert p + [] == p;
    }
  }

  lemma {:induction false} LineSound(t: Text, i: nat, r: Parsed) returns (used: seq<Tok>)
    requires i <= |t| && r == ParseLine(t, i) && r.Parsed?
    ensures Toks(t, i) == used + Toks(t, r.at) && IsLine(used, r.cmd)
    decreases |t| - i, 4
  {
    var l := ParsePipe(t, i);
    var first := PipeSound(t, i, l);
    var more := TailSound(t, l.at, first, l.cmd, r);
    used := first + more;
    Regroup(first, more, Toks(t, r.at));
  }

  // --- Whatever obeys the grammar is what the parser returns ---

  lemma First(a: seq<Tok>, b: seq<Tok>)
    requires a != []
    ensures a + b != [] && (a + b)[0] == a[0] && (a + b)[1..] == a[1..] + b
    ensures |a| >= 2 ==> |a + b| >= 2 && (a + b)[1] == a[1] && (a + b)[2..] == a[2..] + b
  {
  }

  lemma {:induction false} RedirsComplete(t: Text, i: nat, ts: seq<Tok>, rest: seq<Tok>, d: Cmd, c: Cmd)
    returns (k: nat)
    requires i <= |t| && Toks(t, i) == ts + rest && Wrapped(ts, d, c) && (rest == [] || !IsRedir(rest[0]))
    ensures k <= |t| && ParseRedirs(t, i, d) == Parsed(c, k) && Toks(t, k) == rest
    decreases |ts|
  {
    var next, e := RedirsTurn(t, i, d);
    if ts == [] {
      assert ts + rest == rest;
      k := Skip(t, i);
      SkipIdle(t, i);
    } else {
      First(ts, rest);
      var mode, fd := WrappedFirst(ts, d, c);
      assert ([ts[0], Word(e.file)] + Toks(t, next))[2..] == Toks(t, next);
      assert e == Redir(d, ts[1].w, mode, fd);
      k := RedirsComplete(t, next, ts[2..], rest, e, c);
    }
  }

  /** The rest of a simple command, behind the tokens `p` read so far. */
  lemma {:induction false} SimpleComplete(
    t: Text, i: nat, p: seq<Tok>, d: Cmd, argc: nat, ts: seq<Tok>, rest: seq<Tok>, c: Cmd)
    returns (k: nat)
    requires i <= |t| && Toks(t, i) == ts + rest && Stop(rest) && Simple(p, d) && Simple(p + ts, c)
    requires Core(d).Exec? && |Core(d).args| == argc && Core(c).Exec? && |Core(c).args| < 10
    ensures k <= |t| && Continue(t, i, d, argc) == Parsed(c, k) && Toks(t, k) == rest
    decreases |ts|
  {
    if ts == [] {
      k := SimpleEnd(t, i, p, d, argc, rest, c);
    } else if ts[0].Word? {
      k := ArgComplete(t, i, p, d, argc, ts, rest, c);
    } else {
      SimpleMarks(p + ts, c, |p|);
      First(ts, rest);
      var next, e := RedirsTurn(t, i, d);
      assert ([ts[0], Word(e.file)] + Toks(t, next))[2..] == Toks(t, next);
      var first := [ts[0], Word(e.file)];
      assert ts == first + ts[2..];
      WrappedOne(ts[0], e.file, e.mode, e.fd, d);
      SimpleWrapped(p, first, d, e);
      Regroup(p, first, ts[2..]);
      k := SimpleComplete(t, next, p + first, e, argc, ts[2..], rest, c);
    }
  }

  lemma SimpleEnd(t: Text, i: nat, p: seq<Tok>, d: Cmd, argc: nat, rest: seq<Tok>, c: Cmd) returns (k: nat)
    requires i <= |t| && Toks(t, i) == [] + rest && Stop(rest) && Simple(p, d) && Simple(p + [], c)
    ensures k <= |t| && Continue(t, i, d, argc) == Parsed(c, k) && Toks(t, k) == rest
  {
    assert p + [] == p && [] + rest == rest;
    SimpleUnique(p, d, c);
    var next, e := RedirsTurn(t, i, d);
    SkipIdle(t, i);
    var m := ArgsTurnToks(t, Skip(t, i), d, argc);
    k := ParseArgs(t, Skip(t, i), d, argc).at;
  }

  /** A word comes next. */
  lemma ContinueWord(t: Text, i: nat, d: Cmd, argc: nat) returns (next: nat)
    requires i <= |t| && Toks(t, i) != [] && Toks(t, i)[0].Word? && argc + 1 < 10
    ensures next <= |t| && Toks(t, next) == Toks(t, i)[1..]
    ensures Continue(t, i, d, argc) == Continue(t, next, AddArg(d, Toks(t, i)[0].w), argc + 1)
  {
    var none, same := RedirsTurn(t, i, d);
    SkipIdle(t, i);
    next := ArgsTurnToks(t, Skip(t, i), d, argc);
  }

  lemma {:induction false} ArgComplete(
    t: Text, i: nat, p: seq<Tok>, d: Cmd, argc: nat, ts: seq<Tok>, rest: seq<Tok>, c: Cmd)
    returns (k: nat)
    requires i <= |t| && Toks(t, i) == ts + rest && Stop(rest) && Simple(p, d) && Simple(p + ts, c)
    requires Core(d).Exec? && |Core(d).args| == argc && Core(c).Exec? && |Core(c).args| < 10
    requires ts != [] && ts[0].Word?
    ensures k <= |t| && Continue(t, i, d, argc) == Parsed(c, k) && Toks(t, k) == rest
    decreases |ts|, 0
  {
    var w := ts[0].w;
    First(ts, rest);
    SimpleWord(p, d, w);
    assert ts == [ts[0]] + ts[1..];
    Regroup(p, [ts[0]], ts[1..]);
    SimpleMore(p + [ts[0]], ts[1..], AddArg(d, w), c);
    var next := ContinueWord(t, i, d, argc);
    k := SimpleComplete(t, next, p + [ts[0]], AddArg(d, w), argc + 1, ts[1..], rest, c);
  }

  /** What may follow a line: nothing, or the parenthesis that closes its block. */
  predicate Closed(ts: seq<Tok>) {
    ts == [] || ts[0] == Mark(')')
  }

  /** The symbol that comes first is the one peek sees. */
  lemma SymbolNext(t: Text, i: nat, c: char, rest: seq<Tok>)
    requires i <= |t| && Toks(t, i) == [Mark(c)] + rest && IsSingle(c)
    ensures At(t, Skip(t, i)) == c && GetToken(t, Skip(t, i)).next <= |t|
    ensures Toks(t, GetToken(t, Skip(t, i)).next) == rest
  {
    Head(t, i);
    assert ([Mark(c)] + rest)[1..] == rest;
  }

  /** peek answers no for every symbol but the one that comes first. */
  lemma SymbolNot(t: Text, i: nat, c: char)
    requires i <= |t| && IsSingle(c) && (Toks(t, i) == [] || Toks(t, i)[0] != Mark(c))
    ensures At(t, Skip(t, i)) != c
  {
    if At(t, Skip(t, i)) == c {
      Peeked(t, i, c);
    }
  }

  lemma PlainComplete(t: Text, i: nat, ts: seq<Tok>, rest: seq<Tok>, c: Cmd) returns (k: nat)
    requires i <= |t| && Toks(t, i) == ts + rest && Stop(rest) && Simple(ts, c) && Core(c).Exec? && |Core(c).args| < 10
    ensures k <= |t| && ParseExec(t, i) == Parsed(c, k) && Toks(t, k) == rest
  {
    if ts == [] {
      assert ts + rest == rest;
    } else {
      First(ts, rest);
      if !ts[0].Word? {
        SimpleMarks(ts, c, 0);
      }
    }
    SymbolNot(t, i, '(');
    SkipIdle(t, i);
    assert [] + ts == ts;
    k := SimpleComplete(t, Skip(t, i), [], Exec([]), 0, ts, rest, c);
  }

  lemma BlockComplete(t: Text, i: nat, line: seq<Tok>, redirs: seq<Tok>, rest: seq<Tok>, d: Cmd, at: nat, c: Cmd)
    returns (k: nat)
    requires i <= |t| && At(t, Skip(t, i)) == '(' && at <= |t|
    requires ParseLine(t, GetToken(t, Skip(t, i)).next) == Parsed(d, at)
    requires Toks(t, at) == [Mark(')')] + (redirs + rest) && Wrapped(redirs, d, c) && Stop(rest)
    ensures k <= |t| && ParseExec(t, i) == Parsed(c, k) && Toks(t, k) == rest
  {
    SymbolNext(t, at, ')', redirs + rest);
    BlockResult(t, i);
    k := RedirsComplete(t, GetToken(t, Skip(t, at)).next, redirs, rest, d, c);
  }

  lemma {:induction false} ExecComplete(t: Text, i: nat, ts: seq<Tok>, rest: seq<Tok>, c: Cmd) returns (k: nat)
    requires i <= |t| && Toks(t, i) == ts + rest && Stop(rest) && IsExec(ts, c)
    ensures k <= |t| && ParseExec(t, i) == Parsed(c, k) && Toks(t, k) == rest
    decreases |ts|, 1
  {
    if Simple(ts, c) && Core(c).Exec? && |Core(c).args| < 10 {
      k := PlainComplete(t, i, ts, rest, c);
    } else {
      var m: nat, d :| IsBlock(ts, m, d, c);
      var line, redirs := ts[1..m], ts[m + 1..];
      BlockApart(ts, m, rest);
      SymbolNext(t, i, '(', line + ([Mark(')')] + (redirs + rest)));
      var at := LineComplete(t, GetToken(t, Skip(t, i)).next, line, [Mark(')')] + (redirs + rest), d);
      k := BlockComplete(t, i, line, redirs, rest, d, at, c);
    }
  }

  lemma BlockApart(ts: seq<Tok>, m: nat, rest: seq<Tok>)
    requires 1 <= m < |ts| && ts[0] == Mark('(') && ts[m] == Mark(')')
    ensures ts + rest == [Mark('(')] + (ts[1..m] + ([Mark(')')] + (ts[m + 1..] + rest)))
  {
    assert ts == [Mark('(')] + (ts[1..m] + ([Mark(')')] + ts[m + 1..]));
  }

  lemma Apiece(ts: seq<Tok>, m: nat, sep: Tok, rest: seq<Tok>)
    requires m < |ts| && ts[m] == sep
    ensures ts + rest == ts[..m] + ([sep] + (ts[m + 1..] + rest))
  {
    assert ts == ts[..m] + ([sep] + ts[m + 1..]);
  }

  lemma {:induction false} PipeComplete(t: Text, i: nat, ts: seq<Tok>, rest: seq<Tok>, c: Cmd) returns (k: nat)
    requires i <= |t| && Toks(t, i) == ts + rest && Stop(rest) && (rest == [] || rest[0] != Mark('|')) && IsPipe(ts, c)
    ensures k <= |t| && ParsePipe(t, i) == Parsed(c, k) && Toks(t, k) == rest
    decreases |ts|, 2
  {
    if IsExec(ts, c) {
      var at := ExecComplete(t, i, ts, rest, c);
      SymbolNot(t, at, '|');
      SkipIdle(t, at);
      k := Skip(t, at);
    } else {
      var m :| 0 <= m < |ts| && ts[m] == Mark('|') && IsExec(ts[..m], c.left) && IsPipe(ts[m + 1..], c.right);
      Apiece(ts, m, Mark('|'), rest);
      var at := ExecComplete(t, i, ts[..m], [Mark('|')] + (ts[m + 1..] + rest), c.left);
      SymbolNext(t, at, '|', ts[m + 1..] + rest);
      k := PipeComplete(t, GetToken(t, Skip(t, at)).next, ts[m + 1..], rest, c.right);
    }
  }

  lemma {:induction false} BackComplete(t: Text, i: nat, ts: seq<Tok>, rest: seq<Tok>, c: Cmd) returns (k: nat)
    requires i <= |t| && Toks(t, i) == ts + rest && Stop(rest) && (rest == [] || rest[0] != Mark('|')) && IsBack(ts, c)
    ensures k <= |t| && ParseLine(t, i) == ParseTail(t, k, c) && Toks(t, k) == rest
    decreases |ts|, 3
  {
    if IsPipe(ts, c) {
      k := PipeComplete(t, i, ts, rest, c);
    } else {
      var n := |ts| - 1;
      Apiece(ts, n, Mark('&'), rest);
      assert ts[n + 1..] + rest == rest;
      var at := BackComplete(t, i, ts[..n], [Mark('&')] + rest, c.cmd);
      SymbolNext(t, at, '&', rest);
      k := GetToken(t, Skip(t, at)).next;
    }
  }

  lemma {:induction false} LineComplete(t: Text, i: nat, ts: seq<Tok>, rest: seq<Tok>, c: Cmd) returns (k: nat)
    requires i <= |t| && Toks(t, i) == ts + rest && Closed(rest) && IsLine(ts, c)
    ensures k <= |t| && ParseLine(t, i) == Parsed(c, k) && Toks(t, k) == rest
    decreases |ts|, 4
  {
    if IsBack(ts, c) {
      var at := BackComplete(t, i, ts, rest, c);
      SymbolNot(t, at, '&');
      SymbolNot(t, at, ';');
      SkipIdle(t, at);
      k := Skip(t, at);
    } else {
      var m :| 0 <= m < |ts| && ts[m] == Mark(';') && IsBack(ts[..m], c.left) && IsLine(ts[m + 1..], c.right);
      Apiece(ts, m, Mark(';'), rest);
      var at := BackComplete(t, i, ts[..m], [Mark(';')] + (ts[m + 1..] + rest), c.left);
      SymbolNext(t, at, ';', ts[m + 1..] + rest);
      k := LineComplete(t, GetToken(t, Skip(t, at)).next, ts[m + 1..], rest, c.right);
    }
  }

  // --- Main results ---

  /** parsecmd returns a tree exactly when the grammar derives it from the tokens of the line; all of them count. */
  lemma ParseExactly(t: Text, c: Cmd)
    ensures ParseCmd(t) == Parsed(c, |t|) <==> IsLine(Toks(t, 0), c)
  {
    var all := Toks(t, 0);
    var r := ParseLine(t, 0);
    if ParseCmd(t) == Parsed(c, |t|) {
      var used := LineSound(t, 0, r);
      Head(t, r.at);
      assert used + [] == used;
    }
    if IsLine(all, c) {
      assert all + [] == all;
      var k := LineComplete(t, 0, all, [], c);
      Head(t, k);
    }
  }

  /** It panics, over words too many, a file or a parenthesis missing, or leftovers, exactly when there is none. */
  lemma PanicsExactly(t: Text)
    ensures ParseCmd(t).Panic? <==> forall c :: !IsLine(Toks(t, 0), c)
  {
    forall c
      ensures ParseCmd(t) == Parsed(c, |t|) <==> IsLine(Toks(t, 0), c)
    {
      ParseExactly(t, c);
    }
    if ParseCmd(t).Parsed? {
      assert IsLine(Toks(t, 0), ParseCmd(t).cmd);
    }
  }

  /** The same in terms of characters: the lines read as `c` are the derivations of `c`, laid out with any blanks. */
  lemma LinesOf(t: Text, c: Cmd)
    ensures ParseCmd(t) == Parsed(c, |t|) <==>
            exists ts, gaps :: Legal(gaps, ts) && t == Laid(gaps, ts) && IsLine(ts, c)
  {
    ParseExactly(t, c);
    if IsLine(Toks(t, 0), c) {
      ToksExactly(t, Toks(t, 0));
    }
    if ts, gaps :| Legal(gaps, ts) && t == Laid(gaps, ts) && IsLine(ts, c) {
      ToksExactly(t, ts);
    }
  }

  function Printed(c: Cmd): Text
    requires Good(c)
  {
    LineText(c);
    PrintLine(c)
  }

  /** A printed tree with any blanks before, between and after its tokens is read as the tree, nothing left over. */
  lemma SpacedPrint(c: Cmd, t: Text, gaps: seq<string>)
    requires Good(c) && Legal(gaps, Toks(Printed(c), 0)) && t == Laid(gaps, Toks(Printed(c), 0))
    ensures ParseCmd(t) == Parsed(c, |t|)
  {
    ParsePrint(c);
    ParseExactly(Printed(c), c);
    ToksExactly(t, Toks(Printed(c), 0));
    ParseExactly(t, c);
  }
}
