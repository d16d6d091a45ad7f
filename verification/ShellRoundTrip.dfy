/** Parsing undoes printing: every tree the parser can build is read back from its printed form, and only those. */
module ShellRoundTrip {
  import opened ShellSyntax

  /** `s` stands in the text at position `i`. */
  predicate Has(t: Text, i: nat, s: string) {
    i + |s| <= |t| && forall k | 0 <= k < |s| :: s[k] == t[i + k]
  }

  lemma HasParts(t: Text, i: nat, a: string, b: string)
    requires Has(t, i, a + b)
    ensures Has(t, i, a) && Has(t, i + |a|, b)
  {
    var s := a + b;
    forall k | 0 <= k < |a|
      ensures a[k] == t[i + k]
    {
      assert a[k] == s[k];
    }
    forall k | 0 <= k < |b|
      ensures b[k] == t[i + |a| + k]
    {
      assert b[k] == s[|a| + k];
    }
  }

  lemma HasOne(t: Text, i: nat, a: string)
    requires Has(t, i, a) && |a| == 1
    ensures At(t, i) == a[0]
  {
    assert a[0] == t[i + 0];
  }

  lemma HasSplit(t: Text, i: nat, a: string, sep: string, b: string)
    requires Has(t, i, a + sep + b) && |sep| == 1
    ensures Has(t, i, a) && i + |a| < |t| && t[i + |a|] == sep[0] && Has(t, i + |a| + 1, b)
    ensures |a + sep + b| == |a| + 1 + |b|
  {
    HasParts(t, i, a + sep, b);
    HasParts(t, i, a, sep);
    HasOne(t, i + |a|, sep);
  }

  /** The characters that may follow a printed command. */
  predicate Stops(c: char) {
    c == '\0' || EndsExec(c)
  }

  lemma SkipNone(t: Text, i: nat)
    requires i <= |t| && !IsSpace(At(t, i))
    ensures Skip(t, i) == i
  {
  }

  lemma SkipBlank(t: Text, i: nat)
    requires i < |t| && IsSpace(t[i])
    ensures Skip(t, i) == Skip(t, i + 1)
  {
  }

  lemma SkipTwice(t: Text, i: nat)
    requires i <= |t|
    ensures Skip(t, Skip(t, i)) == Skip(t, i)
  {
  }

  /** A word standing before a character that is no part of one is read whole. */
  lemma {:induction false} WordEndAt(t: Text, i: nat, e: nat)
    requires i <= e <= |t| && !IsWordChar(At(t, e))
    requires forall k | i <= k < e :: IsWordChar(t[k])
    ensures WordEnd(t, i) == e
    decreases e - i
  {
    if i < e {
      WordEndAt(t, i + 1, e);
    }
  }

  lemma WordToken(t: Text, i: nat, w: string)
    requires GoodWord(w) && Has(t, i, w) && At(t, i + |w|) == ' '
    ensures var r := GetToken(t, i);
            r.kind == 'a' && r.q == i && r.eq == i + |w| && t[r.q..r.eq] == w && r.next == Skip(t, i + |w|)
  {
    forall k | i <= k < i + |w|
      ensures IsWordChar(t[k])
    {
      assert w[k - i] == t[i + (k - i)];
    }
    assert t[i..i + |w|] == w;
    WordEndAt(t, i, i + |w|);
  }

  lemma SymbolToken(t: Text, i: nat)
    requires i < |t| && IsSingle(t[i])
    ensures GetToken(t, i) == Token(t[i], i, i + 1, Skip(t, i + 1))
  {
  }

  // --- Blanks before the cursor change nothing ---

  lemma RedirsSkip(t: Text, i: nat, c: Cmd)
    requires i <= |t|
    ensures ParseRedirs(t, Skip(t, i), c) == ParseRedirs(t, i, c)
  {
    SkipTwice(t, i);
  }

  lemma RedirsBlank(t: Text, e: nat, c: Cmd, after: nat)
    requires e < |t| && IsSpace(t[e]) && after == e + 1
    ensures ParseRedirs(t, Skip(t, e), c) == ParseRedirs(t, after, c)
  {
    SkipBlank(t, e);
    RedirsSkip(t, after, c);
  }

  lemma TailSkip(t: Text, i: nat, c: Cmd)
    requires i <= |t|
    ensures ParseTail(t, Skip(t, i), c) == ParseTail(t, i, c)
  {
    SkipTwice(t, i);
  }

  lemma ExecSkip(t: Text, i: nat)
    requires i <= |t|
    ensures ParseExec(t, Skip(t, i)) == ParseExec(t, i)
  {
    SkipTwice(t, i);
  }

  lemma PipeSkip(t: Text, i: nat)
    requires i <= |t|
    ensures ParsePipe(t, Skip(t, i)) == ParsePipe(t, i)
  {
    ExecSkip(t, i);
  }

  lemma LineSkip(t: Text, i: nat)
    requires i <= |t|
    ensures ParseLine(t, Skip(t, i)) == ParseLine(t, i)
  {
    PipeSkip(t, i);
  }

  // --- Reading redirections and words ---

  /** Redirections first, then the argument loop: how parseexec goes on after each word. */
  function Continue(t: Text, i: nat, c: Cmd, argc: nat): Parsed
    requires i <= |t|
  {
    match ParseRedirs(t, i, c)
    case Panic(e) => Panic(e)
    case Parsed(d, k) => ParseArgs(t, k, d, argc)
  }

  lemma RedirRead(t: Text, i: nat, c: Cmd, file: string, mode: nat, fd: nat, end: nat)
    requires GoodWord(file) && GoodMode(mode, fd) && Has(t, i, Op(mode) + file + " ") && end == i + |file| + 2
    ensures ParseRedirs(t, i, c) == ParseRedirs(t, end, Redir(c, file, mode, fd))
  {
    HasParts(t, i, Op(mode) + file, " ");
    HasParts(t, i, Op(mode), file);
    HasOne(t, i, Op(mode));
    HasOne(t, i + 1 + |file|, " ");
    assert file[0] == t[i + 1 + 0];
    SkipNone(t, i);
    SkipNone(t, i + 1);
    assert GetToken(t, i) == Token(t[i], i, i + 1, i + 1);
    WordToken(t, i + 1, file);
    RedirsBlank(t, i + 1 + |file|, Redir(c, file, mode, fd), end);
  }

  lemma RedirsParts(t: Text, i: nat, c: Cmd)
    requires c.Redir? && Has(t, i, Redirs(c))
    ensures Has(t, i, Redirs(c.cmd)) && Has(t, i + |Redirs(c.cmd)|, Op(c.mode) + c.file + " ")
    ensures |Redirs(c)| == |Redirs(c.cmd)| + |c.file| + 2
  {
    var last := Op(c.mode) + c.file + " ";
    assert Redirs(c) == Redirs(c.cmd) + last;
    HasParts(t, i, Redirs(c.cmd), last);
  }

  lemma {:induction false} RedirsRead(t: Text, i: nat, c: Cmd, end: nat)
    requires Good(c) && Has(t, i, Redirs(c)) && end == i + |Redirs(c)|
    ensures ParseRedirs(t, i, Core(c)) == ParseRedirs(t, end, c)
    decreases c
  {
    if c.Redir? {
      RedirsParts(t, i, c);
      var k := i + |Redirs(c.cmd)|;
      RedirsRead(t, i, c.cmd, k);
      RedirRead(t, k, c.cmd, c.file, c.mode, c.fd, end);
    }
  }

  /** One turn of the argument loop, case by case. */
  lemma ArgsTurns(t: Text, i: nat, c: Cmd, argc: nat)
    requires i <= |t|
    ensures var j := Skip(t, i);
            var tok := GetToken(t, j);
            ParseArgs(t, i, c, argc) ==
              if EndsExec(At(t, j)) then Parsed(c, j)
              else if tok.kind == '\0' then Parsed(c, tok.next)
              else if tok.kind != 'a' then Panic(Syntax)
              else if argc + 1 >= MAXARGS then Panic(TooManyArgs)
              else Continue(t, tok.next, AddArg(c, t[tok.q..tok.eq]), argc + 1)
  {
  }

  lemma ArgRead(t: Text, i: nat, c: Cmd, argc: nat, w: string, end: nat)
    requires GoodWord(w) && argc + 1 < MAXARGS && Has(t, i, w + " ") && end == i + |w| + 1
    ensures Continue(t, i, c, argc) == Continue(t, end, AddArg(c, w), argc + 1)
  {
    HasParts(t, i, w, " ");
    HasOne(t, i + |w|, " ");
    assert w[0] == t[i + 0];
    SkipNone(t, i);
    assert ParseRedirs(t, i, c) == Parsed(c, i);
    ArgToken(t, i, c, argc, w);
    RedirsBlank(t, i + |w|, AddArg(c, w), end);
  }

  /** An argument is taken off, and its redirections are looked for behind it. */
  lemma ArgToken(t: Text, i: nat, c: Cmd, argc: nat, w: string)
    requires GoodWord(w) && argc + 1 < MAXARGS && Has(t, i, w) && At(t, i + |w|) == ' ' && w[0] == At(t, i)
    ensures ParseArgs(t, i, c, argc) == Continue(t, Skip(t, i + |w|), AddArg(c, w), argc + 1)
  {
    SkipNone(t, i);
    WordToken(t, i, w);
  }

  lemma WordsParts(t: Text, i: nat, args: seq<string>, k: nat)
    requires k < |args| && Has(t, i, Words(args[k..]))
    ensures Has(t, i, args[k] + " ") && Has(t, i + |args[k]| + 1, Words(args[k + 1..]))
    ensures |Words(args[k..])| == |args[k]| + 1 + |Words(args[k + 1..])|
  {
    assert args[k..][1..] == args[k + 1..];
    HasParts(t, i, args[k] + " ", Words(args[k + 1..]));
  }

  lemma NextArg(t: Text, i: nat, args: seq<string>, k: nat, m: nat)
    requires k < |args| && k + 1 < MAXARGS && GoodWord(args[k]) && Has(t, i, args[k] + " ") && m == i + |args[k]| + 1
    ensures m <= |t| && Continue(t, i, Exec(args[..k]), k) == Continue(t, m, Exec(args[..k + 1]), k + 1)
  {
    assert args[..k] + [args[k]] == args[..k + 1];
    ArgRead(t, i, Exec(args[..k]), k, args[k], m);
  }

  lemma {:induction false} ArgsRead(t: Text, i: nat, args: seq<string>, k: nat, end: nat)
    requires Good(Exec(args)) && k <= |args| && Has(t, i, Words(args[k..])) && end == i + |Words(args[k..])|
    ensures Continue(t, i, Exec(args[..k]), k) == Continue(t, end, Exec(args), |args|)
    decreases |args| - k
  {
    if k == |args| {
      assert args[..k] == args;
    } else {
      var m := i + |args[k]| + 1;
      WordsParts(t, i, args, k);
      NextArg(t, i, args, k, m);
      ArgsRead(t, m, args, k + 1, end);
    }
  }

  /** A simple command ends at its follower. */
  lemma ArgsEnd(t: Text, e: nat, c: Cmd, argc: nat)
    requires e <= |t| && Stops(At(t, e))
    ensures ParseRedirs(t, e, c) == Parsed(c, e) && ParseArgs(t, e, c, argc) == Parsed(c, e)
  {
    SkipNone(t, e);
  }

  lemma {:induction false} RedirsFirst(c: Cmd)
    ensures |Redirs(c)| > 0 ==> Redirs(c)[0] == '<' || Redirs(c)[0] == '>'
    decreases c
  {
    if c.Redir? {
      RedirsFirst(c.cmd);
      if Redirs(c.cmd) == "" {
        assert Redirs(c)[0] == Op(c.mode)[0];
      } else {
        assert Redirs(c)[0] == Redirs(c.cmd)[0];
      }
    }
  }

  lemma SimpleFirst(t: Text, i: nat, c: Cmd, args: seq<string>)
    requires Good(Exec(args)) && Has(t, i, Words(args) + Redirs(c)) && Stops(At(t, i + |Words(args) + Redirs(c)|))
    ensures At(t, i) != '(' && !IsSpace(At(t, i))
  {
    var s := Words(args) + Redirs(c);
    RedirsFirst(c);
    if |s| > 0 {
      assert s[0] == t[i + 0];
      assert s[0] == if |args| > 0 then args[0][0] else Redirs(c)[0];
    }
  }

  lemma SimpleRead(t: Text, i: nat, c: Cmd, end: nat)
    requires Good(c) && Core(c).Exec? && Has(t, i, Words(Core(c).args) + Redirs(c))
    requires end == i + |Words(Core(c).args)| + |Redirs(c)| && Stops(At(t, end))
    ensures ParseExec(t, i) == Parsed(c, end)
  {
    var args := Core(c).args;
    var k := i + |Words(args)|;
    GoodCore(c);
    SimpleFirst(t, i, c, args);
    HasParts(t, i, Words(args), Redirs(c));
    assert args[..0] == [] && args[0..] == args;
    ArgsRead(t, i, args, 0, k);
    RedirsEnd(t, k, c, |args|, end);
    ExecStart(t, i);
  }

  lemma ExecStart(t: Text, i: nat)
    requires i <= |t| && At(t, i) != '(' && !IsSpace(At(t, i))
    ensures ParseExec(t, i) == Continue(t, i, Exec([]), 0)
  {
    SkipNone(t, i);
  }

  lemma RedirsEnd(t: Text, k: nat, c: Cmd, argc: nat, end: nat)
    requires Good(c) && Has(t, k, Redirs(c)) && end == k + |Redirs(c)| && Stops(At(t, end))
    ensures Continue(t, k, Core(c), argc) == Parsed(c, end)
  {
    RedirsRead(t, k, c, end);
    ArgsEnd(t, end, c, argc);
  }

  lemma {:induction false} GoodCore(c: Cmd)
    requires Good(c)
    ensures Good(Core(c))
    decreases c
  {
    if c.Redir? {
      GoodCore(c.cmd);
    }
  }

  // --- Reading operators ---

  lemma BlockParts(t: Text, i: nat, inner: string, redirs: string)
    requires Has(t, i, "(" + inner + ")" + redirs)
    ensures i + 1 + |inner| < |t| && t[i] == '(' && t[i + 1 + |inner|] == ')'
    ensures Has(t, i + 1, inner) && Has(t, i + 2 + |inner|, redirs)
    ensures |"(" + inner + ")" + redirs| == |inner| + 2 + |redirs|
  {
    HasSplit(t, i, "(" + inner, ")", redirs);
    HasParts(t, i, "(", inner);
    HasOne(t, i, "(");
  }

  lemma BlockRead(t: Text, i: nat, c: Cmd, m: nat, end: nat)
    requires Good(c) && i + 1 <= m < |t| && t[i] == '(' && t[m] == ')'
    requires Has(t, m + 1, Redirs(c)) && end == m + 1 + |Redirs(c)| && Stops(At(t, end))
    requires ParseLine(t, i + 1) == Parsed(Core(c), m)
    ensures ParseExec(t, i) == Parsed(c, end)
  {
    BlockEnd(t, m, c, end);
    BlockStart(t, i, Core(c), m);
    SkipNone(t, i);
  }

  lemma BlockStart(t: Text, i: nat, c: Cmd, m: nat)
    requires i + 1 <= m < |t| && t[i] == '(' && t[m] == ')' && Skip(t, m) == m
    requires ParseLine(t, i + 1) == Parsed(c, m)
    ensures ParseBlock(t, i) == ParseRedirs(t, GetToken(t, m).next, c)
  {
    SymbolToken(t, i);
    LineSkip(t, i + 1);
    assert ParseLine(t, GetToken(t, i).next) == Parsed(c, m);
  }

  lemma BlockEnd(t: Text, m: nat, c: Cmd, end: nat)
    requires Good(c) && m < |t| && t[m] == ')'
    requires Has(t, m + 1, Redirs(c)) && end == m + 1 + |Redirs(c)| && Stops(At(t, end))
    ensures Skip(t, m) == m && ParseRedirs(t, GetToken(t, m).next, Core(c)) == Parsed(c, end)
  {
    SkipNone(t, m);
    SymbolToken(t, m);
    RedirsSkip(t, m + 1, Core(c));
    RedirsRead(t, m + 1, c, end);
    ArgsEnd(t, end, c, 0);
  }

  lemma PipeJoin(t: Text, i: nat, k: nat, l: Cmd, r: Cmd, m: nat)
    requires i <= k < |t| && k + 1 <= m <= |t| && t[k] == '|'
    requires ParseExec(t, i) == Parsed(l, k) && ParsePipe(t, k + 1) == Parsed(r, m)
    ensures ParsePipe(t, i) == Parsed(Pipe(l, r), m)
  {
    SkipNone(t, k);
    SymbolToken(t, k);
    PipeSkip(t, k + 1);
  }

  lemma PipeAlone(t: Text, i: nat, k: nat, c: Cmd)
    requires i <= k <= |t| && Stops(At(t, k)) && At(t, k) != '|' && ParseExec(t, i) == Parsed(c, k)
    ensures ParsePipe(t, i) == Parsed(c, k)
  {
    SkipNone(t, k);
  }

  lemma TailBack(t: Text, k: nat, c: Cmd)
    requires k < |t| && t[k] == '&'
    ensures ParseTail(t, k, c) == ParseTail(t, k + 1, Back(c))
  {
    SkipNone(t, k);
    SymbolToken(t, k);
    TailSkip(t, k + 1, Back(c));
  }

  lemma TailList(t: Text, k: nat, l: Cmd, r: Cmd, m: nat)
    requires k < |t| && t[k] == ';' && ParseLine(t, k + 1) == Parsed(r, m)
    ensures ParseTail(t, k, l) == Parsed(List(l, r), m)
  {
    SkipNone(t, k);
    SymbolToken(t, k);
    LineSkip(t, k + 1);
  }

  lemma TailEnd(t: Text, k: nat, c: Cmd)
    requires k <= |t| && (At(t, k) == ')' || At(t, k) == '\0')
    ensures ParseTail(t, k, c) == Parsed(c, k)
  {
    SkipNone(t, k);
  }

  /** The follower of a part printed on its own, of one that '&' or ';' may follow, and of one in a pipeline. */
  predicate LineEnds(c: char) {
    c == '\0' || c == ')'
  }

  predicate BackEnds(c: char) {
    LineEnds(c) || c == ';' || c == '&'
  }

  lemma {:induction false} NodeRead(t: Text, i: nat, c: Cmd, end: nat)
    requires Good(c) && !c.Exec? && !c.Redir? && Has(t, i, PrintNode(c))
    requires end == i + |PrintNode(c)| && LineEnds(At(t, end))
    ensures ParseLine(t, i) == Parsed(c, end)
    decreases c, 0, 1
  {
    match c
    case List(l, r) => ListRead(t, i, l, r, end);
    case Back(d) =>
      BackPart(t, i, d);
      BackRead(t, i, d, end - 1);
      BackAlone(t, i, end - 1, d);
    case Pipe(l, r) => PipedRead(t, i, l, r, end);
  }

  lemma {:induction false} ListRead(t: Text, i: nat, l: Cmd, r: Cmd, end: nat)
    requires Good(l) && Good(r) && Has(t, i, PrintBack(l) + ";" + PrintLine(r))
    requires end == i + |PrintBack(l)| + 1 + |PrintLine(r)| && LineEnds(At(t, end))
    ensures ParseLine(t, i) == Parsed(List(l, r), end)
    decreases List(l, r), 0, 0
  {
    var k := i + |PrintBack(l)|;
    HasSplit(t, i, PrintBack(l), ";", PrintLine(r));
    BackRead(t, i, l, k);
    LineRead(t, k + 1, r, end);
    ListLine(t, i, k, l, r, end);
  }

  lemma {:induction false} PipedRead(t: Text, i: nat, l: Cmd, r: Cmd, end: nat)
    requires Good(l) && Good(r) && Has(t, i, PrintExec(l) + "|" + PrintPipe(r))
    requires end == i + |PrintExec(l)| + 1 + |PrintPipe(r)| && LineEnds(At(t, end))
    ensures ParseLine(t, i) == Parsed(Pipe(l, r), end)
    decreases Pipe(l, r), 0, 0
  {
    var k := i + |PrintExec(l)|;
    HasSplit(t, i, PrintExec(l), "|", PrintPipe(r));
    ExecRead(t, i, l, k);
    PipeRead(t, k + 1, r, end);
    PipeLine(t, i, k, l, r, end);
  }

  lemma ListLine(t: Text, i: nat, k: nat, l: Cmd, r: Cmd, end: nat)
    requires i <= k < |t| && t[k] == ';' && ParseLine(t, i) == ParseTail(t, k, l) &&
             ParseLine(t, k + 1) == Parsed(r, end)
    ensures ParseLine(t, i) == Parsed(List(l, r), end)
  {
    TailList(t, k, l, r, end);
  }

  lemma BackAlone(t: Text, i: nat, k: nat, d: Cmd)
    requires i <= k < |t| && t[k] == '&' && LineEnds(At(t, k + 1)) && ParseLine(t, i) == ParseTail(t, k, d)
    ensures ParseLine(t, i) == Parsed(Back(d), k + 1)
  {
    TailBack(t, k, d);
    TailEnd(t, k + 1, Back(d));
  }

  lemma PipeLine(t: Text, i: nat, k: nat, l: Cmd, r: Cmd, end: nat)
    requires i <= k < |t| && k + 1 <= end <= |t| && t[k] == '|' && LineEnds(At(t, end))
    requires ParseExec(t, i) == Parsed(l, k) && ParsePipe(t, k + 1) == Parsed(r, end)
    ensures ParseLine(t, i) == Parsed(Pipe(l, r), end)
  {
    PipeJoin(t, i, k, l, r, end);
    TailEnd(t, end, Pipe(l, r));
  }

  lemma BackPart(t: Text, i: nat, d: Cmd)
    requires Has(t, i, PrintNode(Back(d)))
    ensures Has(t, i, PrintBack(d)) && |PrintNode(Back(d))| == |PrintBack(d)| + 1
    ensures i + |PrintBack(d)| < |t| && t[i + |PrintBack(d)|] == '&'
  {
    HasParts(t, i, PrintBack(d), "&");
    HasOne(t, i + |PrintBack(d)|, "&");
  }

  lemma {:induction false} ExecRead(t: Text, i: nat, c: Cmd, end: nat)
    requires Good(c) && Has(t, i, PrintExec(c)) && end == i + |PrintExec(c)| && Stops(At(t, end))
    ensures ParseExec(t, i) == Parsed(c, end)
    decreases c, 1
  {
    if Core(c).Exec? {
      SimpleRead(t, i, c, end);
    } else {
      var inner := PrintNode(Core(c));
      var m := i + 1 + |inner|;
      GoodCore(c);
      BlockParts(t, i, inner, Redirs(c));
      NodeRead(t, i + 1, Core(c), m);
      BlockRead(t, i, c, m, end);
    }
  }

  lemma {:induction false} PipeRead(t: Text, i: nat, c: Cmd, end: nat)
    requires Good(c) && Has(t, i, PrintPipe(c)) && end == i + |PrintPipe(c)| && BackEnds(At(t, end))
    ensures ParsePipe(t, i) == Parsed(c, end)
    decreases c, 2
  {
    if c.Pipe? {
      var k := i + |PrintExec(c.left)|;
      HasSplit(t, i, PrintExec(c.left), "|", PrintPipe(c.right));
      ExecRead(t, i, c.left, k);
      PipeRead(t, k + 1, c.right, end);
      PipeJoin(t, i, k, c.left, c.right, end);
    } else {
      ExecRead(t, i, c, end);
      PipeAlone(t, i, end, c);
    }
  }

  lemma {:induction false} BackRead(t: Text, i: nat, c: Cmd, end: nat)
    requires Good(c) && Has(t, i, PrintBack(c)) && end == i + |PrintBack(c)| && BackEnds(At(t, end))
    ensures ParseLine(t, i) == ParseTail(t, end, c)
    decreases c, 3
  {
    if c.Back? {
      BackPart(t, i, c.cmd);
      BackRead(t, i, c.cmd, end - 1);
      TailBack(t, end - 1, c.cmd);
    } else {
      PipeRead(t, i, c, end);
    }
  }

  lemma {:induction false} LineRead(t: Text, i: nat, c: Cmd, end: nat)
    requires Good(c) && Has(t, i, PrintLine(c)) && end == i + |PrintLine(c)| && LineEnds(At(t, end))
    ensures ParseLine(t, i) == Parsed(c, end)
    decreases c, 4
  {
    if c.List? {
      NodeRead(t, i, c, end);
    } else {
      BackRead(t, i, c, end);
      TailEnd(t, end, c);
    }
  }

  // --- What printing produces and what parsing can build ---

  predicate NoNul(s: string) {
    forall k | 0 <= k < |s| :: s[k] != '\0'
  }

  lemma Joined(a: string, b: string)
    requires NoNul(a) && NoNul(b)
    ensures NoNul(a + b)
  {
  }

  lemma {:induction false} WordsText(args: seq<string>)
    requires forall k | 0 <= k < |args| :: GoodWord(args[k])
    ensures NoNul(Words(args))
  {
    if |args| > 0 {
      WordsText(args[1..]);
    }
  }

  lemma {:induction false} RedirsText(c: Cmd)
    requires Good(c)
    ensures NoNul(Redirs(c))
    decreases c
  {
    if c.Redir? {
      RedirsText(c.cmd);
    }
  }

  lemma {:induction false} NodeText(c: Cmd)
    requires Good(c)
    ensures NoNul(PrintNode(c))
    decreases c, 0
  {
    match c
    case List(l, r) =>
      LineText(l);
      LineText(r);
    case Back(d) =>
      LineText(d);
    case Pipe(l, r) =>
      LineText(l);
      LineText(r);
    case _ =>
  }

  lemma {:induction false} LineText(c: Cmd)
    requires Good(c)
    ensures NoNul(PrintLine(c)) && NoNul(PrintBack(c)) && NoNul(PrintPipe(c)) && NoNul(PrintExec(c))
    decreases c, 1
  {
    NodeText(c);
    RedirsText(c);
    GoodCore(c);
    if Core(c).Exec? {
      WordsText(Core(c).args);
      Joined(Words(Core(c).args), Redirs(c));
    } else {
      NodeText(Core(c));
      Joined("(", PrintNode(Core(c)));
      Joined("(" + PrintNode(Core(c)), ")");
      Joined("(" + PrintNode(Core(c)) + ")", Redirs(c));
    }
    assert NoNul(PrintExec(c));
    assert PrintPipe(c) == if c.Pipe? then PrintNode(c) else PrintExec(c);
    assert PrintBack(c) == if c.Back? then PrintNode(c) else PrintPipe(c);
  }

  /** Parsing undoes printing: every tree with allowed words comes back, with nothing left over. */
  lemma ParsePrint(c: Cmd)
    requires Good(c)
    ensures NoNul(PrintLine(c)) && ParseCmd(PrintLine(c)) == Parsed(c, |PrintLine(c)|)
  {
    LineText(c);
    var t: Text := PrintLine(c);
    LineRead(t, 0, c, |t|);
  }

  lemma PrintInjective(c: Cmd, d: Cmd)
    requires Good(c) && Good(d) && PrintLine(c) == PrintLine(d)
    ensures c == d
  {
    ParsePrint(c);
    ParsePrint(d);
  }

  predicate GoodResult(r: Parsed) {
    r.Parsed? ==> Good(r.cmd)
  }

  predicate Arguments(c: Cmd, argc: nat) {
    Core(c).Exec? && |Core(c).args| == argc
  }

  lemma {:induction false} AddArgGood(c: Cmd, w: string, argc: nat)
    requires Good(c) && GoodWord(w) && Arguments(c, argc) && argc + 1 < MAXARGS
    ensures Good(AddArg(c, w)) && Arguments(AddArg(c, w), argc + 1)
    decreases c
  {
    if c.Redir? {
      AddArgGood(c.cmd, w, argc);
    }
  }

  lemma {:induction false} WordEndGood(t: Text, i: nat)
    requires i <= |t|
    ensures forall k | i <= k < WordEnd(t, i) :: IsWordChar(t[k])
    decreases |t| - i
  {
    if i < |t| && IsWordChar(t[i]) {
      WordEndGood(t, i + 1);
    }
  }

  /** A token of kind 'a' is a maximal word. */
  lemma TokenGood(t: Text, i: nat)
    requires i <= |t| && GetToken(t, i).kind == 'a'
    ensures var r := GetToken(t, i); r.q < r.eq && GoodWord(t[r.q..r.eq]) && !IsWordChar(At(t, r.eq))
  {
    WordEndGood(t, Skip(t, i));
  }

  lemma {:induction false} RedirsGood(t: Text, i: nat, c: Cmd)
    requires i <= |t| && Good(c)
    ensures var r := ParseRedirs(t, i, c); r.Parsed? ==> Good(r.cmd) && Core(r.cmd) == Core(c)
    decreases |t| - i
  {
    var j := Skip(t, i);
    if At(t, j) == '<' || At(t, j) == '>' {
      var op := GetToken(t, j);
      var file := GetToken(t, op.next);
      if file.kind == 'a' {
        TokenGood(t, op.next);
        RedirsGood(t, file.next, Redirected(c, op.kind, t[file.q..file.eq]));
      }
    }
  }

  lemma ArgGood(t: Text, j: nat, c: Cmd, argc: nat)
    requires j <= |t| && Good(c) && Arguments(c, argc) && GetToken(t, j).kind == 'a' && argc + 1 < MAXARGS
    ensures var tok := GetToken(t, j);
            var r := ParseRedirs(t, tok.next, AddArg(c, t[tok.q..tok.eq]));
            r.Parsed? ==> Good(r.cmd) && Arguments(r.cmd, argc + 1)
  {
    var tok := GetToken(t, j);
    var w := t[tok.q..tok.eq];
    TokenGood(t, j);
    AddArgGood(c, w, argc);
    RedirsGood(t, tok.next, AddArg(c, w));
  }

  /** One turn of the argument loop ends the command, panics, or goes on with one more argument. */
  lemma ArgsTurn(t: Text, i: nat, c: Cmd, argc: nat) returns (k: nat, d: Cmd)
    requires i <= |t| && Good(c) && Arguments(c, argc)
    ensures var r := ParseArgs(t, i, c, argc);
            r.Panic? || r.cmd == c ||
            (i < k <= |t| && Good(d) && Arguments(d, argc + 1) && r == ParseArgs(t, k, d, argc + 1))
  {
    var j := Skip(t, i);
    var tok := GetToken(t, j);
    k, d := i, c;
    if !EndsExec(At(t, j)) && tok.kind == 'a' && argc + 1 < MAXARGS {
      ArgGood(t, j, c, argc);
      var r := ParseRedirs(t, tok.next, AddArg(c, t[tok.q..tok.eq]));
      if r.Parsed? {
        k, d := r.at, r.cmd;
      }
    }
  }

  lemma {:induction false} ArgsGood(t: Text, i: nat, c: Cmd, argc: nat)
    requires i <= |t| && Good(c) && Arguments(c, argc)
    ensures GoodResult(ParseArgs(t, i, c, argc))
    decreases |t| - i
  {
    var k, d := ArgsTurn(t, i, c, argc);
    if i < k <= |t| && Good(d) && Arguments(d, argc + 1) {
      ArgsGood(t, k, d, argc + 1);
    }
  }

  lemma {:induction false} ExecGood(t: Text, i: nat)
    requires i <= |t|
    ensures GoodResult(ParseExec(t, i))
    decreases |t| - i, 2
  {
    var j := Skip(t, i);
    if At(t, j) == '(' {
      var l := ParseLine(t, GetToken(t, j).next);
      LineGood(t, GetToken(t, j).next);
      if l.Parsed? && At(t, Skip(t, l.at)) == ')' {
        RedirsGood(t, GetToken(t, Skip(t, l.at)).next, l.cmd);
      }
    } else {
      RedirsGood(t, j, Exec([]));
      var r := ParseRedirs(t, j, Exec([]));
      if r.Parsed? {
        ArgsGood(t, r.at, r.cmd, 0);
      }
    }
  }

  lemma {:induction false} PipeGood(t: Text, i: nat)
    requires i <= |t|
    ensures GoodResult(ParsePipe(t, i))
    decreases |t| - i, 3
  {
    ExecGood(t, i);
    var l := ParseExec(t, i);
    if l.Parsed? && At(t, Skip(t, l.at)) == '|' {
      PipeGood(t, GetToken(t, Skip(t, l.at)).next);
    }
  }

  lemma {:induction false} TailGood(t: Text, i: nat, c: Cmd)
    requires i <= |t| && Good(c)
    ensures GoodResult(ParseTail(t, i, c))
    decreases |t| - i, 0
  {
    var j := Skip(t, i);
    if At(t, j) == '&' {
      TailGood(t, GetToken(t, j).next, Back(c));
    } else if At(t, j) == ';' {
      LineGood(t, GetToken(t, j).next);
    }
  }

  lemma {:induction false} LineGood(t: Text, i: nat)
    requires i <= |t|
    ensures GoodResult(ParseLine(t, i))
    decreases |t| - i, 4
  {
    PipeGood(t, i);
    var r := ParsePipe(t, i);
    if r.Parsed? {
      TailGood(t, r.at, r.cmd);
    }
  }

  /** The trees parsecmd returns, over all inputs, are exactly the good ones. */
  lemma ParserImage(c: Cmd)
    ensures Good(c) <==> exists t: Text :: ParseCmd(t) == Parsed(c, |t|)
  {
    if Good(c) {
      ParsePrint(c);
      var t: Text := PrintLine(c);
      assert ParseCmd(t) == Parsed(c, |t|);
    }
    if t: Text :| ParseCmd(t) == Parsed(c, |t|) {
      LineGood(t, 0);
    }
  }
}
