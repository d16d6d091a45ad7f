/** The parser of sh.c as it runs: one cursor over a character buffer, and nodes allocated and patched in place. */
module ShellParser {
  import opened ShellSyntax
  import opened ShellRoundTrip
  import opened ShellNodes
  import Spec = ShellSyntax

  /** A node, or the panic that ended the process. */
  datatype Outcome = Made(node: nat) | Died(error: Error)

  /** What a parsing procedure left behind is what the specification says. */
  ghost predicate Agrees(t: Text, r: Outcome, nodes: seq<Node>, pos: nat, spec: Parsed) {
    match spec
    case Panic(e) => r == Died(e)
    case Parsed(c, k) => r.Made? && r.node < |nodes| && Sound(t, nodes) && Tree(t, nodes, r.node) == c && pos == k
  }

  class Parser {
    const buf: array<char>
    const es: nat
    ghost const text: Text
    var pos: nat
    var nodes: seq<Node>

    ghost predicate Valid()
      reads this, buf
    {
      es == |text| < buf.Length && pos <= es && Sound(text, nodes) && forall k | 0 <= k <= es :: buf[k] == At(text, k)
    }

    /** strlen: the text ends at the first NUL. */
    constructor (line: array<char>)
      requires exists k :: 0 <= k < line.Length && line[k] == '\0'
      ensures Valid() && buf == line && pos == 0 && nodes == []
      ensures text == CString(line[..], 0)
    {
      var n := 0;
      while line[n] != '\0'
        invariant 0 <= n < line.Length
        invariant exists k :: n <= k < line.Length && line[k] == '\0'
        invariant forall k | 0 <= k < n :: line[k] != '\0'
        invariant CString(line[..], 0) == line[..n] + CString(line[..], n)
        decreases line.Length - n
      {
        assert line[..n + 1] == line[..n] + [line[n]];
        n := n + 1;
      }
      buf, es, text, pos, nodes := line, n, line[..n], 0, [];
    }

    method SkipSpace(from: nat) returns (s: nat)
      requires Valid() && from <= es
      ensures s == Skip(text, from)
    {
      s := from;
      while s < es && IsSpace(buf[s])
        invariant from <= s <= es && Skip(text, s) == Skip(text, from)
      {
        s := s + 1;
      }
    }

    method GetToken() returns (kind: char, q: nat, eq: nat)
      requires Valid()
      modifies this`pos
      ensures Token(kind, q, eq, pos) == Spec.GetToken(text, old(pos))
    {
      var s := SkipSpace(pos);
      q := s;
      kind := buf[s];
      if kind == '\0' {
      } else if IsSingle(kind) {
        s := s + 1;
      } else if kind == '>' {
        s := s + 1;
        if buf[s] == '>' {
          kind := '+';
          s := s + 1;
        }
      } else {
        kind := 'a';
        while s < es && !IsSpace(buf[s]) && !IsSymbol(buf[s])
          invariant q <= s <= es && WordEnd(text, s) == WordEnd(text, q)
        {
          assert buf[s] == text[s];
          s := s + 1;
        }
      }
      eq := s;
      pos := SkipSpace(s);
    }

    method Peek(toks: string) returns (b: bool)
      requires Valid()
      modifies this`pos
      ensures pos == Skip(text, old(pos))
      ensures b <==> At(text, pos) != '\0' && At(text, pos) in toks
    {
      pos := SkipSpace(pos);
      b := buf[pos] != '\0' && buf[pos] in toks;
    }

    method New(node: Node) returns (p: nat)
      requires Valid() && NodeOk(text, node, |nodes|)
      modifies this`nodes
      ensures Valid() && p == |old(nodes)| && nodes == old(nodes) + [node]
    {
      p := |nodes|;
      nodes := nodes + [node];
    }

    /** redircmd for one of the three operators. */
    method AddRedir(p: nat, kind: char, file: Span) returns (r: nat)
      requires Valid() && p < |nodes| && Wordy(text, file)
      modifies this`nodes
      ensures Valid() && old(nodes) <= nodes && r < |nodes| && nodes[r].RedirNode? && nodes[r].cmd == p < r
      ensures Tree(text, nodes, r) == Redirected(Tree(text, old(nodes), p), kind, Chars(text, file))
    {
      ghost var was := nodes;
      if kind == '<' {
        r := New(RedirNode(p, file, O_RDONLY, 0));
      } else {
        r := New(RedirNode(p, file, O_WRONLY_CREATE, 1));
      }
      TreeExtends(text, was, nodes, p);
    }

    /** One operator and its file name. */
    method ParseRedir(p: nat) returns (r: Outcome)
      requires Valid() && p < |nodes| && pos == Skip(text, pos) && (At(text, pos) == '<' || At(text, pos) == '>')
      modifies this`pos, this`nodes
      ensures Valid() && old(nodes) <= nodes && old(pos) < pos
      ensures var want := Spec.ParseRedirs(text, old(pos), Tree(text, old(nodes), p));
              if r.Died? then want == Panic(r.error)
              else r.node < |nodes| && want == Spec.ParseRedirs(text, pos, Tree(text, nodes, r.node)) &&
                   nodes[r.node].RedirNode? && nodes[r.node].cmd == p < r.node && pos == Skip(text, pos)
    {
      var tok, _, _ := GetToken();
      ghost var mid := pos;
      var kind, q, eq := GetToken();
      if kind != 'a' {
        return Died(MissingFile);
      }
      TokenGood(text, mid);
      SkipTwice(text, eq);
      var next := AddRedir(p, tok, Span(q, eq));
      r := Made(next);
    }

    method ParseRedirs(cmd: nat) returns (r: Outcome)
      requires Valid() && cmd < |nodes|
      modifies this`pos, this`nodes
      ensures Valid() && old(nodes) <= nodes
      ensures Agrees(text, r, nodes, pos, Spec.ParseRedirs(text, old(pos), Tree(text, old(nodes), cmd)))
      ensures r.Made? ==> RedirChain(nodes, r.node, cmd) && pos == Skip(text, pos) && old(pos) <= pos
    {
      var p := cmd;
      ghost var want := Spec.ParseRedirs(text, pos, Tree(text, nodes, cmd));
      RedirsSkip(text, pos, Tree(text, nodes, cmd));
      var more := Peek("<>");
      SkipTwice(text, old(pos));
      while more
        invariant Valid() && old(nodes) <= nodes && RedirChain(nodes, p, cmd)
        invariant old(pos) <= pos == Skip(text, pos)
        invariant more <==> At(text, pos) == '<' || At(text, pos) == '>'
        invariant want == Spec.ParseRedirs(text, pos, Tree(text, nodes, p))
        decreases es - pos
      {
        ghost var was := nodes;
        r := ParseRedir(p);
        if r.Died? {
          return;
        }
        ChainExtends(was, nodes, p, cmd);
        p := r.node;
        more := Peek("<>");
      }
      r := Made(p);
    }

    /** argv[argc] and eargv[argc] of the Exec node that `top` wraps. */
    method AddWord(cmd: nat, top: nat, w: Span)
      requires Valid() && cmd < |nodes| && nodes[cmd].ExecNode? && RedirChain(nodes, top, cmd) && Wordy(text, w)
      modifies this`nodes
      ensures Valid() && |nodes| == |old(nodes)| && nodes[..cmd] == old(nodes)[..cmd]
      ensures nodes[cmd] == ExecNode(old(nodes)[cmd].argv + [w]) && RedirChain(nodes, top, cmd)
      ensures Tree(text, nodes, top) == AddArg(Tree(text, old(nodes), top), Chars(text, w))
    {
      ghost var was := nodes;
      nodes := WithArg(nodes, cmd, w);
      WithArgSound(text, was, cmd, w);
      TreeWithArg(text, was, cmd, w, top);
      ChainWithArg(was, cmd, w, top);
    }

    method ParseBlock() returns (r: Outcome)
      requires Valid() && At(text, pos) == '('
      modifies this`pos, this`nodes
      ensures Valid() && old(nodes) <= nodes
      ensures Agrees(text, r, nodes, pos, Spec.ParseBlock(text, old(pos)))
      decreases es - pos, 1
    {
      var _, _, _ := GetToken();
      r := ParseLine();
      if r.Died? {
        return;
      }
      var close := Peek(")");
      if !close {
        return Died(MissingParen);
      }
      ghost var was := nodes;
      var _, _, _ := GetToken();
      r := ParseRedirs(r.node);
    }

    method ParseExec() returns (r: Outcome)
      requires Valid()
      modifies this`pos, this`nodes
      ensures Valid() && old(nodes) <= nodes
      ensures Agrees(text, r, nodes, pos, Spec.ParseExec(text, old(pos)))
      decreases es - pos, 2
    {
      var open := Peek("(");
      if open {
        r := ParseBlock();
        return;
      }
      var cmd := New(ExecNode([]));
      r := ParseRedirs(cmd);
      if r.Died? {
        return;
      }
      r := ParseArgs(cmd, r.node, old(nodes));
    }

    method AddBack(cmd: nat) returns (p: nat)
      requires Valid() && cmd < |nodes|
      modifies this`nodes
      ensures Valid() && old(nodes) <= nodes && p < |nodes| && Tree(text, nodes, p) == Back(Tree(text, old(nodes), cmd))
    {
      ghost var was := nodes;
      p := New(BackNode(cmd));
      TreeExtends(text, was, nodes, cmd);
    }

    method AddPair(node: Node, ghost l: nat, ghost r: nat) returns (p: nat)
      requires Valid() && l < |nodes| && r < |nodes| && (node == PipeNode(l, r) || node == ListNode(l, r))
      modifies this`nodes
      ensures Valid() && old(nodes) <= nodes && p < |nodes|
      ensures var a, b := Tree(text, old(nodes), l), Tree(text, old(nodes), r);
              Tree(text, nodes, p) == if node.PipeNode? then Pipe(a, b) else List(a, b)
    {
      ghost var was := nodes;
      p := New(node);
      TreeExtends(text, was, nodes, l);
      TreeExtends(text, was, nodes, r);
    }

    method ParsePipe() returns (r: Outcome)
      requires Valid()
      modifies this`pos, this`nodes
      ensures Valid() && old(nodes) <= nodes
      ensures Agrees(text, r, nodes, pos, Spec.ParsePipe(text, old(pos)))
      decreases es - pos, 3
    {
      r := ParseExec();
      if r.Died? {
        return;
      }
      var left := r.node;
      var bar := Peek("|");
      if bar {
        var _, _, _ := GetToken();
        ghost var was := nodes;
        r := ParsePipe();
        if r.Died? {
          return;
        }
        TreeExtends(text, was, nodes, left);
        var p := AddPair(PipeNode(left, r.node), left, r.node);
        r := Made(p);
      }
    }

    method ParseLine() returns (r: Outcome)
      requires Valid()
      modifies this`pos, this`nodes
      ensures Valid() && old(nodes) <= nodes
      ensures Agrees(text, r, nodes, pos, Spec.ParseLine(text, old(pos)))
      decreases es - pos, 4
    {
      r := ParsePipe();
      if r.Died? {
        return;
      }
      var cmd: nat := r.node;
      ghost var want := ParseTail(text, pos, Tree(text, nodes, cmd));
      TailSkip(text, pos, Tree(text, nodes, cmd));
      ghost var start := pos;
      var amp := Peek("&");
      SkipTwice(text, start);
      while amp
        invariant Valid() && old(nodes) <= nodes && cmd < |nodes| && start <= pos == Skip(text, pos)
        invariant amp <==> At(text, pos) == '&'
        invariant want == ParseTail(text, pos, Tree(text, nodes, cmd))
        decreases es - pos
      {
        var _, _, _ := GetToken();
        cmd := AddBack(cmd);
        TailSkip(text, pos, Tree(text, nodes, cmd));
        SkipTwice(text, pos);
        amp := Peek("&");
      }
      var semi := Peek(";");
      if semi {
        var _, _, _ := GetToken();
        ghost var was := nodes;
        r := ParseLine();
        if r.Died? {
          return;
        }
        TreeExtends(text, was, nodes, cmd);
        cmd := AddPair(ListNode(cmd, r.node), cmd, r.node);
      }
      r := Made(cmd);
    }

    /** The argument loop of parseexec, writing into the Exec node `cmd` that `top` may already wrap. */
    method ParseArgs(cmd: nat, top: nat, ghost older: seq<Node>) returns (r: Outcome)
      requires Valid() && older <= nodes && |older| <= cmd < |nodes| && nodes[cmd] == ExecNode([])
      requires RedirChain(nodes, top, cmd)
      modifies this`pos, this`nodes
      ensures Valid() && older <= nodes
      ensures Agrees(text, r, nodes, pos, Spec.ParseArgs(text, old(pos), Tree(text, old(nodes), top), 0))
    {
      r := Made(top);
      var argc := 0;
      var more := true;
      ghost var want := Spec.ParseArgs(text, pos, Tree(text, nodes, top), 0);
      while more
        invariant Valid() && older <= nodes
        invariant more ==> |older| <= cmd < |nodes| && nodes[cmd].ExecNode? && |nodes[cmd].argv| == argc
        invariant more ==> r.Made? && RedirChain(nodes, r.node, cmd)
        invariant more ==> want == Spec.ParseArgs(text, pos, Tree(text, nodes, r.node), argc)
        invariant !more ==> Agrees(text, r, nodes, pos, want)
        decreases more, es - pos
      {
        r, more := ParseArg(cmd, r.node, argc, older);
        argc := argc + 1;
      }
    }

    /** One turn of the loop: the command ends, the shell's child panics, or there is one more argument. */
    method ParseArg(cmd: nat, top: nat, argc: nat, ghost older: seq<Node>) returns (r: Outcome, more: bool)
      requires Valid() && older <= nodes && |older| <= cmd < |nodes| && nodes[cmd].ExecNode? &&
               |nodes[cmd].argv| == argc
      requires RedirChain(nodes, top, cmd)
      modifies this`pos, this`nodes
      ensures Valid() && older <= nodes
      ensures more ==> old(pos) < pos && cmd < |nodes| && nodes[cmd].ExecNode? && |nodes[cmd].argv| == argc + 1
      ensures more ==> r.Made? && RedirChain(nodes, r.node, cmd)
      ensures var want := Spec.ParseArgs(text, old(pos), Tree(text, old(nodes), top), argc);
              if more then want == Spec.ParseArgs(text, pos, Tree(text, nodes, r.node), argc + 1)
              else Agrees(text, r, nodes, pos, want)
    {
      ghost var start := pos;
      more := false;
      var ends := Peek("|)&;");
      assert ends <==> EndsExec(At(text, pos));
      ghost var j := pos;
      ArgsTurns(text, start, Tree(text, nodes, top), argc);
      if ends {
        return Made(top), false;
      }
      var tok, q, eq := GetToken();
      if tok == '\0' {
        return Made(top), false;
      }
      if tok != 'a' {
        return Died(Syntax), false;
      }
      TokenGood(text, j);
      r := TakeWord(cmd, top, Span(q, eq), argc + 1, older);
      more := r.Made?;
    }

    /** One word: stored at the end of argv, which must stay shorter than MAXARGS, then any redirections after it. */
    method TakeWord(cmd: nat, top: nat, w: Span, argc: nat, ghost older: seq<Node>) returns (r: Outcome)
      requires Valid() && older <= nodes && |older| <= cmd < |nodes|
      requires nodes[cmd].ExecNode? && |nodes[cmd].argv| + 1 == argc && RedirChain(nodes, top, cmd) && Wordy(text, w)
      modifies this`pos, this`nodes
      ensures Valid() && older <= nodes && (r.Made? ==> old(pos) <= pos)
      ensures argc >= MAXARGS ==> r == Died(TooManyArgs)
      ensures argc < MAXARGS ==>
                Agrees(text, r, nodes, pos,
                       Spec.ParseRedirs(text, old(pos), AddArg(Tree(text, old(nodes), top), Chars(text, w))))
      ensures r.Made? ==>
                cmd < |nodes| && nodes[cmd].ExecNode? && |nodes[cmd].argv| == argc && RedirChain(nodes, r.node, cmd)
    {
      ghost var was := nodes;
      AddWord(cmd, top, w);
      PrefixKept(older, was, nodes, cmd);
      if argc >= MAXARGS {
        return Died(TooManyArgs);
      }
      ghost var filled := nodes;
      r := ParseRedirs(top);
      if r.Made? {
        ChainGrows(filled, nodes, r.node, top, cmd);
      }
    }

    /** nulterminate: a NUL over the character after every counted string under `p`. */
    method NulTerminate(p: nat)
      requires Sound(text, nodes) && p < |nodes| && Cut(text, buf[..])
      modifies buf
      ensures Cut(text, buf[..]) && Terminated(nodes, p, buf[..]) && KeepsNuls(old(buf[..]), buf[..])
      decreases p
    {
      assert NodeOk(text, nodes[p], p);
      match nodes[p]
      case ExecNode(argv) =>
        var i := 0;
        while i < |argv|
          invariant 0 <= i <= |argv| && Cut(text, buf[..]) && KeepsNuls(old(buf[..]), buf[..])
          invariant forall k | 0 <= k < i :: buf[argv[k].eq] == '\0'
        {
          buf[argv[i].eq] := '\0';
          i := i + 1;
        }
      case RedirNode(c, file, _, _) =>
        NulTerminate(c);
        ghost var was := buf[..];
        buf[file.eq] := '\0';
        TerminatedKept(nodes, c, was, buf[..]);
      case PipeNode(l, r) =>
        NulTerminate(l);
        ghost var was := buf[..];
        NulTerminate(r);
        TerminatedKept(nodes, l, was, buf[..]);
      case ListNode(l, r) =>
        NulTerminate(l);
        ghost var was := buf[..];
        NulTerminate(r);
        TerminatedKept(nodes, l, was, buf[..]);
      case BackNode(c) =>
        NulTerminate(c);
    }

    /** parsecmd: the tree the specification gives, with every string NUL-terminated in the buffer; or its panic. */
    method ParseCmd() returns (r: Outcome)
      requires Valid() && pos == 0
      modifies this`pos, this`nodes, buf
      ensures match Spec.ParseCmd(text)
              case Panic(e) => r == Died(e)
              case Parsed(c, _) =>
                r.Made? && r.node < |nodes| && (forall i | 0 <= i < |nodes| :: Older(nodes[i], i)) &&
                CTree(buf[..], nodes, r.node) == c
    {
      r := ParseLine();
      if r.Died? {
        return;
      }
      var _ := Peek("");
      if pos != es {
        return Died(Syntax);
      }
      NulTerminate(r.node);
      AllOlder(text, nodes);
      CutTree(text, buf[..], nodes, r.node);
    }
  }
}
