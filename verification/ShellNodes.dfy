/** The nodes sh.c allocates while it parses: spans of the input buffer, and the command tree they stand for. */
module ShellNodes {
  import opened ShellSyntax

  /** A counted string: where it starts in the buffer and where it ends. */
  datatype Span = Span(q: nat, eq: nat)

  /** One allocated node; `cmd`, `left` and `right` are the indices of older nodes. */
  datatype Node =
    | ExecNode(argv: seq<Span>)
    | RedirNode(cmd: nat, file: Span, mode: nat, fd: nat)
    | PipeNode(left: nat, right: nat)
    | ListNode(left: nat, right: nat)
    | BackNode(cmd: nat)

  /** A maximal word of the text. */
  predicate Wordy(t: Text, s: Span) {
    s.q < s.eq <= |t| && GoodWord(t[s.q..s.eq]) && !IsWordChar(At(t, s.eq))
  }

  predicate NodeOk(t: Text, node: Node, i: nat) {
    match node
    case ExecNode(argv) => forall k | 0 <= k < |argv| :: Wordy(t, argv[k])
    case RedirNode(c, file, _, _) => c < i && Wordy(t, file)
    case PipeNode(l, r) => l < i && r < i
    case ListNode(l, r) => l < i && r < i
    case BackNode(c) => c < i
  }

  predicate Sound(t: Text, nodes: seq<Node>) {
    forall i | 0 <= i < |nodes| :: NodeOk(t, nodes[i], i)
  }

  function Chars(t: Text, s: Span): string
    requires Wordy(t, s)
  {
    t[s.q..s.eq]
  }

  function Strings(t: Text, argv: seq<Span>): (r: seq<string>)
    requires forall k | 0 <= k < |argv| :: Wordy(t, argv[k])
    ensures |r| == |argv|
    ensures forall k | 0 <= k < |argv| :: r[k] == Chars(t, argv[k])
  {
    seq(|argv|, k requires 0 <= k < |argv| => Chars(t, argv[k]))
  }

  /** The command tree under node `p`, its counted strings read from the text. */
  function Tree(t: Text, nodes: seq<Node>, p: nat): Cmd
    requires Sound(t, nodes) && p < |nodes|
    decreases p
  {
    assert NodeOk(t, nodes[p], p);
    match nodes[p]
    case ExecNode(argv) => Exec(Strings(t, argv))
    case RedirNode(c, file, mode, fd) => Redir(Tree(t, nodes, c), Chars(t, file), mode, fd)
    case PipeNode(l, r) => Pipe(Tree(t, nodes, l), Tree(t, nodes, r))
    case ListNode(l, r) => List(Tree(t, nodes, l), Tree(t, nodes, r))
    case BackNode(c) => Back(Tree(t, nodes, c))
  }

  lemma {:induction false} TreeExtends(t: Text, a: seq<Node>, b: seq<Node>, p: nat)
    requires Sound(t, a) && Sound(t, b) && a <= b && p < |a|
    ensures Tree(t, a, p) == Tree(t, b, p)
    decreases p
  {
    assert a[p] == b[p] && NodeOk(t, a[p], p);
    match a[p]
    case ExecNode(_) =>
    case RedirNode(c, _, _, _) => TreeExtends(t, a, b, c);
    case PipeNode(l, r) =>
      TreeExtends(t, a, b, l);
      TreeExtends(t, a, b, r);
    case ListNode(l, r) =>
      TreeExtends(t, a, b, l);
      TreeExtends(t, a, b, r);
    case BackNode(c) => TreeExtends(t, a, b, c);
  }

  /** From `p` only redirections lead down to `e`. */
  predicate RedirChain(nodes: seq<Node>, p: nat, e: nat)
    decreases p
  {
    p < |nodes| && (p == e || (nodes[p].RedirNode? && nodes[p].cmd < p && RedirChain(nodes, nodes[p].cmd, e)))
  }

  lemma {:induction false} ChainExtends(a: seq<Node>, b: seq<Node>, p: nat, e: nat)
    requires RedirChain(a, p, e) && a <= b
    ensures RedirChain(b, p, e)
    decreases p
  {
    assert a[p] == b[p];
    if p != e {
      ChainExtends(a, b, a[p].cmd, e);
    }
  }

  lemma {:induction false} ChainJoin(nodes: seq<Node>, p: nat, m: nat, e: nat)
    requires RedirChain(nodes, p, m) && RedirChain(nodes, m, e)
    ensures RedirChain(nodes, p, e)
    decreases p
  {
    if p != m {
      ChainJoin(nodes, nodes[p].cmd, m, e);
    }
  }

  lemma ChainGrows(a: seq<Node>, b: seq<Node>, p: nat, m: nat, e: nat)
    requires RedirChain(a, m, e) && a <= b && RedirChain(b, p, m)
    ensures RedirChain(b, p, e)
  {
    ChainExtends(a, b, m, e);
    ChainJoin(b, p, m, e);
  }

  lemma PrefixKept(older: seq<Node>, was: seq<Node>, now: seq<Node>, e: nat)
    requires older <= was && |older| <= e < |was| == |now| && now[..e] == was[..e]
    ensures older <= now
  {
    assert older == was[..e][..|older|] == now[..e][..|older|];
  }

  function WithArg(nodes: seq<Node>, e: nat, w: Span): seq<Node>
    requires e < |nodes| && nodes[e].ExecNode?
  {
    nodes[e := ExecNode(nodes[e].argv + [w])]
  }

  lemma WithArgSound(t: Text, nodes: seq<Node>, e: nat, w: Span)
    requires Sound(t, nodes) && Wordy(t, w) && e < |nodes| && nodes[e].ExecNode?
    ensures Sound(t, WithArg(nodes, e, w))
  {
    assert NodeOk(t, nodes[e], e);
  }

  lemma {:induction false} ChainWithArg(nodes: seq<Node>, e: nat, w: Span, p: nat)
    requires e < |nodes| && nodes[e].ExecNode? && RedirChain(nodes, p, e)
    ensures RedirChain(WithArg(nodes, e, w), p, e)
    decreases p
  {
    if p != e {
      ChainWithArg(nodes, e, w, nodes[p].cmd);
    }
  }

  /** Writing an argument into the Exec node is seen through every redirection wrapped around it. */
  lemma {:induction false} TreeWithArg(t: Text, nodes: seq<Node>, e: nat, w: Span, p: nat)
    requires Sound(t, nodes) && Wordy(t, w) && e < |nodes| && nodes[e].ExecNode? && RedirChain(nodes, p, e)
    requires Sound(t, WithArg(nodes, e, w))
    ensures Tree(t, WithArg(nodes, e, w), p) == AddArg(Tree(t, nodes, p), Chars(t, w))
    decreases p
  {
    var more := WithArg(nodes, e, w);
    assert NodeOk(t, nodes[p], p) && NodeOk(t, more[p], p);
    if p == e {
      var argv := nodes[e].argv;
      assert Strings(t, argv + [w]) == Strings(t, argv) + [Chars(t, w)];
    } else {
      TreeWithArg(t, nodes, e, w, nodes[p].cmd);
    }
  }

  // --- NUL-terminated strings ---

  /** The C string at `q`: everything up to the first NUL. */
  function CString(b: seq<char>, q: nat): string
    decreases |b| - q
  {
    if q < |b| && b[q] != '\0' then [b[q]] + CString(b, q + 1) else ""
  }

  /** The text with NULs written over some characters that belong to no word. */
  predicate Cut(t: Text, b: seq<char>) {
    |t| < |b| && forall k | 0 <= k <= |t| :: b[k] == At(t, k) || (b[k] == '\0' && !IsWordChar(At(t, k)))
  }

  lemma {:induction false} CutWord(t: Text, b: seq<char>, s: Span)
    requires Cut(t, b) && s.q <= s.eq <= |t| && b[s.eq] == '\0'
    requires forall k | s.q <= k < s.eq :: IsWordChar(t[k])
    ensures CString(b, s.q) == t[s.q..s.eq]
    decreases s.eq - s.q
  {
    if s.q < s.eq {
      assert b[s.q] == t[s.q];
      CutWord(t, b, Span(s.q + 1, s.eq));
      assert t[s.q..s.eq] == [t[s.q]] + t[s.q + 1..s.eq];
    }
  }

  lemma WordyCut(t: Text, b: seq<char>, s: Span)
    requires Cut(t, b) && Wordy(t, s) && b[s.eq] == '\0'
    ensures CString(b, s.q) == Chars(t, s)
  {
    forall k | s.q <= k < s.eq
      ensures IsWordChar(t[k])
    {
      assert t[k] == t[s.q..s.eq][k - s.q];
    }
    CutWord(t, b, s);
  }

  /** Every counted string under node `p` ends at a NUL. */
  predicate Terminated(nodes: seq<Node>, p: nat, b: seq<char>)
    decreases p
  {
    p < |nodes| &&
    match nodes[p]
    case ExecNode(argv) => forall k | 0 <= k < |argv| :: argv[k].eq < |b| && b[argv[k].eq] == '\0'
    case RedirNode(c, file, _, _) => c < p && Terminated(nodes, c, b) && file.eq < |b| && b[file.eq] == '\0'
    case PipeNode(l, r) => l < p && r < p && Terminated(nodes, l, b) && Terminated(nodes, r, b)
    case ListNode(l, r) => l < p && r < p && Terminated(nodes, l, b) && Terminated(nodes, r, b)
    case BackNode(c) => c < p && Terminated(nodes, c, b)
  }

  predicate KeepsNuls(a: seq<char>, b: seq<char>) {
    |a| == |b| && forall k | 0 <= k < |a| :: a[k] == '\0' ==> b[k] == '\0'
  }

  lemma {:induction false} TerminatedKept(nodes: seq<Node>, p: nat, a: seq<char>, b: seq<char>)
    requires Terminated(nodes, p, a) && KeepsNuls(a, b)
    ensures Terminated(nodes, p, b)
    decreases p
  {
    match nodes[p]
    case ExecNode(_) =>
    case RedirNode(c, _, _, _) => TerminatedKept(nodes, c, a, b);
    case PipeNode(l, r) =>
      TerminatedKept(nodes, l, a, b);
      TerminatedKept(nodes, r, a, b);
    case ListNode(l, r) =>
      TerminatedKept(nodes, l, a, b);
      TerminatedKept(nodes, r, a, b);
    case BackNode(c) => TerminatedKept(nodes, c, a, b);
  }

  /** The command the nodes mean to runcmd, which reads NUL-terminated strings from the buffer. */
  function CTree(b: seq<char>, nodes: seq<Node>, p: nat): Cmd
    requires p < |nodes| && forall i | 0 <= i < |nodes| :: Older(nodes[i], i)
    decreases p
  {
    assert Older(nodes[p], p);
    match nodes[p]
    case ExecNode(argv) => Exec(seq(|argv|, k requires 0 <= k < |argv| => CString(b, argv[k].q)))
    case RedirNode(c, file, mode, fd) => Redir(CTree(b, nodes, c), CString(b, file.q), mode, fd)
    case PipeNode(l, r) => Pipe(CTree(b, nodes, l), CTree(b, nodes, r))
    case ListNode(l, r) => List(CTree(b, nodes, l), CTree(b, nodes, r))
    case BackNode(c) => Back(CTree(b, nodes, c))
  }

  predicate Older(node: Node, i: nat) {
    match node
    case ExecNode(_) => true
    case RedirNode(c, _, _, _) => c < i
    case PipeNode(l, r) => l < i && r < i
    case ListNode(l, r) => l < i && r < i
    case BackNode(c) => c < i
  }

  lemma AllOlder(t: Text, nodes: seq<Node>)
    requires Sound(t, nodes)
    ensures forall i | 0 <= i < |nodes| :: Older(nodes[i], i)
  {
    forall i | 0 <= i < |nodes|
      ensures Older(nodes[i], i)
    {
      assert NodeOk(t, nodes[i], i);
    }
  }

  /** After the cuts runcmd sees exactly the strings that were parsed. */
  lemma {:induction false} CutTree(t: Text, b: seq<char>, nodes: seq<Node>, p: nat)
    requires Sound(t, nodes) && p < |nodes| && Cut(t, b) && Terminated(nodes, p, b)
    requires forall i | 0 <= i < |nodes| :: Older(nodes[i], i)
    ensures CTree(b, nodes, p) == Tree(t, nodes, p)
    decreases p
  {
    assert NodeOk(t, nodes[p], p);
    match nodes[p]
    case ExecNode(argv) =>
      forall k | 0 <= k < |argv|
        ensures CString(b, argv[k].q) == Chars(t, argv[k])
      {
        WordyCut(t, b, argv[k]);
      }
    case RedirNode(c, file, _, _) =>
      WordyCut(t, b, file);
      CutTree(t, b, nodes, c);
    case PipeNode(l, r) =>
      CutTree(t, b, nodes, l);
      CutTree(t, b, nodes, r);
    case ListNode(l, r) =>
      CutTree(t, b, nodes, l);
      CutTree(t, b, nodes, r);
    case BackNode(c) => CutTree(t, b, nodes, c);
  }
}
