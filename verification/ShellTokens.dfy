/** The tokens of a line and every way to write them down: what sh.c's gettoken sees, whatever the blanks. */
module ShellTokens {
  import opened ShellSyntax

  /** The strings sh.c lists its white space and its symbols in. */
  const BLANKS: string := [' ', '\t', '\r', '\n', 11 as char]
  const SYMBOLS: string := "<|>&;()"

  /** A symbol, with '+' for ">>", or a word. */
  datatype Tok = Mark(kind: char) | Word(w: string)

  predicate GoodTok(tok: Tok) {
    match tok
    case Mark(kind) => kind in SYMBOLS || kind == '+'
    case Word(w) => |w| > 0 && forall k | 0 <= k < |w| :: w[k] != '\0' && w[k] !in BLANKS && w[k] !in SYMBOLS
  }

  function Spell(tok: Tok): string {
    match tok
    case Mark(kind) => if kind == '+' then ">>" else [kind]
    case Word(w) => w
  }

  predicate Blank(s: string) {
    forall k | 0 <= k < |s| :: s[k] in BLANKS
  }

  /** Written without a blank in between, the two would be read as something else. */
  predicate Apart(a: Tok, b: Tok) {
    (a.Word? && b.Word?) || (a == Mark('>') && (b == Mark('>') || b == Mark('+')))
  }

  /** Tokens with blanks before, between and after them. */
  predicate Legal(gaps: seq<string>, ts: seq<Tok>) {
    |gaps| == |ts| + 1 &&
    (forall k | 0 <= k < |gaps| :: Blank(gaps[k])) && (forall k | 0 <= k < |ts| :: GoodTok(ts[k])) &&
    forall k | 0 < k < |ts| && Apart(ts[k - 1], ts[k]) :: gaps[k] != ""
  }

  function Laid(gaps: seq<string>, ts: seq<Tok>): string
    requires |gaps| == |ts| + 1
    decreases |ts|
  {
    if ts == [] then gaps[0] else gaps[0] + Spell(ts[0]) + Laid(gaps[1..], ts[1..])
  }

  // --- Reading ---

  function TokOf(t: Text, r: Token): Tok
    requires r.q <= r.eq <= |t|
  {
    if r.kind == 'a' then Word(t[r.q..r.eq]) else Mark(r.kind)
  }

  /** What gettoken finds from position `i` on, call after call. */
  function Toks(t: Text, i: nat): seq<Tok>
    requires i <= |t|
    decreases |t| - i
  {
    var r := GetToken(t, i);
    if r.kind == '\0' then [] else [TokOf(t, r)] + Toks(t, r.next)
  }

  lemma Classes(c: char)
    ensures IsSpace(c) <==> c in BLANKS
    ensures IsSymbol(c) <==> c in SYMBOLS
  {
  }

  lemma SkipIdle(t: Text, i: nat)
    requires i <= |t|
    ensures Skip(t, Skip(t, i)) == Skip(t, i) && GetToken(t, Skip(t, i)) == GetToken(t, i)
    ensures Toks(t, Skip(t, i)) == Toks(t, i)
  {
  }

  lemma {:induction false} SkipGap(t: Text, i: nat, n: nat)
    requires i + n <= |t| && Blank(t[i..i + n])
    ensures Skip(t, i) == Skip(t, i + n)
    decreases n
  {
    if n > 0 {
      assert t[i..i + n][0] == t[i] && t[i..i + n][1..] == t[i + 1..i + n];
      Classes(t[i]);
      SkipGap(t, i + 1, n - 1);
    }
  }

  lemma {:induction false} WholeWord(t: Text, i: nat, e: nat)
    requires i <= e <= |t| && !IsWordChar(At(t, e)) && forall k | i <= k < e :: IsWordChar(t[k])
    ensures WordEnd(t, i) == e
    decreases e - i
  {
    if i < e {
      WholeWord(t, i + 1, e);
    }
  }

  /** What may follow a token directly. */
  predicate Ends(tok: Tok, c: char) {
    (tok.Word? ==> !IsWordChar(c)) && (tok == Mark('>') ==> c != '>')
  }

  /** A token standing at `i` before something that ends it is read whole. */
  lemma TokenThere(t: Text, i: nat, e: nat, tok: Tok)
    requires GoodTok(tok) && e == i + |Spell(tok)| <= |t| && t[i..e] == Spell(tok) && Ends(tok, At(t, e))
    ensures GetToken(t, i).kind != '\0' && GetToken(t, i).eq == e && TokOf(t, GetToken(t, i)) == tok
  {
    var s := Spell(tok);
    forall k | 0 <= k < |s|
      ensures t[i + k] == s[k]
    {
      assert t[i..e][k] == s[k];
    }
    Classes(t[i]);
    match tok
    case Mark(kind) =>
      assert t[i] == s[0];
    case Word(w) =>
      forall k | i <= k < i + |s|
        ensures IsWordChar(t[k])
      {
        assert t[k] == s[k - i];
        Classes(t[k]);
      }
      WholeWord(t, i, i + |s|);
  }

  lemma FirstChar(gaps: seq<string>, ts: seq<Tok>)
    requires Legal(gaps, ts) && Laid(gaps, ts) != ""
    ensures var c := Laid(gaps, ts)[0];
            if gaps[0] != "" then c in BLANKS else ts != [] && c == Spell(ts[0])[0]
  {
    if gaps[0] != "" {
      assert Laid(gaps, ts)[0] == gaps[0][0];
    } else {
      assert GoodTok(ts[0]) && Laid(gaps, ts)[0] == Spell(ts[0])[0];
    }
  }

  lemma LegalRest(gaps: seq<string>, ts: seq<Tok>)
    requires Legal(gaps, ts) && ts != []
    ensures Legal(gaps[1..], ts[1..])
  {
    forall k | 0 < k < |ts[1..]| && Apart(ts[1..][k - 1], ts[1..][k])
      ensures gaps[1..][k] != ""
    {
      assert Apart(ts[k], ts[k + 1]);
    }
  }

  /** The first token ends where it should. */
  lemma FirstEnds(gaps: seq<string>, ts: seq<Tok>, t: Text, e: nat)
    requires Legal(gaps, ts) && ts != [] && e <= |t| && t[e..] == Laid(gaps[1..], ts[1..])
    ensures Ends(ts[0], At(t, e))
  {
    LegalRest(gaps, ts);
    if e < |t| {
      assert t[e] == t[e..][0];
      FirstChar(gaps[1..], ts[1..]);
      Classes(t[e]);
      if gaps[1] == "" {
        assert !Apart(ts[0], ts[1]) && GoodTok(ts[1]);
      }
    }
  }

  lemma Cut(t: Text, i: nat, a: string, b: string)
    requires i <= |t| && t[i..] == a + b
    ensures i + |a| <= |t| && t[i..i + |a|] == a && t[i + |a|..] == b
  {
    assert t[i..i + |a|] == t[i..][..|a|] && t[i + |a|..] == t[i..][|a|..];
  }

  lemma LaidGap(t: Text, i: nat, gaps: seq<string>, ts: seq<Tok>)
    requires i <= |t| && Legal(gaps, ts) && t[i..] == Laid(gaps, ts)
    ensures var n := |gaps[0]|; i + n <= |t| && Blank(t[i..i + n]) && (ts == [] ==> i + n == |t|)
  {
    assert Blank(gaps[0]);
    var rest := if ts == [] then "" else Spell(ts[0]) + Laid(gaps[1..], ts[1..]);
    assert Laid(gaps, ts) == gaps[0] + rest;
    Cut(t, i, gaps[0], rest);
  }

  lemma LaidTok(t: Text, i: nat, gaps: seq<string>, ts: seq<Tok>)
    requires i <= |t| && Legal(gaps, ts) && ts != [] && t[i..] == Laid(gaps, ts)
    ensures var b := i + |gaps[0]|;
            var e := b + |Spell(ts[0])|;
            e <= |t| && t[b..e] == Spell(ts[0]) && t[e..] == Laid(gaps[1..], ts[1..])
  {
    var rest := Laid(gaps[1..], ts[1..]);
    assert Laid(gaps, ts) == gaps[0] + (Spell(ts[0]) + rest);
    Cut(t, i, gaps[0], Spell(ts[0]) + rest);
    Cut(t, i + |gaps[0]|, Spell(ts[0]), rest);
  }

  lemma NoToken(t: Text, i: nat)
    requires i <= |t| && Skip(t, i) == |t|
    ensures Toks(t, i) == []
  {
  }

  lemma SameToken(t: Text, i: nat, j: nat)
    requires i <= |t| && j <= |t| && Skip(t, i) == Skip(t, j)
    ensures GetToken(t, i) == GetToken(t, j)
  {
  }

  /** The first token is taken off. */
  lemma OneOff(t: Text, i: nat, j: nat, e: nat, ts: seq<Tok>)
    requires i <= |t| && j <= |t| && e <= |t| && ts != [] && Skip(t, i) == Skip(t, j)
    requires GetToken(t, j).kind != '\0' && TokOf(t, GetToken(t, j)) == ts[0] && GetToken(t, j).eq == e
    requires Toks(t, e) == ts[1..]
    ensures Toks(t, i) == ts
  {
    SameToken(t, i, j);
    SkipIdle(t, e);
    assert ts == [ts[0]] + ts[1..];
  }

  /** However legal tokens are laid out, they are read back. */
  lemma {:induction false} LaidLexes(t: Text, i: nat, gaps: seq<string>, ts: seq<Tok>)
    requires i <= |t| && Legal(gaps, ts) && t[i..] == Laid(gaps, ts)
    ensures Toks(t, i) == ts
    decreases |ts|
  {
    var b := i + |gaps[0]|;
    LaidGap(t, i, gaps, ts);
    SkipGap(t, i, |gaps[0]|);
    if ts == [] {
      NoToken(t, i);
    } else {
      var e := b + |Spell(ts[0])|;
      LaidTok(t, i, gaps, ts);
      FirstEnds(gaps, ts, t, e);
      TokenThere(t, b, e, ts[0]);
      LegalRest(gaps, ts);
      LaidLexes(t, e, gaps[1..], ts[1..]);
      OneOff(t, i, b, e, ts);
    }
  }

  // --- Every text is its tokens, laid out ---

  lemma {:induction false} SkipBlanks(t: Text, i: nat)
    requires i <= |t|
    ensures Blank(t[i..Skip(t, i)])
    decreases |t| - i
  {
    if i < |t| && IsSpace(t[i]) {
      SkipBlanks(t, i + 1);
      Classes(t[i]);
      assert t[i..Skip(t, i)] == [t[i]] + t[i + 1..Skip(t, i + 1)];
    }
  }

  lemma {:induction false} WordChars(t: Text, i: nat)
    requires i <= |t|
    ensures forall k | i <= k < WordEnd(t, i) :: IsWordChar(t[k])
    decreases |t| - i
  {
    if i < |t| && IsWordChar(t[i]) {
      WordChars(t, i + 1);
    }
  }

  /** A token found is a legal one, spelled as the text has it, and ended by what follows. */
  lemma FoundToken(t: Text, i: nat)
    requires i <= |t| && GetToken(t, i).kind != '\0'
    ensures var r := GetToken(t, i);
            GoodTok(TokOf(t, r)) && Spell(TokOf(t, r)) == t[r.q..r.eq] && Ends(TokOf(t, r), At(t, r.eq)) &&
            r.q == Skip(t, i) && r.next == Skip(t, r.eq)
  {
    var r := GetToken(t, i);
    var c := t[r.q];
    Classes(c);
    if r.kind == 'a' {
      WordChars(t, r.q);
      forall k | 0 <= k < r.eq - r.q
        ensures t[r.q..r.eq][k] != '\0' && t[r.q..r.eq][k] !in BLANKS && t[r.q..r.eq][k] !in SYMBOLS
      {
        Classes(t[r.q + k]);
      }
    }
  }

  /** Two tokens with nothing in between are not read as something else. */
  lemma NotApart(a: Tok, b: Tok, c: char)
    requires GoodTok(a) && GoodTok(b) && Ends(a, c) && c == Spell(b)[0]
    ensures !Apart(a, b)
  {
    Classes(c);
  }

  lemma LaidOne(t: Text, i: nat, gap: string, tok: Tok, gaps: seq<string>, ts: seq<Tok>)
    requires Blank(gap) && GoodTok(tok) && Legal(gaps, ts) && (gaps[0] == "" && ts != [] ==> !Apart(tok, ts[0]))
    ensures Legal([gap] + gaps, [tok] + ts) && Laid([gap] + gaps, [tok] + ts) == gap + Spell(tok) + Laid(gaps, ts)
  {
    var g, u := [gap] + gaps, [tok] + ts;
    assert g[1..] == gaps && u[1..] == ts;
    forall k | 0 < k < |u| && Apart(u[k - 1], u[k])
      ensures g[k] != ""
    {
      if k > 1 {
        assert Apart(ts[k - 2], ts[k - 1]);
      }
    }
  }

  lemma ThreeParts(t: string, i: nat, a: nat, b: nat)
    requires i <= a <= b <= |t|
    ensures t[i..] == t[i..a] + t[a..b] + t[b..]
  {
  }

  lemma {:induction false} LaidExists(t: Text, i: nat) returns (gaps: seq<string>)
    requires i <= |t|
    ensures Legal(gaps, Toks(t, i)) && t[i..] == Laid(gaps, Toks(t, i))
    decreases |t| - i
  {
    var r := GetToken(t, i);
    SkipBlanks(t, i);
    if r.kind == '\0' {
      gaps := [t[i..]];
    } else {
      FoundToken(t, i);
      SkipIdle(t, r.eq);
      var rest := LaidExists(t, r.eq);
      var tok := TokOf(t, r);
      if rest[0] == "" && Toks(t, r.eq) != [] {
        assert t[r.eq] == t[r.eq..][0];
        FirstChar(rest, Toks(t, r.eq));
        NotApart(tok, Toks(t, r.eq)[0], t[r.eq]);
      }
      LaidOne(t, i, t[i..r.q], tok, rest, Toks(t, r.eq));
      gaps := [t[i..r.q]] + rest;
      ThreeParts(t, i, r.q, r.eq);
    }
  }

  /** The tokens of a text are the ones it lays out. */
  lemma ToksExactly(t: Text, ts: seq<Tok>)
    ensures Toks(t, 0) == ts <==> exists gaps :: Legal(gaps, ts) && t == Laid(gaps, ts)
  {
    assert t[0..] == t;
    if Toks(t, 0) == ts {
      var gaps := LaidExists(t, 0);
      assert Legal(gaps, ts) && t == Laid(gaps, ts);
    }
    if gaps :| Legal(gaps, ts) && t == Laid(gaps, ts) {
      LaidLexes(t, 0, gaps, ts);
    }
  }
}
