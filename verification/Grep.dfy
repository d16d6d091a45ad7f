/** The regular expression matcher of grep.c, against what its patterns denote. */
module Grep {
  /** One element of a pattern: a character (or '.') once, or any number of times. */
  datatype Item = One(c: char) | Star(c: char)

  /** Items in a row, and whether the match must reach the end of the text. */
  datatype Pattern = Pattern(items: seq<Item>, end: bool)

  /**
   A pattern without its leading '^': any character before '*' repeats, '*' or '$' included; only a final '$'
   anchors.
   */
  function Compile(re: string): Pattern {
    if re == "" then Pattern([], false)
    else if |re| >= 2 && re[1] == '*' then
      var p := Compile(re[2..]);
      Pattern([Star(re[0])] + p.items, p.end)
    else if re == "$" then Pattern([], true)
    else
      var p := Compile(re[1..]);
      Pattern([One(re[0])] + p.items, p.end)
  }

  predicate Fits(c: char, x: char) {
    c == '.' || c == x
  }

  predicate AllFit(c: char, w: string) {
    forall k | 0 <= k < |w| :: Fits(c, w[k])
  }

  /** The words a row of items denotes. */
  ghost predicate Denotes(items: seq<Item>, w: string) {
    if |items| == 0 then w == ""
    else match items[0]
      case One(c) => |w| > 0 && Fits(c, w[0]) && Denotes(items[1..], w[1..])
      case Star(c) => exists k :: 0 <= k <= |w| && AllFit(c, w[..k]) && Denotes(items[1..], w[k..])
  }

  /** The first `k` characters of the text match the pattern. */
  ghost predicate MatchesTo(p: Pattern, text: string, k: nat) {
    k <= |text| && Denotes(p.items, text[..k]) && (p.end ==> k == |text|)
  }

  /** Some prefix of the text matches. */
  ghost predicate PrefixMatch(p: Pattern, text: string) {
    exists k: nat :: MatchesTo(p, text, k)
  }

  /** Some substring matches; with a leading '^', some prefix. */
  ghost predicate Matched(re: string, text: string) {
    if |re| > 0 && re[0] == '^' then PrefixMatch(Compile(re[1..]), text)
    else exists s: nat :: s <= |text| && PrefixMatch(Compile(re), text[s..])
  }

  lemma NothingLeft(text: string)
    ensures PrefixMatch(Compile(""), text)
    ensures PrefixMatch(Compile("$"), text) <==> text == ""
  {
    assert MatchesTo(Compile(""), text, 0);
    if text == "" {
      assert MatchesTo(Compile("$"), text, 0);
    }
  }

  lemma OneMatch(c: char, p: Pattern, text: string)
    ensures PrefixMatch(Pattern([One(c)] + p.items, p.end), text) <==>
            |text| > 0 && Fits(c, text[0]) && PrefixMatch(p, text[1..])
  {
    var q := Pattern([One(c)] + p.items, p.end);
    assert q.items[1..] == p.items;
    if PrefixMatch(q, text) {
      var k: nat :| MatchesTo(q, text, k);
      assert text[..k][1..] == text[1..][..k - 1];
      assert MatchesTo(p, text[1..], k - 1);
    }
    if |text| > 0 && Fits(c, text[0]) && PrefixMatch(p, text[1..]) {
      var k: nat :| MatchesTo(p, text[1..], k);
      assert text[..k + 1][1..] == text[1..][..k];
      assert MatchesTo(q, text, k + 1);
    }
  }

  /** Dropping `i` characters that fit leaves a text on which the rest matches. */
  ghost predicate AfterSome(c: char, p: Pattern, text: string, i: nat) {
    i <= |text| && AllFit(c, text[..i]) && PrefixMatch(p, text[i..])
  }

  ghost predicate StarPrefix(c: char, p: Pattern, text: string) {
    exists i: nat :: AfterSome(c, p, text, i)
  }

  lemma StarMatch(c: char, p: Pattern, text: string)
    ensures PrefixMatch(Pattern([Star(c)] + p.items, p.end), text) <==> StarPrefix(c, p, text)
  {
    var q := Pattern([Star(c)] + p.items, p.end);
    assert q.items[1..] == p.items;
    if PrefixMatch(q, text) {
      var k: nat :| MatchesTo(q, text, k);
      var w := text[..k];
      var i :| 0 <= i <= |w| && AllFit(c, w[..i]) && Denotes(q.items[1..], w[i..]);
      assert w[..i] == text[..i] && w[i..] == text[i..][..k - i];
      assert MatchesTo(p, text[i..], k - i);
      assert AfterSome(c, p, text, i);
    }
    if i: nat :| AfterSome(c, p, text, i) {
      var k: nat :| MatchesTo(p, text[i..], k);
      var w := text[..i + k];
      assert w[..i] == text[..i] && w[i..] == text[i..][..k];
      assert MatchesTo(q, text, i + k);
    }
  }

  /** match: search for the pattern anywhere in the text, even at its empty end. */
  method Match(re: string, text: string) returns (found: bool)
    ensures found <==> Matched(re, text)
  {
    if |re| > 0 && re[0] == '^' {
      found := MatchHere(re[1..], text);
      return;
    }
    var s := 0;
    found := MatchHere(re, text[0..]);
    while !found && s < |text|
      invariant 0 <= s <= |text|
      invariant found <==> PrefixMatch(Compile(re), text[s..])
      invariant forall j: nat | j < s :: !PrefixMatch(Compile(re), text[j..])
      decreases |text| - s
    {
      s := s + 1;
      found := MatchHere(re, text[s..]);
    }
  }

  /** matchhere: search for the pattern at the beginning of the text. */
  method MatchHere(re: string, text: string) returns (found: bool)
    ensures found <==> PrefixMatch(Compile(re), text)
    decreases |re|, 0
  {
    NothingLeft(text);
    if re == "" {
      return true;
    }
    if |re| >= 2 && re[1] == '*' {
      var p := Compile(re[2..]);
      assert Compile(re) == Pattern([Star(re[0])] + p.items, p.end);
      StarMatch(re[0], p, text);
      found := MatchStar(re[0], re[2..], text);
      return;
    }
    if re[0] == '$' && |re| == 1 {
      assert re == "$";
      return text == "";
    }
    OneMatch(re[0], Compile(re[1..]), text);
    if text != "" && (re[0] == '.' || re[0] == text[0]) {
      found := MatchHere(re[1..], text[1..]);
      return;
    }
    found := false;
  }

  /** matchstar: search for c*re at the beginning of the text, shortest repetition first. */
  method MatchStar(c: char, re: string, text: string) returns (found: bool)
    ensures found <==> StarPrefix(c, Compile(re), text)
    decreases |re|, 1
  {
    var i := 0;
    found := MatchHere(re, text[0..]);
    while !found && i < |text| && (text[i] == c || c == '.')
      invariant 0 <= i <= |text| && AllFit(c, text[..i])
      invariant found <==> PrefixMatch(Compile(re), text[i..])
      invariant forall j: nat | j < i :: !PrefixMatch(Compile(re), text[j..])
      decreases |text| - i
    {
      i := i + 1;
      found := MatchHere(re, text[i..]);
    }
    if found {
      assert AfterSome(c, Compile(re), text, i);
    } else {
      forall j: nat
        ensures !AfterSome(c, Compile(re), text, j)
      {
        if i < j <= |text| {
          assert text[..j][i] == text[i];
        }
      }
    }
  }
}
