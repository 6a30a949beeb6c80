/** The tokenizer shared by every word-level detector of the analyzer:
    `re.findall(r'\b\w+\b', text.lower())` (text_analyzer.py:26, 32, 51, 64,
    86, 104). `\w+` is greedy and the scan resumes after each match, so the
    tokens are exactly the maximal runs of word characters, left to right. */
module Tokenizer {
  import opened Characters

  /** A token: a non-empty run of word characters. */
  predicate IsWord(w: string) {
    |w| > 0 && forall i :: 0 <= i < |w| ==> IsWordChar(w[i])
  }

  /** `re.findall(r'\b\w+\b', s)`. */
  function Tokens(s: string): (ws: seq<string>)
    ensures forall k :: 0 <= k < |ws| ==> IsWord(ws[k])
    ensures |ws| <= |s|
    decreases |s|
  {
    if s == [] then []
    else if !IsWordChar(s[0]) then Tokens(s[1..])
    else
      var n := RunLength(s, IsWordChar);
      RunLengthPrefix(s, IsWordChar);
      [s[..n]] + Tokens(s[n..])
  }

  /** The token sequence every detector works on: the tokens of `text.lower()`. */
  function Words(text: string): (ws: seq<string>)
    ensures forall k :: 0 <= k < |ws| ==> IsWord(ws[k]) && IsLowerCase(ws[k])
  {
    TokensOfLower(text);
    Tokens(LowerString(text))
  }

  /** Each token lowered, as `[w.lower() for w in ws]`. */
  function LowerAll(ws: seq<string>): (r: seq<string>)
    ensures |r| == |ws|
    ensures forall k :: 0 <= k < |ws| ==> r[k] == LowerString(ws[k]) && IsLowerCase(r[k])
  {
    if ws == [] then [] else [LowerString(ws[0])] + LowerAll(ws[1..])
  }

  /** Words separated by single spaces, as `' '.join(ws)`. */
  function JoinWords(ws: seq<string>): string {
    if ws == [] then ""
    else if |ws| == 1 then ws[0]
    else ws[0] + " " + JoinWords(ws[1..])
  }

  /** A lone word is its own single token. */
  lemma TokensOfWord(w: string)
    requires IsWord(w)
    ensures Tokens(w) == [w]
  {
    assert RunLength(w, IsWordChar) == |w|;
    assert w[|w|..] == [];
    assert w[..|w|] == w;
  }

  /** A string without word characters has no tokens. */
  lemma {:induction false} TokensOfNonWords(s: string)
    requires forall i :: 0 <= i < |s| ==> !IsWordChar(s[i])
    ensures Tokens(s) == []
  {
    if s != [] {
      TokensOfNonWords(s[1..]);
    }
  }

  /** A non-word character splits the text: the tokens of both sides are
      found independently, none of them crossing the separator. */
  lemma {:induction false} TokensAroundSeparator(a: string, c: char, b: string)
    requires !IsWordChar(c)
    ensures Tokens(a + [c] + b) == Tokens(a) + Tokens(b)
    decreases |a|
  {
    if a == [] {
      SeparatorFirst(c, b);
    } else if !IsWordChar(a[0]) {
      SkipNonWordBeforeSeparator(a, c, b);
      TokensAroundSeparator(a[1..], c, b);
    } else {
      var n := WordBeforeSeparator(a, c, b);
      TokensAroundSeparator(a[n..], c, b);
      AppendAssociative([a[..n]], Tokens(a[n..]), Tokens(b));
    }
  }

  lemma AppendAssociative<T>(x: seq<T>, y: seq<T>, z: seq<T>)
    ensures x + (y + z) == x + y + z
  {
  }

  lemma SeparatorFirst(c: char, b: string)
    requires !IsWordChar(c)
    ensures Tokens([] + [c] + b) == Tokens(b)
  {
    assert [] + [c] + b == [c] + b;
    assert ([c] + b)[1..] == b;
  }

  lemma SkipNonWordBeforeSeparator(a: string, c: char, b: string)
    requires a != [] && !IsWordChar(a[0])
    ensures Tokens(a + [c] + b) == Tokens(a[1..] + [c] + b)
  {
    var s := a + [c] + b;
    assert s[0] == a[0];
    assert s[1..] == a[1..] + [c] + b;
  }

  /** A text that starts with a word yields that word first, and the
      separator after `a` cannot extend it. */
  lemma WordBeforeSeparator(a: string, c: char, b: string) returns (n: nat)
    requires a != [] && IsWordChar(a[0]) && !IsWordChar(c)
    ensures 0 < n <= |a|
    ensures Tokens(a) == [a[..n]] + Tokens(a[n..])
    ensures Tokens(a + [c] + b) == [a[..n]] + Tokens(a[n..] + [c] + b)
  {
    n := RunLength(a, IsWordChar);
    var s := a + [c] + b;
    RunAcrossSeparator(a, c, b);
    SlicesAroundSeparator(a, c, b, n);
    TokensOfLeadingWord(s);
    TokensOfLeadingWord(a);
  }

  lemma RunAcrossSeparator(a: string, c: char, b: string)
    requires !IsWordChar(c)
    ensures RunLength(a + [c] + b, IsWordChar) == RunLength(a, IsWordChar)
  {
    assert a + [c] + b == a + ([c] + b);
    RunLengthAppend(a, [c] + b, IsWordChar);
    assert ([c] + b)[0] == c;
  }

  lemma SlicesAroundSeparator(a: string, c: char, b: string, n: nat)
    requires n <= |a|
    ensures (a + [c] + b)[..n] == a[..n]
    ensures (a + [c] + b)[n..] == a[n..] + [c] + b
  {
  }

  /** Round trip: tokenizing words joined by spaces gives the words back. */
  lemma {:induction false} TokensOfJoinWords(ws: seq<string>)
    requires forall k :: 0 <= k < |ws| ==> IsWord(ws[k])
    ensures Tokens(JoinWords(ws)) == ws
  {
    if ws == [] {
    } else if |ws| == 1 {
      TokensOfWord(ws[0]);
    } else {
      TokensAroundSeparator(ws[0], ' ', JoinWords(ws[1..]));
      TokensOfWord(ws[0]);
      TokensOfJoinWords(ws[1..]);
      assert JoinWords(ws) == ws[0] + [' '] + JoinWords(ws[1..]);
      assert ws == [ws[0]] + ws[1..];
    }
  }

  lemma LowerAllCons(w: string, ws: seq<string>)
    ensures LowerAll([w] + ws) == [LowerString(w)] + LowerAll(ws)
  {
    assert ([w] + ws)[1..] == ws;
  }

  lemma {:induction false} RunLengthOfLower(s: string)
    ensures RunLength(LowerString(s), IsWordChar) == RunLength(s, IsWordChar)
  {
    if s != [] && IsWordChar(s[0]) {
      assert LowerString(s)[1..] == LowerString(s[1..]);
      RunLengthOfLower(s[1..]);
    }
  }

  /** A text starting with a word character yields its leading run first. */
  lemma TokensOfLeadingWord(s: string)
    requires s != [] && IsWordChar(s[0])
    ensures Tokens(s) == [s[..RunLength(s, IsWordChar)]] + Tokens(s[RunLength(s, IsWordChar)..])
  {
  }

  /** Lowering a string lowers both parts of any split of it. */
  lemma LowerStringSplit(s: string, n: nat)
    requires n <= |s|
    ensures LowerString(s)[..n] == LowerString(s[..n])
    ensures LowerString(s)[n..] == LowerString(s[n..])
  {
    var a, b := s[..n], s[n..];
    assert s == a + b;
    LowerStringAppend(a, b);
    var la, lb := LowerString(a), LowerString(b);
    assert |la| == n;
    assert (la + lb)[..n] == la && (la + lb)[n..] == lb;
  }

  /** Lowercasing commutes with tokenizing: the tokens of `text.lower()` are
      the lowered tokens of `text`, so lowering never splits or merges words. */
  lemma {:induction false} TokensOfLower(s: string)
    ensures Tokens(LowerString(s)) == LowerAll(Tokens(s))
    decreases |s|
  {
    var l := LowerString(s);
    if s == [] {
    } else if !IsWordChar(s[0]) {
      assert l[1..] == LowerString(s[1..]);
      TokensOfLower(s[1..]);
    } else {
      var n := RunLength(s, IsWordChar);
      RunLengthOfLower(s);
      LowerStringSplit(s, n);
      TokensOfLeadingWord(l);
      TokensOfLeadingWord(s);
      TokensOfLower(s[n..]);
      LowerAllCons(s[..n], Tokens(s[n..]));
    }
  }
}
