/** The `TextAnalyzer` class (text_analyzer.py:5-138): the two lists set up by
    `__init__`, the two detectors that read them (`find_forbidden_expressions`
    and `find_problematic_adjectives`) and `analyze_text`, which gathers every
    detector's result into one report. */
module Analyzer {
  import opened Characters
  import opened Sequences
  import opened Tokenizer
  import opened Sentences
  import opened Detectors
  import opened CommaRule

  /** The expressions `__init__` stores in `self.forbidden_expressions`, in
      their declared order. */
  const ForbiddenExpressions: seq<string> := [
    "ya que", "de que", "puesto que", "etc.", "pero",
    "puede lograr", "pueden motivar", "puede", "pueden",
    "pretende", "su", "sus"
  ]

  /** The adjectives `__init__` stores in `self.problematic_adjectives`. */
  const ProblematicAdjectives: seq<string> := [
    "grande", "pequeño", "muchos", "pocos", "algunos",
    "varios", "diversas", "múltiples"
  ]

  // ---------------------------------------------------------------------
  // Substring search: Python's `p in s` on strings

  /** `p` occurs in `s` at position `i`. */
  predicate OccursAt(p: string, s: string, i: int) {
    0 <= i <= |s| - |p| && s[i..i + |p|] == p
  }

  /** `p` occurs in `s` as a contiguous substring. */
  ghost predicate Occurs(p: string, s: string) {
    exists i :: OccursAt(p, s, i)
  }

  /** `p in s`: a left-to-right search for `p` in `s`. */
  function Contains(s: string, p: string): (b: bool)
    ensures b <==> Occurs(p, s)
    decreases |s|
  {
    if |p| > |s| then false
    else if s[..|p|] == p then
      assert OccursAt(p, s, 0);
      true
    else
      OccursAfterFirst(p, s);
      Contains(s[1..], p)
  }

  /** When `s` does not start with `p`, `p` occurs in `s` exactly when it
      occurs in `s` without its first character. */
  lemma OccursAfterFirst(p: string, s: string)
    requires |p| <= |s| && s[..|p|] != p
    ensures Occurs(p, s) <==> Occurs(p, s[1..])
  {
    if Occurs(p, s) {
      var i :| OccursAt(p, s, i);
      assert i != 0;
      assert s[1..][i - 1..i - 1 + |p|] == s[i..i + |p|];
      assert OccursAt(p, s[1..], i - 1);
    }
    if Occurs(p, s[1..]) {
      var j :| OccursAt(p, s[1..], j);
      assert s[j + 1..j + 1 + |p|] == s[1..][j..j + |p|];
      assert OccursAt(p, s, j + 1);
    }
  }

  /** An occurrence of an occurrence is an occurrence. */
  lemma OccursTransitive(a: string, b: string, s: string)
    requires Occurs(a, b) && Occurs(b, s)
    ensures Occurs(a, s)
  {
    var i :| OccursAt(a, b, i);
    var j :| OccursAt(b, s, j);
    forall k | 0 <= k < |a|
      ensures s[j + i..j + i + |a|][k] == a[k]
    {
      assert s[j + i + k] == s[j..j + |b|][i + k] == b[i + k];
      assert b[i + k] == b[i..i + |a|][k];
    }
    assert OccursAt(a, s, j + i);
  }

  /** A lowercase pattern that occurs in the text as given also occurs in
      the lowered text: searching `text.lower()` loses no occurrence. */
  lemma OccursInLowered(p: string, s: string)
    requires IsLowerCase(p) && Occurs(p, s)
    ensures Occurs(p, LowerString(s))
  {
    var i :| OccursAt(p, s, i);
    var l := LowerString(s);
    assert l[i..i + |p|] == p by {
      forall k | 0 <= k < |p|
        ensures l[i..i + |p|][k] == p[k]
      {
        assert l[i + k] == Lower(s[i + k]);
        assert s[i + k] == s[i..i + |p|][k];
      }
    }
    assert OccursAt(p, l, i);
  }

  // ---------------------------------------------------------------------
  // Forbidden expressions (text_analyzer.py:73-82)

  /** `[e for e in exprs if e in lowered]`: the expressions occurring in
      `lowered`, in their order in `exprs`, one entry per entry of `exprs`. */
  function ExpressionsIn(exprs: seq<string>, lowered: string): (r: seq<string>)
    ensures IsSubsequence(r, exprs)
    ensures forall e :: Count(r, e) == if Occurs(e, lowered) then Count(exprs, e) else 0
  {
    if exprs == [] then []
    else
      var rest := ExpressionsIn(exprs[1..], lowered);
      if Contains(lowered, exprs[0]) then
        assert ([exprs[0]] + rest)[1..] == rest;
        [exprs[0]] + rest
      else rest
  }

  /** The filter grows by one expression at a time, as the loop of
      `find_forbidden_expressions` does. */
  lemma {:induction false} ExpressionsInSnoc(exprs: seq<string>, e: string, lowered: string)
    ensures ExpressionsIn(exprs + [e], lowered) ==
      ExpressionsIn(exprs, lowered) + (if Occurs(e, lowered) then [e] else [])
  {
    if exprs == [] {
      assert [] + [e] == [e];
    } else {
      assert (exprs + [e])[0] == exprs[0] && (exprs + [e])[1..] == exprs[1..] + [e];
      ExpressionsInSnoc(exprs[1..], e, lowered);
    }
  }

  lemma ExpressionsInPrefix(exprs: seq<string>, i: nat, lowered: string)
    requires i < |exprs|
    ensures ExpressionsIn(exprs[..i + 1], lowered) ==
      ExpressionsIn(exprs[..i], lowered) + (if Occurs(exprs[i], lowered) then [exprs[i]] else [])
  {
    assert exprs[..i + 1] == exprs[..i] + [exprs[i]];
    ExpressionsInSnoc(exprs[..i], exprs[i], lowered);
  }

  /** Every forbidden expression is written in lowercase, so comparing it
      with `text.lower()` makes the search case-insensitive. */
  lemma ForbiddenExpressionsAreLowerCase()
    ensures forall e :: e in ForbiddenExpressions ==> IsLowerCase(e) && e != []
  {
  }

  /** An expression typed into the text as it is listed is always reported,
      whatever the case of the text around it. */
  lemma ForbiddenFoundAsTyped(text: string, e: string)
    requires e in ForbiddenExpressions && Occurs(e, text)
    ensures e in ExpressionsIn(ForbiddenExpressions, LowerString(text))
  {
    ForbiddenExpressionsAreLowerCase();
    OccursInLowered(e, text);
    FoundIff(ForbiddenExpressions, LowerString(text), e);
  }

  /** Every adjective is a lowercase word: given alone, it is the one token
      of its own text, so each of them can be reported. */
  lemma ProblematicAdjectivesAreWords()
    ensures forall a :: a in ProblematicAdjectives ==> Words(a) == [a]
  {
    forall a | a in ProblematicAdjectives
      ensures Words(a) == [a]
    {
      assert IsWord(a) && IsLowerCase(a);
      LowerStringOfLowerCase(a);
      TokensOfWord(a);
    }
  }

  /** Membership in the result: an expression is reported exactly when it
      is configured and occurs in the lowered text. */
  lemma FoundIff(exprs: seq<string>, lowered: string, e: string)
    ensures e in ExpressionsIn(exprs, lowered) <==> e in exprs && Occurs(e, lowered)
  {
    assert Count(ExpressionsIn(exprs, lowered), e) == if Occurs(e, lowered) then Count(exprs, e) else 0;
  }

  /** When a configured expression `a` occurs inside another one, `b`, the
      search has no word boundaries, so reporting `b` reports `a` too. */
  lemma ReportedWithin(exprs: seq<string>, lowered: string, a: string, b: string)
    requires a in exprs && Occurs(a, b)
    ensures b in ExpressionsIn(exprs, lowered) ==> a in ExpressionsIn(exprs, lowered)
  {
    FoundIff(exprs, lowered, a);
    FoundIff(exprs, lowered, b);
    if Occurs(b, lowered) {
      OccursTransitive(a, b, lowered);
    }
  }

  /** Entries of the list that are prefixes of others: "puede lograr" and
      "pueden" are always reported with "puede", "pueden motivar" with
      "pueden", and "sus" with "su". */
  lemma ForbiddenReportsOverlap(lowered: string)
    ensures var found := ExpressionsIn(ForbiddenExpressions, lowered);
      && ("puede lograr" in found ==> "puede" in found)
      && ("pueden motivar" in found ==> "pueden" in found)
      && ("pueden" in found ==> "puede" in found)
      && ("sus" in found ==> "su" in found)
  {
    var found := ExpressionsIn(ForbiddenExpressions, lowered);
    assert "puede lograr" in found ==> "puede" in found by {
      PrefixReportedWithin(ForbiddenExpressions, lowered, 7, 5);
    }
    assert "pueden motivar" in found ==> "pueden" in found by {
      PrefixReportedWithin(ForbiddenExpressions, lowered, 8, 6);
    }
    assert "pueden" in found ==> "puede" in found by {
      PrefixReportedWithin(ForbiddenExpressions, lowered, 7, 8);
    }
    assert "sus" in found ==> "su" in found by {
      PrefixReportedWithin(ForbiddenExpressions, lowered, 10, 11);
    }
  }

  /** ReportedWithin for an entry `exprs[i]` that is a prefix of `exprs[j]`. */
  lemma PrefixReportedWithin(exprs: seq<string>, lowered: string, i: nat, j: nat)
    requires i < |exprs| && j < |exprs|
    requires |exprs[i]| <= |exprs[j]| && exprs[j][..|exprs[i]|] == exprs[i]
    ensures exprs[j] in ExpressionsIn(exprs, lowered) ==> exprs[i] in ExpressionsIn(exprs, lowered)
  {
    assert OccursAt(exprs[i], exprs[j], 0);
    ReportedWithin(exprs, lowered, exprs[i], exprs[j]);
  }

  /** There is no word-boundary test: "su" is reported for the single word
      "resultado". */
  lemma SuReportedInsideResultado()
    ensures "su" in ExpressionsIn(ForbiddenExpressions, LowerString("resultado"))
  {
    ReportedInsideWord("resultado", 10, 2);
  }

  /** Likewise "pero" is reported for the single word "perorata". */
  lemma PeroReportedInsidePerorata()
    ensures "pero" in ExpressionsIn(ForbiddenExpressions, LowerString("perorata"))
  {
    ReportedInsideWord("perorata", 4, 0);
  }

  /** The forbidden expression at index `k` is reported for a lowercase
      text that holds it at position `i`. */
  lemma ReportedInsideWord(text: string, k: nat, i: nat)
    requires IsLowerCase(text) && k < |ForbiddenExpressions|
    requires OccursAt(ForbiddenExpressions[k], text, i)
    ensures ForbiddenExpressions[k] in ExpressionsIn(ForbiddenExpressions, LowerString(text))
  {
    LowerStringOfLowerCase(text);
    FoundIff(ForbiddenExpressions, text, ForbiddenExpressions[k]);
  }

  /** The empty text has no expression in it: every listed expression is
      non-empty. */
  lemma NothingForbiddenInEmptyText()
    ensures ExpressionsIn(ForbiddenExpressions, LowerString("")) == []
  {
    var r := ExpressionsIn(ForbiddenExpressions, LowerString(""));
    if r != [] {
      FoundIff(ForbiddenExpressions, LowerString(""), r[0]);
      ForbiddenExpressionsAreLowerCase();
      assert false;
    }
  }

  // ---------------------------------------------------------------------
  // The report of `analyze_text` (text_analyzer.py:126-138)

  /** The dictionary `analyze_text` returns, one field per key. */
  datatype Report = Report(
    wordCount: nat,
    sentenceCount: nat,
    repeatedWords: map<string, nat>,
    participles: seq<string>,
    gerunds: seq<string>,
    forbiddenExpressions: seq<string>,
    problematicAdjectives: seq<string>,
    commaBeforeY: seq<string>,
    specificWordCounts: map<string, nat>
  )

  /** On empty text there are no tokens, so every word-level result is
      empty or zero. With the postcondition of TextAnalyzer.AnalyzeText this
      fixes the word-level part of the report of `analyze_text("")`. */
  lemma EmptyTextHasNoWords()
    ensures Words("") == []
    ensures CountWords("") == 0
    ensures FindRepeatedWords("") == map[]
    ensures forall w :: w in CountSpecificWords("") ==> CountSpecificWords("")[w] == 0
  {
    assert LowerString("") == [];
  }

  /** Empty text has no sentence, no comma before "y" and no forbidden
      expression. */
  lemma EmptyTextHasNoFindings()
    ensures CountSentences("") == 0
    ensures CheckCommaBeforeY("") == []
    ensures ExpressionsIn(ForbiddenExpressions, LowerString("")) == []
  {
    assert IsBlank("");
    assert FindIter("", 0) == [];
    NothingForbiddenInEmptyText();
  }

  class TextAnalyzer {
    const forbiddenExpressions: seq<string>
    const problematicAdjectives: seq<string>

    /** `__init__`: the two lists, which no method ever changes. */
    constructor ()
      ensures forbiddenExpressions == ForbiddenExpressions
      ensures problematicAdjectives == ProblematicAdjectives
    {
      forbiddenExpressions := ForbiddenExpressions;
      problematicAdjectives := ProblematicAdjectives;
    }

    /** `find_forbidden_expressions`: the configured expressions that occur
        anywhere in `text.lower()`, in declared order, each reported once per
        entry; by ExpressionsIn, an order-keeping sublist of the list. */
    method FindForbiddenExpressions(text: string) returns (found: seq<string>)
      ensures found == ExpressionsIn(forbiddenExpressions, LowerString(text))
    {
      found := [];
      var textLower := LowerString(text);
      for i := 0 to |forbiddenExpressions|
        invariant found == ExpressionsIn(forbiddenExpressions[..i], textLower)
      {
        var expression := forbiddenExpressions[i];
        if Contains(textLower, expression) {
          found := found + [expression];
        }
        ExpressionsInPrefix(forbiddenExpressions, i, textLower);
      }
      assert forbiddenExpressions[..|forbiddenExpressions|] == forbiddenExpressions;
    }

    /** `find_problematic_adjectives`: the distinct tokens that are
        configured adjectives. */
    method FindProblematicAdjectives(text: string) returns (found: seq<string>)
      ensures NoDuplicates(found)
      ensures forall w :: w in found <==> w in Words(text) && w in problematicAdjectives
    {
      var words := Words(text);
      var adjectives: seq<string> := [];
      for i := 0 to |words|
        invariant forall w :: w in adjectives <==> w in words[..i] && w in problematicAdjectives
      {
        var word := words[i];
        if word in problematicAdjectives {
          adjectives := adjectives + [word];
        }
        assert words[..i + 1] == words[..i] + [word];
      }
      assert words[..|words|] == words;
      found := Dedup(adjectives);
    }

    /** `analyze_text`: every field of the report is the result of its
        detector on the same text. */
    method AnalyzeText(text: string) returns (report: Report)
      ensures report.wordCount == CountWords(text)
      ensures report.sentenceCount == CountSentences(text)
      ensures report.repeatedWords == FindRepeatedWords(text)
      ensures NoDuplicates(report.participles)
      ensures forall w :: w in report.participles <==> w in Words(text) && IsParticiple(w)
      ensures NoDuplicates(report.gerunds)
      ensures forall w :: w in report.gerunds <==> w in Words(text) && IsGerund(w)
      ensures report.forbiddenExpressions == ExpressionsIn(forbiddenExpressions, LowerString(text))
      ensures NoDuplicates(report.problematicAdjectives)
      ensures forall w :: w in report.problematicAdjectives <==> w in Words(text) && w in problematicAdjectives
      ensures report.commaBeforeY == CheckCommaBeforeY(text)
      ensures report.specificWordCounts == CountSpecificWords(text)
    {
      var participles := FindParticiples(text);
      var gerunds := FindGerunds(text);
      var forbidden := FindForbiddenExpressions(text);
      var adjectives := FindProblematicAdjectives(text);
      report := Report(
        CountWords(text),
        CountSentences(text),
        FindRepeatedWords(text),
        participles,
        gerunds,
        forbidden,
        adjectives,
        CheckCommaBeforeY(text),
        CountSpecificWords(text)
      );
    }
  }
}
