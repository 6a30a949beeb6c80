/** The word-level detectors of `TextAnalyzer` (text_analyzer.py) that do not
    depend on the analyzer's configured lists: word count, repeated words,
    participles, gerunds and the counts of specific function words. All of
    them work on Words(text), the tokens of `text.lower()`. */
module Detectors {
  import opened Sequences
  import opened Tokenizer

  /** `count_words` (text_analyzer.py:24-27). Lowercasing never splits or
      merges words, so the count is that of the tokens of the text as given. */
  function CountWords(text: string): (n: nat)
    ensures n == |Tokens(text)|
  {
    TokensOfLower(text);
    |Words(text)|
  }

  // ---------------------------------------------------------------------
  // Repeated words (text_analyzer.py:29-47)

  /** `common_words`: short closed-class words that are normal to repeat. */
  const CommonWords: set<string> := {
    "el", "la", "los", "las", "un", "una", "unos", "unas",
    "de", "del", "en", "con", "por", "para", "a", "al",
    "se", "es", "son", "y", "o", "que", "no", "si",
    "como", "cuando", "donde", "este", "esta", "estos", "estas"
  }

  /** The filter of `find_repeated_words`: not common and longer than two
      characters. */
  predicate IsContentWord(w: string) {
    w !in CommonWords && |w| > 2
  }

  /** `[word for word in words if word not in common_words and len(word) > 2]`. */
  function ContentWords(words: seq<string>): (r: seq<string>)
    ensures forall w :: Count(r, w) == if IsContentWord(w) then Count(words, w) else 0
  {
    if words == [] then []
    else if IsContentWord(words[0]) then [words[0]] + ContentWords(words[1..])
    else ContentWords(words[1..])
  }

  /** `find_repeated_words`: every content word that occurs more than once,
      mapped to its exact number of occurrences, and nothing else. */
  function FindRepeatedWords(text: string): (m: map<string, nat>)
    ensures forall w :: w in m <==> IsContentWord(w) && Count(Words(text), w) > 1
    ensures forall w :: w in m ==> m[w] == Count(Words(text), w)
  {
    var wordCounts := Counter(ContentWords(Words(text)));
    map w | w in wordCounts && wordCounts[w] > 1 :: wordCounts[w]
  }

  // ---------------------------------------------------------------------
  // Participles and gerunds (text_analyzer.py:49-71)

  /** `w.endswith(suffix)`. */
  predicate EndsWith(w: string, suffix: string) {
    |suffix| <= |w| && w[|w| - |suffix|..] == suffix
  }

  /** Words ending in -ado/-ido that `find_participios` does not report. */
  const NonParticiples: seq<string> := ["estado", "lado", "caso", "modo", "todo", "nido", "ido"]

  predicate IsParticiple(w: string) {
    (EndsWith(w, "ado") || EndsWith(w, "ido")) && w !in NonParticiples
  }

  predicate IsGerund(w: string) {
    EndsWith(w, "ando") || EndsWith(w, "endo")
  }

  /** `find_participios`: the distinct tokens that end in -ado or -ido and
      are not excluded. */
  method FindParticiples(text: string) returns (found: seq<string>)
    ensures NoDuplicates(found)
    ensures forall w :: w in found <==> w in Words(text) && IsParticiple(w)
  {
    var words := Words(text);
    var participles: seq<string> := [];
    for i := 0 to |words|
      invariant forall w :: w in participles <==> w in words[..i] && IsParticiple(w)
    {
      var word := words[i];
      if EndsWith(word, "ado") || EndsWith(word, "ido") {
        if word !in NonParticiples {
          participles := participles + [word];
        }
      }
      assert words[..i + 1] == words[..i] + [word];
    }
    assert words[..|words|] == words;
    found := Dedup(participles);
  }

  /** `find_gerundios`: the distinct tokens that end in -ando or -endo. */
  method FindGerunds(text: string) returns (found: seq<string>)
    ensures NoDuplicates(found)
    ensures forall w :: w in found <==> w in Words(text) && IsGerund(w)
  {
    var words := Words(text);
    var gerunds: seq<string> := [];
    for i := 0 to |words|
      invariant forall w :: w in gerunds <==> w in words[..i] && IsGerund(w)
    {
      var word := words[i];
      if EndsWith(word, "ando") || EndsWith(word, "endo") {
        gerunds := gerunds + [word];
      }
      assert words[..i + 1] == words[..i] + [word];
    }
    assert words[..|words|] == words;
    found := Dedup(gerunds);
  }

  /** "caso", "modo" and "todo" end in neither suffix, so only four entries
      of the exclusion list ever change the result. */
  lemma ParticipleExclusionsThatMatter(w: string)
    ensures IsParticiple(w) <==>
      (EndsWith(w, "ado") || EndsWith(w, "ido")) && w !in ["estado", "lado", "nido", "ido"]
  {
    assert !EndsWith("caso", "ado") && !EndsWith("caso", "ido") by {
      assert "caso"[1..] == "aso";
    }
    assert !EndsWith("modo", "ado") && !EndsWith("modo", "ido") by {
      assert "modo"[1..] == "odo";
    }
    assert !EndsWith("todo", "ado") && !EndsWith("todo", "ido") by {
      assert "todo"[1..] == "odo";
    }
  }

  lemma EndsWithThirdLast(w: string, suffix: string)
    requires EndsWith(w, suffix) && |suffix| >= 3
    ensures w[|w| - 3] == suffix[|suffix| - 3]
  {
    assert w[|w| - |suffix|..][|suffix| - 3] == w[|w| - 3];
  }

  /** No token is reported both as a participle and as a gerund: -ado and
      -ido words have a vowel where -ando and -endo words have an n. */
  lemma ParticiplesAreNotGerunds(w: string)
    ensures !(IsParticiple(w) && IsGerund(w))
  {
    if IsParticiple(w) && IsGerund(w) {
      if EndsWith(w, "ado") { EndsWithThirdLast(w, "ado"); } else { EndsWithThirdLast(w, "ido"); }
      if EndsWith(w, "ando") { EndsWithThirdLast(w, "ando"); } else { EndsWithThirdLast(w, "endo"); }
    }
  }

  // ---------------------------------------------------------------------
  // Specific-word counts (text_analyzer.py:101-119)

  /** The ten function words whose occurrences `count_specific_words` counts. */
  const SpecificWords: seq<string> := ["y", "pero", "que", "de", "el", "la", "en", "con", "por", "para"]

  /** `count_specific_words`: exactly the ten keys, each with its number of
      occurrences among the tokens. */
  function CountSpecificWords(text: string): (m: map<string, nat>)
    ensures forall w :: w in m <==> w in SpecificWords
    ensures forall w :: w in m ==> m[w] == Count(Words(text), w)
  {
    var words := Words(text);
    map w | w in SpecificWords :: Count(words, w)
  }

  lemma SpecificWordsDistinct()
    ensures NoDuplicates(SpecificWords)
  {
  }

  /** Sum of the counts in `m` over the keys `ks`. */
  function SumOver(m: map<string, nat>, ks: seq<string>): nat
    requires forall k :: k in ks ==> k in m
  {
    if ks == [] then 0 else m[ks[0]] + SumOver(m, ks[1..])
  }

  /** Occurrences of distinct words never add up to more than the tokens. */
  lemma {:induction false} CountsOfDistinctWords(words: seq<string>, ks: seq<string>)
    requires NoDuplicates(ks)
    ensures SumCounts(words, ks) <= |words|
    decreases |words|
  {
    if words == [] {
      NoCountsInEmpty(ks);
    } else {
      CountsOfDistinctWords(words[1..], ks);
      SumCountsStep(words, ks);
      OneHit(words[0], ks);
    }
  }

  lemma {:induction false} NoCountsInEmpty(ks: seq<string>)
    ensures SumCounts([], ks) == 0
  {
    if ks != [] {
      NoCountsInEmpty(ks[1..]);
    }
  }

  /** `sum(words.count(k) for k in ks)`. */
  function SumCounts(words: seq<string>, ks: seq<string>): nat {
    if ks == [] then 0 else Count(words, ks[0]) + SumCounts(words, ks[1..])
  }

  /** Number of positions of `ks` holding `w`. */
  function Hits(w: string, ks: seq<string>): nat {
    if ks == [] then 0 else (if ks[0] == w then 1 else 0) + Hits(w, ks[1..])
  }

  lemma {:induction false} SumCountsStep(words: seq<string>, ks: seq<string>)
    requires words != []
    ensures SumCounts(words, ks) == Hits(words[0], ks) + SumCounts(words[1..], ks)
  {
    if ks != [] {
      SumCountsStep(words, ks[1..]);
    }
  }

  lemma {:induction false} OneHit(w: string, ks: seq<string>)
    requires NoDuplicates(ks)
    ensures Hits(w, ks) <= 1
  {
    if ks != [] {
      OneHit(w, ks[1..]);
      if ks[0] == w {
        NoHit(w, ks[1..]);
      }
    }
  }

  lemma {:induction false} NoHit(w: string, ks: seq<string>)
    requires w !in ks
    ensures Hits(w, ks) == 0
  {
    if ks != [] {
      NoHit(w, ks[1..]);
    }
  }

  /** The ten specific counts together never exceed the word count. */
  lemma SpecificCountsBoundedByWordCount(text: string)
    ensures SumOver(CountSpecificWords(text), SpecificWords) <= CountWords(text)
  {
    var m := CountSpecificWords(text);
    var words := Words(text);
    SpecificWordsDistinct();
    CountsOfDistinctWords(words, SpecificWords);
    SumOverIsSumCounts(m, words, SpecificWords);
  }

  lemma {:induction false} SumOverIsSumCounts(m: map<string, nat>, words: seq<string>, ks: seq<string>)
    requires forall k :: k in ks ==> k in m && m[k] == Count(words, k)
    ensures SumOver(m, ks) == SumCounts(words, ks)
  {
    if ks != [] {
      SumOverIsSumCounts(m, words, ks[1..]);
    }
  }
}
