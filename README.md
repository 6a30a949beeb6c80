# Text analyzer for Spanish academic writing: a verified model

This project models `TextAnalyzer` from `text_analyzer.py`, the engine of a
writing assistant that flags common problems in Spanish academic prose.
Every check is a deterministic scan of one string:

- the word count;
- the sentence count;
- the content words that are repeated;
- participles (-ado/-ido) and gerunds (-ando/-endo);
- the forbidden expressions and the problematic adjectives configured in
  `__init__`;
- commas before the connective "y";
- the counts of ten function words.

`analyze_text` gathers all of these results into one report.

The modules follow the structure of the analyzer:

- `Characters` (characters.dfy): the character classes behind `\w`, `\s`
  and `str.strip()`, `str.lower()`, and maximal runs of a character class.
- `Sequences` (sequences.dfy): `list.count`, `collections.Counter` and
  `list(set(...))`.
- `Tokenizer` (tokenizer.dfy): `re.findall(r'\b\w+\b', text.lower())`,
  the tokenizer shared by every word-level check.
- `Sentences` (sentences.dfy): `count_sentences`. It strips the text,
  splits it with `re.split(r'[.!?]+', ...)` and counts the pieces that are
  not blank. The split is pinned down completely: its pieces are the only
  terminator-free pieces that interleave with the maximal runs of
  terminators to give the text. The count is proved equal to a one-pass
  scan of the text.
- `Detectors` (detectors.dfy): `count_words`, `find_repeated_words`,
  `find_participios`, `find_gerundios` and `count_specific_words`.
- `CommaRule` (comma_rule.dfy): `check_comma_before_y`, which is
  `re.finditer(r',\s+y\b', text, re.IGNORECASE)`. The scan is proved sound
  and complete against a declarative definition of a match.
- `Analyzer` (analyzer.dfy): the class `TextAnalyzer` with the two lists
  set by `__init__`, `find_forbidden_expressions` (substring search),
  `find_problematic_adjectives` and `analyze_text`.

The detectors written as expressions in Python are functions here. The
detectors written as loops that append to a local list are methods with
`for` loops and invariants. Each such method is proved against the
function or set-membership property that specifies it. The two lists are
`const` fields of the class, set by its constructor and never changed,
just as in `__init__`.

Single-word forbidden expressions get no word-boundary test:
text_analyzer.py:79 runs `expression in text_lower` for every entry. So
`Analyzer.SuReportedInsideResultado` and
`Analyzer.PeroReportedInsidePerorata` prove that "su" is reported for
"resultado" and "pero" for "perorata".

## Model

| member | source | states |
|---|---|---|
| Characters.IsWordChar | text_analyzer.py:26 | Python's `\w` on U+0000..U+00FF: letters, digits (including the superscripts and fractions that `str.isalnum` accepts) and `_`, and no other character |
| Characters.IsSpace | text_analyzer.py:123-124 | Python's `\s` and the set `str.strip()` removes on U+0000..U+00FF: space, `\t`..`\r`, U+001C..U+001F, U+0085 and U+00A0 |
| Characters.Lower | text_analyzer.py:26 | lowering a character never yields a capital letter, leaves every other character unchanged, and keeps word characters and whitespace in their class |
| Characters.LowerString | text_analyzer.py:26 | `text.lower()` keeps the length of the text and lowers each character in place |
| Characters.LowerStringIdempotent | text_analyzer.py:26 | lowering an already lowered text changes nothing |
| Characters.LowerStringAppend | text_analyzer.py:26 | lowering distributes over concatenation |
| Characters.RunLength | text_analyzer.py:26 | the length of the longest prefix in a character class: it stops at the end of the text or at a character outside the class |
| Characters.RunLengthPrefix | text_analyzer.py:26 | every character before that length is in the class, so the prefix is the longest one |
| Characters.RunLengthAppend | text_analyzer.py:26 | a run that stops inside the first part of a text ignores the rest; a run that fills the first part continues into the second |
| Sequences.Count | text_analyzer.py:107-116 | `list.count` is at most the length and is positive exactly for members |
| Sequences.CountAppend | text_analyzer.py:107-116 | counts add up over concatenation |
| Sequences.Counter | text_analyzer.py:44 | `Counter(xs)` has exactly the elements of `xs` as keys, each mapped to its number of occurrences |
| Sequences.Dedup | text_analyzer.py:60 | `list(set(xs))` has no duplicates and exactly the members of `xs` |
| Tokenizer.Tokens | text_analyzer.py:26 | every token is a non-empty run of word characters, and a text never has more tokens than characters |
| Tokenizer.Words | text_analyzer.py:26 | every token of `text.lower()` is a word in lowercase |
| Tokenizer.TokensOfWord | text_analyzer.py:26 | a single word is its own single token |
| Tokenizer.TokensOfNonWords | text_analyzer.py:26 | a text without word characters has no token |
| Tokenizer.TokensAroundSeparator | text_analyzer.py:26 | a non-word character splits the text: the tokens of the whole are the tokens of each side, in order, and none crosses it |
| Tokenizer.TokensOfJoinWords | text_analyzer.py:26 | round trip: tokenizing words joined by spaces gives the same words back |
| Tokenizer.TokensOfLower | text_analyzer.py:26 | tokenizing the lowered text gives the lowered tokens of the text: lowering never splits or merges words |
| Detectors.CountWords | text_analyzer.py:24-27 | the word count is the number of tokens of the text as given, not only of its lowered form |
| Detectors.ContentWords | text_analyzer.py:43 | the filter keeps every occurrence of a word longer than two characters that is not a common word, and no other occurrence |
| Detectors.FindRepeatedWords | text_analyzer.py:29-47 | a word is a key exactly when it is longer than two characters, not a common word and occurs more than once; it maps to its exact number of occurrences |
| Detectors.EndsWith | text_analyzer.py:55 | `w.endswith(suffix)`: the last `len(suffix)` characters of `w` are `suffix` |
| Detectors.FindParticiples | text_analyzer.py:49-60 | duplicate-free; holds exactly the tokens ending in -ado or -ido that are not in the exclusion list |
| Detectors.FindGerunds | text_analyzer.py:62-71 | duplicate-free; holds exactly the tokens ending in -ando or -endo |
| Detectors.ParticipleExclusionsThatMatter | text_analyzer.py:57 | "caso", "modo" and "todo" end in neither suffix, so only "estado", "lado", "nido" and "ido" ever change the result |
| Detectors.ParticiplesAreNotGerunds | text_analyzer.py:49-71 | no token is both a participle and a gerund |
| Detectors.CountSpecificWords | text_analyzer.py:101-119 | the keys are exactly the ten listed words, each mapped to its number of occurrences among the tokens |
| Detectors.CountsOfDistinctWords | text_analyzer.py:106-117 | the occurrences of distinct words never add up to more than the number of tokens |
| Detectors.SpecificCountsBoundedByWordCount | text_analyzer.py:101-119 | the ten specific counts together never exceed the word count |
| Sentences.StripLeft | text_analyzer.py:123 | `lstrip` returns a suffix of the text that does not start with whitespace |
| Sentences.StripRight | text_analyzer.py:123 | `rstrip` returns a prefix of the text that does not end with whitespace |
| Sentences.Strip | text_analyzer.py:123 | `strip` returns a text that neither starts nor ends with whitespace and is no longer than the input |
| Sentences.StripDecomposition | text_analyzer.py:123 | `strip` removes only a blank prefix and a blank suffix |
| Sentences.StripFacts | text_analyzer.py:123-124 | a stripped text is empty exactly when the original is blank, and stripping adds no terminator |
| Sentences.SplitSentences | text_analyzer.py:123 | `re.split` yields at least one piece; SplitIsInterleaving, SeparatorsAreRuns, InteriorPiecesNonEmpty and SplitUnique fix exactly which pieces |
| Sentences.SplitPiecesHaveNoTerminator | text_analyzer.py:123 | no piece holds `.`, `!` or `?`: each run of terminators is consumed whole as a separator |
| Sentences.SplitKeepsText | text_analyzer.py:123 | joining the pieces gives back the text with its terminators removed: no other character is lost or added |
| Sentences.SplitPieceCount | text_analyzer.py:123 | there is exactly one piece more than the text has maximal runs of terminators |
| Sentences.SeparatorsCount | text_analyzer.py:123 | there is one consumed run of terminators between every two pieces |
| Sentences.SeparatorsAreRuns | text_analyzer.py:123 | every consumed run is a non-empty stretch of `.`, `!` and `?` |
| Sentences.SplitIsInterleaving | text_analyzer.py:123 | the text is the pieces with the consumed runs put back between them, in order |
| Sentences.InteriorPiecesNonEmpty | text_analyzer.py:123 | only the first and the last piece can be empty, since the pattern's `+` makes each run maximal |
| Sentences.SplitUnique | text_analyzer.py:123 | any terminator-free pieces that interleave with non-empty terminator runs to give the text, with only the first and last piece allowed to be empty, are exactly the pieces `re.split` returns |
| Sentences.SplitOfTerminatorFree | text_analyzer.py:123 | a text without terminators is split into itself alone |
| Sentences.CountNonBlank | text_analyzer.py:124 | counting the pieces that are not blank never exceeds the number of pieces |
| Sentences.CountSentences | text_analyzer.py:121-124 | blank text has no sentence, and non-blank text without a terminator is one sentence |
| Sentences.CountNonBlankIsScan | text_analyzer.py:123-124 | split-then-count agrees with the one-pass reference scan |
| Sentences.StripKeepsScan | text_analyzer.py:123 | stripping the text first never changes the count |
| Sentences.CountSentencesIsScan | text_analyzer.py:121-124 | `count_sentences` equals the reference scan of the unstripped text |
| Sentences.CountSentencesAroundTerminator | text_analyzer.py:121-124 | the count is additive: a terminator between two texts adds their counts |
| CommaRule.IsCommaYMatch | text_analyzer.py:97 | the pattern `,\s+y\b` with IGNORECASE, stated declaratively: a comma, one or more whitespace characters, `y` or `Y`, then the end of the text or a non-word character |
| CommaRule.MatchAt | text_analyzer.py:97-98 | the engine's attempt at one position: greedy `\s+`, then `y`, then the boundary test; MatchAtSound and MatchAtComplete relate it to IsCommaYMatch |
| CommaRule.MatchAtSound | text_analyzer.py:97-98 | what the matcher finds at a position is a match of `,\s+y\b`, ignoring case |
| CommaRule.MatchAtComplete | text_analyzer.py:97-98 | a match at a position is unique, and the matcher finds it |
| CommaRule.FindIter | text_analyzer.py:98 | each reported span is a match, and the spans come in text order without overlap |
| CommaRule.MatchesDoNotNest | text_analyzer.py:97 | no match can start inside another match |
| CommaRule.FindIterComplete | text_analyzer.py:98 | every match in the text is reported |
| CommaRule.CheckCommaBeforeY | text_analyzer.py:95-99 | one string per match, in order: a comma, then whitespace, then `y` or `Y`, exactly the text of the match |
| CommaRule.CommaBeforeYComplete | text_analyzer.py:95-99 | every occurrence of the pattern has its own entry; the result is not deduplicated |
| Analyzer.Contains | text_analyzer.py:79 | `p in s` holds exactly when `p` occurs in `s` as a contiguous substring |
| Analyzer.OccursTransitive | text_analyzer.py:79 | an occurrence inside an occurrence is an occurrence in the text |
| Analyzer.OccursInLowered | text_analyzer.py:76-79 | searching `text.lower()` loses no occurrence of a lowercase expression |
| Analyzer.ExpressionsIn | text_analyzer.py:73-82 | the result keeps the configured order, and each expression appears as often as it is configured if it occurs in the text, otherwise never |
| Analyzer.ExpressionsInSnoc | text_analyzer.py:78-80 | the result grows by one expression per loop step, and only when that expression occurs |
| Analyzer.FoundIff | text_analyzer.py:73-82 | an expression is reported exactly when it is configured and occurs in the lowered text |
| Analyzer.ForbiddenExpressionsAreLowerCase | text_analyzer.py:12-16 | every configured expression is non-empty and lowercase |
| Analyzer.ForbiddenFoundAsTyped | text_analyzer.py:76-79 | an expression that appears in the text as listed is always reported, whatever the case of the surrounding text |
| Analyzer.ReportedWithin | text_analyzer.py:78-80 | when one configured expression occurs inside another, reporting the longer one reports the shorter one |
| Analyzer.ForbiddenReportsOverlap | text_analyzer.py:12-16 | "puede lograr" and "pueden" are always reported together with "puede", "pueden motivar" with "pueden", and "sus" with "su" |
| Analyzer.SuReportedInsideResultado | text_analyzer.py:79 | no word-boundary test: "su" is reported for the text "resultado" |
| Analyzer.PeroReportedInsidePerorata | text_analyzer.py:79 | no word-boundary test: "pero" is reported for the text "perorata" |
| Analyzer.NothingForbiddenInEmptyText | text_analyzer.py:73-82 | no expression is reported for the empty text |
| Analyzer.ProblematicAdjectivesAreWords | text_analyzer.py:19-22 | each configured adjective is a single lowercase token, so each one can be reported |
| Analyzer.EmptyTextHasNoWords | text_analyzer.py:126-138 | on empty text there is no token, the word count is 0, there are no repeated words and every specific count is 0 |
| Analyzer.EmptyTextHasNoFindings | text_analyzer.py:126-138 | on empty text the sentence count is 0 and there is no comma before "y" and no forbidden expression |
| Analyzer.Report | text_analyzer.py:128-138 | the dictionary `analyze_text` returns, one field per key: word and sentence counts, repeated words, participles, gerunds, forbidden expressions, problematic adjectives, commas before "y", specific-word counts |
| Analyzer.TextAnalyzer.constructor | text_analyzer.py:10-22 | the analyzer holds the twelve forbidden expressions and the eight adjectives, in their declared order |
| Analyzer.TextAnalyzer.FindForbiddenExpressions | text_analyzer.py:73-82 | the loop returns exactly the in-order filter of the configured expressions that occur in `text.lower()` |
| Analyzer.TextAnalyzer.FindProblematicAdjectives | text_analyzer.py:84-93 | duplicate-free; holds exactly the tokens that are configured adjectives |
| Analyzer.TextAnalyzer.AnalyzeText | text_analyzer.py:126-138 | each field of the report is the result of its check on the same text |

## Left out

- Character classes beyond Latin-1. `\w`, `\s` and `str.lower()` are defined
  exactly for U+0000..U+00FF, which covers every Spanish letter. Other
  characters count as neither word characters nor whitespace, and lowering
  leaves them unchanged. Python's full Unicode tables are not modelled, nor
  the characters whose lowercase form is longer.
- Detectors.FindParticiples, Detectors.FindGerunds and
  Analyzer.TextAnalyzer.FindProblematicAdjectives: no claim about the order
  of the result, because `list(set(...))` returns elements in hash order.
- Detectors.FindRepeatedWords: a map has no order, so the insertion order of
  the dictionary built from `Counter` is not modelled.
- The regular-expression engine in general. Only the three patterns the
  analyzer uses are modelled: the tokenizer, the terminator split and the
  comma rule.
- The Streamlit and desktop user interfaces (streamlit_app.py, app.py):
  layout, session state, metric cards and tables. These are presentation
  only.
- The HTML highlighting of issues (`create_highlighted_text` in
  streamlit_app.py, `mark_text_issues` in app.py). These are presentation
  only.
- `get_text` in streamlit_app.py, which looks up user-interface
  translations.
- A second language profile. `__init__` takes no argument, although
  streamlit_app.py:177 passes `language=`. The analyzer modelled here is
  the Spanish one in text_analyzer.py.
