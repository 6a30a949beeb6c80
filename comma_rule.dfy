/** `check_comma_before_y` (text_analyzer.py:95-99): every match of the
    regular expression `,\s+y\b` in the text as given (not lowercased),
    ignoring case, in the order `re.finditer` reports them. */
module CommaRule {
  import opened Characters

  datatype Option<T> = None | Some(value: T)

  /** The span `s[start..end]` of one match object (`m.start()`, `m.end()`). */
  datatype Span = Span(start: nat, end: nat)

  /** `s[start..end]` matches `,\s+y\b` with IGNORECASE: a comma, one or more
      whitespace characters, a `y` or `Y`, and then a word boundary, which
      after the word character `y` means the end of the text or a non-word
      character. */
  predicate IsCommaYMatch(s: string, start: nat, end: nat) {
    && start + 3 <= end <= |s|
    && s[start] == ','
    && (forall i :: start < i < end - 1 ==> IsSpace(s[i]))
    && (s[end - 1] == 'y' || s[end - 1] == 'Y')
    && (end == |s| || !IsWordChar(s[end]))
  }

  /** The shape of one reported string: `,`, whitespace, then `y` or `Y`. */
  predicate IsCommaY(m: string) {
    && |m| >= 3
    && m[0] == ','
    && (forall i :: 0 < i < |m| - 1 ==> IsSpace(m[i]))
    && (m[|m| - 1] == 'y' || m[|m| - 1] == 'Y')
  }

  /** The length of the match the regex engine finds when it tries the
      pattern at position `i`. `\s+` is greedy, and giving back a space
      cannot help because the next pattern item, `y`, is not a space, so the
      greedy run is the only candidate. */
  function MatchAt(s: string, i: nat): Option<nat> {
    if i < |s| && s[i] == ',' then
      var k := RunLength(s[i + 1..], IsSpace);
      var y := i + 1 + k;
      if k >= 1 && y < |s| && (s[y] == 'y' || s[y] == 'Y') && (y + 1 == |s| || !IsWordChar(s[y + 1]))
      then Some(k + 2)
      else None
    else None
  }

  /** What MatchAt finds is a match. */
  lemma MatchAtSound(s: string, i: nat)
    ensures MatchAt(s, i).Some? ==> IsCommaYMatch(s, i, i + MatchAt(s, i).value)
  {
    if MatchAt(s, i).Some? {
      var k := RunLength(s[i + 1..], IsSpace);
      RunLengthPrefix(s[i + 1..], IsSpace);
      assert forall j :: i < j < i + k + 1 ==> s[j] == s[i + 1..][j - i - 1];
    }
  }

  /** Any match starting at `i` is the one MatchAt finds: a match at a
      position is unique and MatchAt misses none. */
  lemma MatchAtComplete(s: string, i: nat, end: nat)
    requires IsCommaYMatch(s, i, end)
    ensures MatchAt(s, i) == Some(end - i)
  {
    var t := s[i + 1..];
    var k := RunLength(t, IsSpace);
    RunLengthPrefix(t, IsSpace);
    assert forall j :: 0 <= j < end - i - 2 ==> t[j] == s[i + 1 + j];
    assert t[end - i - 2] == s[end - 1];
    assert k == end - i - 2;
  }

  /** `re.finditer(r',\s+y\b', s, re.IGNORECASE)`, scanning from position
      `i`: after a match the scan resumes at its end, otherwise one
      character further. The matches come in text order without overlap. */
  function FindIter(s: string, i: nat): (ms: seq<Span>)
    ensures forall k :: 0 <= k < |ms| ==> i <= ms[k].start && IsCommaYMatch(s, ms[k].start, ms[k].end)
    ensures forall k :: 0 <= k < |ms| - 1 ==> ms[k].end <= ms[k + 1].start
    decreases |s| - i
  {
    if i >= |s| then []
    else
      MatchAtSound(s, i);
      match MatchAt(s, i)
      case Some(len) => [Span(i, i + len)] + FindIter(s, i + len)
      case None => FindIter(s, i + 1)
  }

  /** A match can never start inside another: its comma would have to be
      one of the other match's spaces or its `y`. */
  lemma MatchesDoNotNest(s: string, i: nat, e: nat, p: nat)
    requires IsCommaYMatch(s, i, e) && i < p < |s| && s[p] == ','
    ensures e <= p
  {
    assert !IsSpace(s[p]) && s[p] != 'y' && s[p] != 'Y';
  }

  /** Where the scan resumes after trying position `i`. */
  function Next(s: string, i: nat): (j: nat)
    ensures j > i
  {
    match MatchAt(s, i)
    case Some(len) => i + len
    case None => i + 1
  }

  /** Everything found after resuming is found from `i` too. */
  lemma FindIterKeepsRest(s: string, i: nat)
    requires i < |s|
    ensures forall x :: x in FindIter(s, Next(s, i)) ==> x in FindIter(s, i)
  {
    var rest := FindIter(s, Next(s, i));
    match MatchAt(s, i)
    case Some(len) =>
      assert FindIter(s, i) == [Span(i, i + len)] + rest;
    case None =>
      assert FindIter(s, i) == rest;
  }

  /** A match at the scan position itself is reported first. */
  lemma FindIterHere(s: string, p: nat, e: nat)
    requires IsCommaYMatch(s, p, e)
    ensures Span(p, e) in FindIter(s, p)
  {
    MatchAtComplete(s, p, e);
    assert FindIter(s, p)[0] == Span(p, e);
  }

  /** FindIter misses no match: every match that starts at or after `i` is
      one of the reported spans. */
  lemma {:induction false} FindIterComplete(s: string, i: nat, p: nat, e: nat)
    requires i <= p && IsCommaYMatch(s, p, e)
    ensures Span(p, e) in FindIter(s, i)
    decreases |s| - i
  {
    if i == p {
      FindIterHere(s, p, e);
    } else {
      MatchAtSound(s, i);
      if MatchAt(s, i).Some? {
        MatchesDoNotNest(s, i, i + MatchAt(s, i).value, p);
      }
      FindIterComplete(s, Next(s, i), p, e);
      FindIterKeepsRest(s, i);
    }
  }

  /** `check_comma_before_y(text)`: `[m.group() for m in matches]`. Every
      reported string has the shape `,`, whitespace, `y`, and it is exactly
      the text of the corresponding match, which is followed by a non-word
      character or the end of the text. */
  function CheckCommaBeforeY(text: string): (r: seq<string>)
    ensures |r| == |FindIter(text, 0)|
    ensures forall k :: 0 <= k < |r| ==> IsCommaY(r[k])
    ensures forall k :: 0 <= k < |r| ==>
      r[k] == text[FindIter(text, 0)[k].start..FindIter(text, 0)[k].end]
  {
    var ms := FindIter(text, 0);
    var r := seq(|ms|, k requires 0 <= k < |ms| => text[ms[k].start..ms[k].end]);
    assert forall k :: 0 <= k < |r| ==> IsCommaY(r[k]) by {
      forall k | 0 <= k < |r|
        ensures IsCommaY(r[k])
      {
        var m := r[k];
        assert forall j :: 0 < j < |m| - 1 ==> m[j] == text[ms[k].start + j];
      }
    }
    r
  }

  /** Every occurrence of the pattern is reported, once per occurrence: the
      result is not deduplicated. */
  lemma CommaBeforeYComplete(text: string, p: nat, e: nat)
    requires IsCommaYMatch(text, p, e)
    ensures exists k :: (0 <= k < |CheckCommaBeforeY(text)| && FindIter(text, 0)[k] == Span(p, e)
      && CheckCommaBeforeY(text)[k] == text[p..e])
  {
    FindIterComplete(text, 0, p, e);
  }
}
