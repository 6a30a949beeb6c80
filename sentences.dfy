/** `count_sentences` (text_analyzer.py:121-124): strip the text, split it on
    runs of `.`, `!` and `?` with `re.split(r'[.!?]+', ...)`, and count the
    pieces that are not blank once stripped. */
module Sentences {
  import opened Characters

  predicate IsTerminator(c: char) {
    c == '.' || c == '!' || c == '?'
  }

  predicate IsNonTerminator(c: char) {
    !IsTerminator(c)
  }

  predicate HasNoTerminator(s: string) {
    forall i :: 0 <= i < |s| ==> !IsTerminator(s[i])
  }

  /** `s.lstrip()`. */
  function StripLeft(s: string): (r: string)
    ensures |r| <= |s| && r == s[|s| - |r|..]
    ensures r == [] || !IsSpace(r[0])
  {
    if s != [] && IsSpace(s[0]) then StripLeft(s[1..]) else s
  }

  /** `s.rstrip()`. */
  function StripRight(s: string): (r: string)
    ensures |r| <= |s| && r == s[..|r|]
    ensures r == [] || !IsSpace(r[|r| - 1])
  {
    if s != [] && IsSpace(s[|s| - 1]) then StripRight(s[..|s| - 1]) else s
  }

  /** `s.strip()`: `s` without its leading and trailing whitespace. */
  function Strip(s: string): (r: string)
    ensures r != [] ==> !IsSpace(r[0]) && !IsSpace(r[|r| - 1])
    ensures |r| <= |s|
  {
    var l := StripLeft(s);
    var r := StripRight(l);
    assert r != [] ==> r[0] == l[0];
    r
  }

  /** `re.split(r'[.!?]+', s)`: the pieces between maximal runs of
      terminators, with an empty piece before a leading run and after a
      trailing one. */
  function SplitSentences(s: string): (parts: seq<string>)
    ensures |parts| >= 1
    decreases |s|
  {
    var n := RunLength(s, IsNonTerminator);
    if n == |s| then [s]
    else
      assert s[n..][0] == s[n];
      var m := n + RunLength(s[n..], IsTerminator);
      [s[..n]] + SplitSentences(s[m..])
  }

  /** `len([p for p in parts if p.strip()])`; by StripFacts, `p.strip()` is
      non-empty exactly when `p` is not blank. */
  function CountNonBlank(parts: seq<string>): (n: nat)
    ensures n <= |parts|
  {
    if parts == [] then 0
    else (if IsBlank(parts[0]) then 0 else 1) + CountNonBlank(parts[1..])
  }

  /** `count_sentences(text)`. Blank text has no sentence; text with
      something in it but no terminator is one sentence. */
  function CountSentences(text: string): (n: nat)
    ensures IsBlank(text) ==> n == 0
    ensures HasNoTerminator(text) && !IsBlank(text) ==> n == 1
  {
    var stripped := Strip(text);
    StripFacts(text);
    SplitOfTerminatorFree(stripped);
    CountNonBlank(SplitSentences(stripped))
  }

  /** Text without terminators is a single piece. */
  lemma SplitOfTerminatorFree(s: string)
    ensures HasNoTerminator(s) ==> SplitSentences(s) == [s]
  {
    if HasNoTerminator(s) {
      assert RunLength(s, IsNonTerminator) == |s|;
    }
  }

  lemma CountNonBlankCons(p: string, parts: seq<string>)
    ensures CountNonBlank([p] + parts) == (if IsBlank(p) then 0 else 1) + CountNonBlank(parts)
  {
    assert ([p] + parts)[1..] == parts;
  }

  /** Reference definition: one left-to-right pass that counts a sentence
      each time a stretch holding a non-space character is closed by a
      terminator or by the end of the text. `open` says whether the current
      stretch already holds a non-space character. */
  function ScanSentences(s: string, open: bool): (n: nat)
    decreases |s|
  {
    if s == [] then (if open then 1 else 0)
    else if IsTerminator(s[0]) then (if open then 1 else 0) + ScanSentences(s[1..], false)
    else ScanSentences(s[1..], open || !IsSpace(s[0]))
  }

  /** Scanning a terminator-free stretch only records whether it is blank. */
  lemma {:induction false} ScanPiece(p: string, rest: string, open: bool)
    requires HasNoTerminator(p)
    ensures ScanSentences(p + rest, open) == ScanSentences(rest, open || !IsBlank(p))
  {
    if p == [] {
      assert p + rest == rest;
    } else {
      assert (p + rest)[0] == p[0] && (p + rest)[1..] == p[1..] + rest;
      ScanPiece(p[1..], rest, open || !IsSpace(p[0]));
      assert IsBlank(p) <==> IsSpace(p[0]) && IsBlank(p[1..]) by {
        assert forall i :: 0 < i < |p| ==> p[i] == p[1..][i - 1];
      }
    }
  }

  /** A run of terminators closes the open stretch, and nothing more. */
  lemma {:induction false} ScanTerminators(run: string, rest: string, open: bool)
    requires run != [] && forall i :: 0 <= i < |run| ==> IsTerminator(run[i])
    ensures ScanSentences(run + rest, open) == (if open then 1 else 0) + ScanSentences(rest, false)
  {
    assert (run + rest)[0] == run[0] && (run + rest)[1..] == run[1..] + rest;
    if |run| > 1 {
      ScanTerminators(run[1..], rest, false);
    } else {
      assert run[1..] + rest == rest;
    }
  }

  /** The split-and-count of the source agrees with the one-pass scan. */
  lemma {:induction false} CountNonBlankIsScan(s: string)
    ensures CountNonBlank(SplitSentences(s)) == ScanSentences(s, false)
    decreases |s|
  {
    var n := RunLength(s, IsNonTerminator);
    if n == |s| {
      PieceHasNoTerminator(s);
      assert s[..n] == s;
      ScanPiece(s, [], false);
      assert s + [] == s;
      CountNonBlankCons(s, []);
    } else {
      var m := n + RunLength(s[n..], IsTerminator);
      ScanStep(s, n, m);
      SplitStep(s, n, m);
      CountNonBlankIsScan(s[m..]);
    }
  }

  /** One step of `re.split`: the first piece ends at the first terminator
      `n`, and the pieces after it are those of the text after the run of
      terminators, which ends at `m`. */
  lemma {:induction false} SplitStep(s: string, n: nat, m: nat)
    requires n == RunLength(s, IsNonTerminator) < |s|
    requires m == n + RunLength(s[n..], IsTerminator)
    ensures SplitSentences(s)[1..] == SplitSentences(s[m..])
    ensures SplitSentences(s)[0] == s[..n]
  {
    SplitTail(s, n, m);
    SplitHead(s, n, m);
  }

  /** The first piece of SplitStep. */
  lemma {:induction false} SplitHead(s: string, n: nat, m: nat)
    requires n == RunLength(s, IsNonTerminator) < |s|
    requires m == n + RunLength(s[n..], IsTerminator)
    ensures SplitSentences(s)[0] == s[..n]
  {
  }

  /** The pieces after the first one in SplitStep. */
  lemma {:induction false} SplitTail(s: string, n: nat, m: nat)
    requires n == RunLength(s, IsNonTerminator) < |s|
    requires m == n + RunLength(s[n..], IsTerminator)
    ensures SplitSentences(s)[1..] == SplitSentences(s[m..])
  {
    TailOfCons(s[..n], SplitSentences(s[m..]));
  }

  /** Dropping the head of a sequence built from its head. */
  lemma TailOfCons<T>(x: T, r: seq<T>)
    ensures ([x] + r)[1..] == r
  {
  }

  /** No piece of `re.split` holds a terminator: the separators are
      consumed whole. */
  lemma {:induction false} SplitPiecesHaveNoTerminator(s: string)
    ensures forall k :: 0 <= k < |SplitSentences(s)| ==> HasNoTerminator(SplitSentences(s)[k])
    decreases |s|
  {
    var n := RunLength(s, IsNonTerminator);
    PieceHasNoTerminator(s);
    if n == |s| {
      assert s[..n] == s;
      SplitOfTerminatorFree(s);
    } else {
      var m := n + RunLength(s[n..], IsTerminator);
      SplitStep(s, n, m);
      SplitPiecesHaveNoTerminator(s[m..]);
      var parts := SplitSentences(s);
      forall k | 0 <= k < |parts|
        ensures HasNoTerminator(parts[k])
      {
        if k > 0 {
          assert parts[k] == parts[1..][k - 1];
        }
      }
    }
  }

  /** The same step seen by the scan: the piece is counted when it is not
      blank, and the terminators close it. */
  lemma ScanStep(s: string, n: nat, m: nat)
    requires n == RunLength(s, IsNonTerminator) < |s|
    requires m == n + RunLength(s[n..], IsTerminator)
    ensures n < m <= |s|
    ensures ScanSentences(s, false) == (if IsBlank(s[..n]) then 0 else 1) + ScanSentences(s[m..], false)
  {
    PieceHasNoTerminator(s);
    TerminatorRunAfterPiece(s, n, m);
    SplitInThree(s, n, m);
    ScanPiece(s[..n], s[n..m] + s[m..], false);
    ScanTerminators(s[n..m], s[m..], !IsBlank(s[..n]));
  }

  lemma PieceHasNoTerminator(s: string)
    ensures HasNoTerminator(s[..RunLength(s, IsNonTerminator)])
  {
    var n := RunLength(s, IsNonTerminator);
    RunLengthPrefix(s, IsNonTerminator);
    forall i | 0 <= i < n
      ensures !IsTerminator(s[..n][i])
    {
      assert IsNonTerminator(s[i]);
    }
  }

  lemma TerminatorRunAfterPiece(s: string, n: nat, m: nat)
    requires n == RunLength(s, IsNonTerminator) < |s|
    requires m == n + RunLength(s[n..], IsTerminator)
    ensures n < m <= |s|
    ensures forall i :: 0 <= i < |s[n..m]| ==> IsTerminator(s[n..m][i])
  {
    assert s[n..][0] == s[n];
    RunLengthPrefix(s[n..], IsTerminator);
    forall i | 0 <= i < m - n
      ensures IsTerminator(s[n..m][i])
    {
      assert s[n..m][i] == s[n..][i];
    }
  }

  lemma SplitInThree(s: string, n: nat, m: nat)
    requires n <= m <= |s|
    ensures s == s[..n] + (s[n..m] + s[m..])
  {
    assert s[n..] == s[n..m] + s[m..];
  }

  // ---------------------------------------------------------------------
  // What `re.split` keeps: the text without its terminators, in pieces,
  // one piece more than there are runs of terminators.

  /** The text with every `.`, `!` and `?` removed. */
  function DropTerminators(s: string): (r: string)
    ensures |r| <= |s|
    decreases |s|
  {
    if s == [] then []
    else (if IsTerminator(s[0]) then [] else [s[0]]) + DropTerminators(s[1..])
  }

  /** `''.join(parts)`. */
  function Concat(parts: seq<string>): string {
    if parts == [] then [] else parts[0] + Concat(parts[1..])
  }

  /** The number of maximal runs of terminators in `s`; `after` says whether
      the character before `s` was a terminator. */
  function TerminatorRuns(s: string, after: bool): nat
    decreases |s|
  {
    if s == [] then 0
    else (if IsTerminator(s[0]) && !after then 1 else 0) + TerminatorRuns(s[1..], IsTerminator(s[0]))
  }

  lemma {:induction false} DropAppend(a: string, b: string)
    ensures DropTerminators(a + b) == DropTerminators(a) + DropTerminators(b)
  {
    if a == [] {
      assert a + b == b;
    } else {
      assert (a + b)[0] == a[0] && (a + b)[1..] == a[1..] + b;
      DropAppend(a[1..], b);
    }
  }

  lemma {:induction false} DropNoTerminators(s: string)
    requires HasNoTerminator(s)
    ensures DropTerminators(s) == s
  {
    if s != [] {
      assert HasNoTerminator(s[1..]) by {
        assert forall i :: 0 <= i < |s| - 1 ==> s[1..][i] == s[i + 1];
      }
      DropNoTerminators(s[1..]);
      assert s == [s[0]] + s[1..];
    }
  }

  lemma {:induction false} DropAllTerminators(s: string)
    requires forall i :: 0 <= i < |s| ==> IsTerminator(s[i])
    ensures DropTerminators(s) == []
  {
    if s != [] {
      assert forall i :: 0 <= i < |s| - 1 ==> IsTerminator(s[1..][i]) by {
        assert forall i :: 0 <= i < |s| - 1 ==> s[1..][i] == s[i + 1];
      }
      DropAllTerminators(s[1..]);
    }
  }

  /** A terminator-free piece, then a run of terminators, then the rest:
      the piece survives, the run drops out. */
  lemma DropPieceAndRun(a: string, t: string, r: string)
    requires HasNoTerminator(a)
    requires forall i :: 0 <= i < |t| ==> IsTerminator(t[i])
    ensures DropTerminators(a + (t + r)) == a + DropTerminators(r)
  {
    assert DropTerminators(t + r) == DropTerminators(r) by {
      DropAllTerminators(t);
      DropAppend(t, r);
    }
    DropNoTerminators(a);
    DropAppend(a, t + r);
  }

  /** One step of SplitKeepsText: the first piece keeps its characters and
      the run of terminators after it drops out. */
  lemma DropStep(s: string, n: nat, m: nat)
    requires n == RunLength(s, IsNonTerminator) < |s|
    requires m == n + RunLength(s[n..], IsTerminator)
    ensures DropTerminators(s) == s[..n] + DropTerminators(s[m..])
  {
    PieceHasNoTerminator(s);
    TerminatorRunAfterPiece(s, n, m);
    SplitInThree(s, n, m);
    DropPieceAndRun(s[..n], s[n..m], s[m..]);
  }

  /** Joining the pieces of `re.split` gives back the text without its
      terminators: only terminators are dropped, and the pieces keep the
      order of the text. */
  lemma {:induction false} SplitKeepsText(s: string)
    ensures Concat(SplitSentences(s)) == DropTerminators(s)
    decreases |s|
  {
    var n := RunLength(s, IsNonTerminator);
    if n == |s| {
      PieceHasNoTerminator(s);
      assert s[..n] == s;
      SplitOfTerminatorFree(s);
      DropNoTerminators(s);
      assert Concat([s]) == s + Concat([]);
    } else {
      var m := n + RunLength(s[n..], IsTerminator);
      SplitStep(s, n, m);
      DropStep(s, n, m);
      SplitKeepsText(s[m..]);
    }
  }

  /** Terminator-free text opens no run of terminators. */
  lemma {:induction false} RunsOfPiece(p: string, rest: string)
    requires HasNoTerminator(p)
    ensures TerminatorRuns(p + rest, false) == TerminatorRuns(rest, false)
  {
    if p == [] {
      assert p + rest == rest;
    } else {
      assert (p + rest)[0] == p[0] && (p + rest)[1..] == p[1..] + rest;
      assert forall i :: 0 <= i < |p| - 1 ==> p[1..][i] == p[i + 1];
      RunsOfPiece(p[1..], rest);
    }
  }

  /** A non-empty run of terminators is one run, unless it continues one. */
  lemma {:induction false} RunsOfTerminators(t: string, rest: string, after: bool)
    requires t != [] && forall i :: 0 <= i < |t| ==> IsTerminator(t[i])
    ensures TerminatorRuns(t + rest, after) == (if after then 0 else 1) + TerminatorRuns(rest, true)
  {
    assert (t + rest)[0] == t[0] && (t + rest)[1..] == t[1..] + rest;
    if |t| > 1 {
      RunsOfTerminators(t[1..], rest, true);
    } else {
      assert t[1..] + rest == rest;
    }
  }

  /** One step of SplitPieceCount: the first piece and the run after it
      account for exactly one run. */
  lemma RunsStep(s: string, n: nat, m: nat)
    requires n == RunLength(s, IsNonTerminator) < |s|
    requires m == n + RunLength(s[n..], IsTerminator)
    ensures TerminatorRuns(s, false) == 1 + TerminatorRuns(s[m..], false)
  {
    PieceHasNoTerminator(s);
    TerminatorRunAfterPiece(s, n, m);
    SplitInThree(s, n, m);
    RunsOfPiece(s[..n], s[n..m] + s[m..]);
    RunsOfTerminators(s[n..m], s[m..], false);
    RunIsMaximal(s, n, m);
  }

  /** The run of terminators stops at the end of the text or before a
      character that is not a terminator. */
  lemma RunIsMaximal(s: string, n: nat, m: nat)
    requires n == RunLength(s, IsNonTerminator) < |s|
    requires m == n + RunLength(s[n..], IsTerminator)
    ensures m == |s| || !IsTerminator(s[m])
  {
    if m < |s| {
      assert s[n..][m - n] == s[m];
    }
  }

  /** `re.split` returns one piece more than the text has runs of
      terminators. */
  lemma {:induction false} SplitPieceCount(s: string)
    ensures |SplitSentences(s)| == TerminatorRuns(s, false) + 1
    decreases |s|
  {
    var n := RunLength(s, IsNonTerminator);
    if n == |s| {
      PieceHasNoTerminator(s);
      assert s[..n] == s;
      SplitOfTerminatorFree(s);
      RunsOfPiece(s, []);
      assert s + [] == s;
    } else {
      var m := n + RunLength(s[n..], IsTerminator);
      SplitStep(s, n, m);
      RunsStep(s, n, m);
      SplitPieceCount(s[m..]);
    }
  }

  // ---------------------------------------------------------------------
  // Where `re.split` breaks the text: between the pieces lie exactly the
  // maximal runs of terminators.

  /** A non-empty stretch made only of terminators. */
  predicate IsTerminatorRun(t: string) {
    t != [] && forall i :: 0 <= i < |t| ==> IsTerminator(t[i])
  }

  /** Every entry is a non-empty run of terminators. */
  predicate AllTerminatorRuns(seps: seq<string>) {
    forall k :: 0 <= k < |seps| ==> IsTerminatorRun(seps[k])
  }

  /** The runs of terminators that `re.split` consumes, in text order. */
  function Separators(s: string): (seps: seq<string>)
    decreases |s|
  {
    var n := RunLength(s, IsNonTerminator);
    if n == |s| then []
    else
      assert s[n..][0] == s[n];
      var m := n + RunLength(s[n..], IsTerminator);
      [s[n..m]] + Separators(s[m..])
  }

  /** `parts[0] + seps[0] + parts[1] + seps[1] + ... + parts[-1]`. */
  function Interleave(parts: seq<string>, seps: seq<string>): string
    decreases |seps|
  {
    if parts == [] then []
    else if seps == [] then parts[0]
    else parts[0] + (seps[0] + Interleave(parts[1..], seps[1..]))
  }

  /** One separator between every two pieces. */
  lemma {:induction false} SeparatorsCount(s: string)
    ensures |SplitSentences(s)| == |Separators(s)| + 1
    decreases |s|
  {
    var n := RunLength(s, IsNonTerminator);
    if n == |s| {
      PieceHasNoTerminator(s);
      assert s[..n] == s;
      SplitOfTerminatorFree(s);
    } else {
      var m := n + RunLength(s[n..], IsTerminator);
      SplitStep(s, n, m);
      SeparatorsStep(s, n, m);
      SeparatorsCount(s[m..]);
    }
  }

  /** Every separator is a non-empty run of terminators. */
  lemma {:induction false} SeparatorsAreRuns(s: string)
    ensures AllTerminatorRuns(Separators(s))
    decreases |s|
  {
    var n := RunLength(s, IsNonTerminator);
    if n < |s| {
      var m := n + RunLength(s[n..], IsTerminator);
      SeparatorsAreRuns(s[m..]);
      FirstRunIsTerminatorRun(s, n, m);
      RunsCons(s[n..m], Separators(s[m..]));
      SeparatorsStep(s, n, m);
    }
  }

  /** Separators unfolded once, at the first run of terminators. */
  lemma SeparatorsStep(s: string, n: nat, m: nat)
    requires n == RunLength(s, IsNonTerminator) < |s|
    requires m == n + RunLength(s[n..], IsTerminator)
    ensures Separators(s) == [s[n..m]] + Separators(s[m..])
  {
  }

  /** The first run of terminators after the first piece is not empty. */
  lemma FirstRunIsTerminatorRun(s: string, n: nat, m: nat)
    requires n == RunLength(s, IsNonTerminator) < |s|
    requires m == n + RunLength(s[n..], IsTerminator)
    ensures IsTerminatorRun(s[n..m])
  {
    TerminatorRunAfterPiece(s, n, m);
  }

  /** A run of terminators in front of a list of runs of terminators. */
  lemma RunsCons(t: string, seps: seq<string>)
    requires IsTerminatorRun(t)
    requires AllTerminatorRuns(seps)
    ensures AllTerminatorRuns([t] + seps)
  {
    forall k | 0 < k < |[t] + seps|
      ensures IsTerminatorRun(([t] + seps)[k])
    {
      assert ([t] + seps)[k] == seps[k - 1];
    }
  }

  /** One step of SplitIsInterleaving: the first piece, then the first
      separator, then the rest of the text. */
  lemma InterleaveStep(s: string, n: nat, m: nat)
    requires n == RunLength(s, IsNonTerminator) < |s|
    requires m == n + RunLength(s[n..], IsTerminator)
    requires Interleave(SplitSentences(s[m..]), Separators(s[m..])) == s[m..]
    ensures Interleave(SplitSentences(s), Separators(s)) == s
  {
    var parts, seps := SplitSentences(s), Separators(s);
    SplitStep(s, n, m);
    SeparatorsStep(s, n, m);
    TerminatorRunAfterPiece(s, n, m);
    assert seps[0] == s[n..m] && seps[1..] == Separators(s[m..]) by {
      TailOfCons(s[n..m], Separators(s[m..]));
    }
    assert Interleave(parts, seps) == s[..n] + (s[n..m] + s[m..]);
    SplitInThree(s, n, m);
  }

  /** The text is its pieces with the separators put back between them. */
  lemma {:induction false} SplitIsInterleaving(s: string)
    ensures Interleave(SplitSentences(s), Separators(s)) == s
    decreases |s|
  {
    var n := RunLength(s, IsNonTerminator);
    if n == |s| {
      PieceHasNoTerminator(s);
      assert s[..n] == s;
      SplitOfTerminatorFree(s);
    } else {
      var m := n + RunLength(s[n..], IsTerminator);
      TerminatorRunAfterPiece(s, n, m);
      SplitIsInterleaving(s[m..]);
      InterleaveStep(s, n, m);
    }
  }

  /** A text that does not start with a terminator has a non-empty first
      piece, unless it is empty. */
  lemma FirstPieceNonEmpty(r: string)
    requires r != [] && !IsTerminator(r[0])
    ensures SplitSentences(r)[0] != []
  {
    var n := RunLength(r, IsNonTerminator);
    if n == |r| {
      PieceHasNoTerminator(r);
      assert r[..n] == r;
      SplitOfTerminatorFree(r);
    } else {
      var m := n + RunLength(r[n..], IsTerminator);
      SplitHead(r, n, m);
    }
  }

  /** Only the first and the last piece can be empty: two separators are
      never adjacent, so the runs are maximal. */
  lemma {:induction false} InteriorPiecesNonEmpty(s: string)
    ensures forall k :: 0 < k < |SplitSentences(s)| - 1 ==> SplitSentences(s)[k] != []
    decreases |s|
  {
    var n := RunLength(s, IsNonTerminator);
    if n < |s| {
      var m := n + RunLength(s[n..], IsTerminator);
      TerminatorRunAfterPiece(s, n, m);
      SplitStep(s, n, m);
      InteriorPiecesNonEmpty(s[m..]);
      var parts, rest := SplitSentences(s), SplitSentences(s[m..]);
      if |rest| > 1 {
        assert s[m..] != [] by {
          SplitOfTerminatorFree([]);
        }
        RunIsMaximal(s, n, m);
        FirstPieceNonEmpty(s[m..]);
      }
      forall k | 0 < k < |parts| - 1
        ensures parts[k] != []
      {
        assert parts[k] == rest[k - 1];
      }
    }
  }

  /** Over a terminator-free piece followed by a terminator, the run of
      non-terminators is exactly the piece. */
  lemma PieceRunBeforeTerminator(p: string, x: string)
    requires HasNoTerminator(p) && x != [] && IsTerminator(x[0])
    ensures RunLength(p + x, IsNonTerminator) == |p|
  {
    RunLengthAppend(p, x, IsNonTerminator);
    assert RunLength(p, IsNonTerminator) == |p|;
    assert RunLength(x, IsNonTerminator) == 0;
  }

  /** Over a run of terminators followed by the end of the text or a
      non-terminator, the run of terminators is exactly that run. */
  lemma RunBeforePiece(t: string, r: string)
    requires forall i :: 0 <= i < |t| ==> IsTerminator(t[i])
    requires r == [] || !IsTerminator(r[0])
    ensures RunLength(t + r, IsTerminator) == |t|
  {
    RunLengthAppend(t, r, IsTerminator);
    assert RunLength(t, IsTerminator) == |t|;
    assert RunLength(r, IsTerminator) == 0;
  }

  /** The slices of `a + (b + c)` at the borders of its three parts. */
  lemma SlicesOfThree(a: string, b: string, c: string)
    ensures (a + (b + c))[..|a|] == a
    ensures (a + (b + c))[|a|..] == b + c
    ensures (a + (b + c))[|a| + |b|..] == c
  {
    assert (a + (b + c))[|a|..] == b + c;
    assert (b + c)[|b|..] == c;
  }

  /** Interleaved text starts with a non-terminator, or is empty, when its
      first piece is terminator-free and non-empty before a separator. */
  lemma InterleaveStart(parts: seq<string>, seps: seq<string>)
    requires |parts| == |seps| + 1
    requires forall k :: 0 <= k < |parts| ==> HasNoTerminator(parts[k])
    requires seps != [] ==> parts[0] != []
    ensures var r := Interleave(parts, seps); r == [] || !IsTerminator(r[0])
  {
    if seps != [] {
      assert Interleave(parts, seps)[0] == parts[0][0];
    }
  }

  /** Pieces and separators of the shape `re.split` produces, shifted by
      one. */
  lemma ShapeOfRest(parts: seq<string>, seps: seq<string>)
    requires |parts| == |seps| + 1 && seps != []
    requires forall k :: 0 <= k < |parts| ==> HasNoTerminator(parts[k])
    requires forall k :: 0 <= k < |seps| ==> IsTerminatorRun(seps[k])
    requires forall k :: 0 < k < |parts| - 1 ==> parts[k] != []
    ensures forall k :: 0 <= k < |parts[1..]| ==> HasNoTerminator(parts[1..][k])
    ensures forall k :: 0 <= k < |seps[1..]| ==> IsTerminatorRun(seps[1..][k])
    ensures forall k :: 0 < k < |parts[1..]| - 1 ==> parts[1..][k] != []
    ensures seps[1..] != [] ==> parts[1..][0] != []
  {
  }

  /** The split is unique: any terminator-free pieces that interleave with
      non-empty runs of terminators to give the text, and of which only the
      first and the last may be empty, are the pieces of `re.split`. */
  lemma {:induction false} SplitUnique(s: string, parts: seq<string>, seps: seq<string>)
    requires |parts| == |seps| + 1
    requires forall k :: 0 <= k < |parts| ==> HasNoTerminator(parts[k])
    requires forall k :: 0 <= k < |seps| ==> IsTerminatorRun(seps[k])
    requires forall k :: 0 < k < |parts| - 1 ==> parts[k] != []
    requires Interleave(parts, seps) == s
    ensures parts == SplitSentences(s)
    decreases |seps|
  {
    if seps == [] {
      assert s == parts[0];
      SplitOfTerminatorFree(s);
      assert parts == [parts[0]];
    } else {
      var rest := Interleave(parts[1..], seps[1..]);
      assert s == parts[0] + (seps[0] + rest);
      ShapeOfRest(parts, seps);
      InterleaveStart(parts[1..], seps[1..]);
      SplitUnique(rest, parts[1..], seps[1..]);
      SplitOfPieceAndRun(parts[0], seps[0], rest);
      assert parts == [parts[0]] + parts[1..];
    }
  }

  /** A terminator-free piece, a run of terminators and text that does not
      continue the run: the piece comes first, then the pieces of the rest. */
  lemma SplitOfPieceAndRun(p: string, t: string, rest: string)
    requires HasNoTerminator(p) && IsTerminatorRun(t)
    requires rest == [] || !IsTerminator(rest[0])
    ensures SplitSentences(p + (t + rest))[0] == p
    ensures SplitSentences(p + (t + rest))[1..] == SplitSentences(rest)
  {
    var s := p + (t + rest);
    var n, m := |p|, |p| + |t|;
    assert s[..n] == p && s[n..] == t + rest && s[m..] == rest by {
      SlicesOfThree(p, t, rest);
    }
    assert RunLength(s, IsNonTerminator) == n by {
      PieceRunBeforeTerminator(p, t + rest);
    }
    assert RunLength(s[n..], IsTerminator) == |t| by {
      RunBeforePiece(t, rest);
    }
    SplitStep(s, n, m);
  }

  /** Whitespace is transparent to the scan. */
  lemma {:induction false} ScanBlankPrefix(l: string, x: string, open: bool)
    requires IsBlank(l)
    ensures ScanSentences(l + x, open) == ScanSentences(x, open)
  {
    if l != [] {
      assert (l + x)[0] == l[0] && (l + x)[1..] == l[1..] + x;
      ScanBlankPrefix(l[1..], x, open);
    } else {
      assert l + x == x;
    }
  }

  lemma {:induction false} ScanBlank(r: string, open: bool)
    requires IsBlank(r)
    ensures ScanSentences(r, open) == (if open then 1 else 0)
  {
    if r != [] {
      ScanBlank(r[1..], open);
    }
  }

  lemma {:induction false} ScanBlankSuffix(x: string, r: string, open: bool)
    requires IsBlank(r)
    ensures ScanSentences(x + r, open) == ScanSentences(x, open)
    decreases |x|
  {
    if x == [] {
      assert x + r == r;
      ScanBlank(r, open);
    } else {
      assert (x + r)[0] == x[0] && (x + r)[1..] == x[1..] + r;
      ScanBlankSuffix(x[1..], r, if IsTerminator(x[0]) then false else open || !IsSpace(x[0]));
    }
  }

  lemma BlankAppend(a: string, b: string)
    ensures IsBlank(a + b) <==> IsBlank(a) && IsBlank(b)
  {
    assert forall i :: 0 <= i < |a| ==> (a + b)[i] == a[i];
    assert forall i :: 0 <= i < |b| ==> (a + b)[|a| + i] == b[i];
  }

  /** What `s.lstrip()` removes is whitespace. */
  lemma {:induction false} StripLeftRemovesBlank(s: string)
    ensures IsBlank(s[..|s| - |StripLeft(s)|])
  {
    if s != [] && IsSpace(s[0]) {
      StripLeftRemovesBlank(s[1..]);
      var k := |s| - |StripLeft(s)|;
      forall i | 0 <= i < k
        ensures IsSpace(s[i])
      {
        if i > 0 {
          assert s[i] == s[1..][..k - 1][i - 1];
        }
      }
    }
  }

  /** What `s.rstrip()` removes is whitespace. */
  lemma {:induction false} StripRightRemovesBlank(s: string)
    ensures IsBlank(s[|StripRight(s)|..])
  {
    if s != [] && IsSpace(s[|s| - 1]) {
      var t := s[..|s| - 1];
      StripRightRemovesBlank(t);
      var k := |StripRight(s)|;
      forall i | k <= i < |s|
        ensures IsSpace(s[i])
      {
        if i < |s| - 1 {
          assert s[i] == t[k..][i - k];
        }
      }
    }
  }

  /** `s.strip()` removes only a blank prefix and a blank suffix. */
  lemma StripDecomposition(s: string) returns (lead: string, tail: string)
    ensures s == lead + (Strip(s) + tail)
    ensures IsBlank(lead) && IsBlank(tail)
  {
    var l := StripLeft(s);
    var r := Strip(s);
    lead := s[..|s| - |l|];
    tail := l[|r|..];
    assert IsBlank(lead) by {
      StripLeftRemovesBlank(s);
    }
    assert IsBlank(tail) by {
      StripRightRemovesBlank(l);
    }
    PrefixOfSuffix(s, l, r);
  }

  /** A text cut into what comes before a suffix `l`, a prefix `r` of that
      suffix, and the rest of the suffix. */
  lemma PrefixOfSuffix(s: string, l: string, r: string)
    requires |l| <= |s| && l == s[|s| - |l|..]
    requires |r| <= |l| && r == l[..|r|]
    ensures s == s[..|s| - |l|] + (r + l[|r|..])
  {
    assert l == r + l[|r|..];
    assert s == s[..|s| - |l|] + l;
  }

  /** `s.strip()` is empty exactly for blank text, and it never brings in a
      terminator. */
  lemma StripFacts(s: string)
    ensures (Strip(s) == []) == IsBlank(s)
    ensures HasNoTerminator(s) ==> HasNoTerminator(Strip(s))
  {
    StripEmptyIffBlank(s);
    StripKeepsNoTerminator(s);
  }

  lemma StripEmptyIffBlank(s: string)
    ensures (Strip(s) == []) == IsBlank(s)
  {
    var lead, tail := StripDecomposition(s);
    var r := Strip(s);
    BlankAppend(r, tail);
    BlankAppend(lead, r + tail);
    assert r != [] ==> !IsBlank(r);
  }

  lemma StripKeepsNoTerminator(s: string)
    ensures HasNoTerminator(s) ==> HasNoTerminator(Strip(s))
  {
    var lead, tail := StripDecomposition(s);
    var r := Strip(s);
    if HasNoTerminator(s) {
      forall i | 0 <= i < |r|
        ensures !IsTerminator(r[i])
      {
        assert r[i] == (r + tail)[i] == s[|lead| + i];
      }
    }
  }

  /** Stripping the text first, as the source does, never changes the count. */
  lemma StripKeepsScan(s: string)
    ensures ScanSentences(Strip(s), false) == ScanSentences(s, false)
  {
    var lead, tail := StripDecomposition(s);
    ScanBlankPrefix(lead, Strip(s) + tail, false);
    ScanBlankSuffix(Strip(s), tail, false);
  }

  /** `count_sentences` is the one-pass scan of the unstripped text. */
  lemma CountSentencesIsScan(text: string)
    ensures CountSentences(text) == ScanSentences(text, false)
  {
    CountNonBlankIsScan(Strip(text));
    StripKeepsScan(text);
  }

  lemma {:induction false} ScanAroundTerminator(a: string, t: char, b: string, open: bool)
    requires IsTerminator(t)
    ensures ScanSentences(a + [t] + b, open) == ScanSentences(a, open) + ScanSentences(b, false)
    decreases |a|
  {
    if a == [] {
      assert a + [t] + b == [t] + b;
      assert ([t] + b)[1..] == b;
    } else {
      assert (a + [t] + b)[0] == a[0] && (a + [t] + b)[1..] == a[1..] + [t] + b;
      ScanAroundTerminator(a[1..], t, b, if IsTerminator(a[0]) then false else open || !IsSpace(a[0]));
    }
  }

  /** Sentence counting is additive over terminators: a `.`, `!` or `?`
      between two texts separates their sentences, whatever surrounds it. */
  lemma CountSentencesAroundTerminator(a: string, t: char, b: string)
    requires IsTerminator(t)
    ensures CountSentences(a + [t] + b) == CountSentences(a) + CountSentences(b)
  {
    CountSentencesIsScan(a + [t] + b);
    CountSentencesIsScan(a);
    CountSentencesIsScan(b);
    ScanAroundTerminator(a, t, b, false);
  }
}
