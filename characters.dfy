/** Character classes used by the analyzer: Python's `\w` (word characters),
    `\s` / `str.strip()` whitespace and `str.lower()`, restricted to the
    Latin-1 range (ASCII plus U+00A0..U+00FF, which holds every Spanish
    accented letter and ñ). Characters above U+00FF are treated as non-word,
    non-space characters that lowercase to themselves. */
module Characters {

  /** Python's `\w` on a `str`: letters, digits and underscore. */
  predicate IsWordChar(c: char) {
    || ('a' <= c <= 'z')
    || ('A' <= c <= 'Z')
    || ('0' <= c <= '9')
    || c == '_'
    // Latin-1 letters, except the multiplication and division signs
    || ('\U{C0}' <= c <= '\U{FF}' && c != '\U{D7}' && c != '\U{F7}')
    // Latin-1 letters and digits below U+00C0: ª ² ³ µ ¹ º ¼ ½ ¾
    || c == '\U{AA}' || c == '\U{B2}' || c == '\U{B3}' || c == '\U{B5}'
    || c == '\U{B9}' || c == '\U{BA}' || c == '\U{BC}' || c == '\U{BD}' || c == '\U{BE}'
  }

  /** Python's `\s` on a `str`, which is also the set `str.strip()` removes. */
  predicate IsSpace(c: char) {
    || c == ' '
    || ('\t' <= c <= '\r')             // \t \n \v \f \r
    || ('\U{1C}' <= c <= '\U{1F}')     // file, group, record and unit separators
    || c == '\U{85}'                   // next line
    || c == '\U{A0}'                   // no-break space
  }

  /** True when `c` is a capital letter that `str.lower()` changes. */
  predicate IsUpper(c: char) {
    ('A' <= c <= 'Z') || ('\U{C0}' <= c <= '\U{DE}' && c != '\U{D7}')
  }

  /** `str.lower()` on one character: each capital letter of Latin-1 sits 32
      code points below its small letter. */
  function Lower(c: char): (d: char)
    ensures !IsUpper(d)
    ensures !IsUpper(c) ==> d == c
    ensures IsWordChar(d) == IsWordChar(c)
    ensures IsSpace(d) == IsSpace(c)
  {
    if IsUpper(c) then (c as int + 32) as char else c
  }

  /** `str.lower()` on a whole string; it never changes the length. */
  function LowerString(s: string): (r: string)
    ensures |r| == |s|
    ensures forall i :: 0 <= i < |s| ==> r[i] == Lower(s[i])
  {
    if s == [] then [] else [Lower(s[0])] + LowerString(s[1..])
  }

  /** Lowering twice is lowering once. */
  lemma LowerStringIdempotent(s: string)
    ensures LowerString(LowerString(s)) == LowerString(s)
  {
    var r := LowerString(s);
    assert forall i :: 0 <= i < |r| ==> LowerString(r)[i] == r[i];
  }

  /** A string the analyzer's lowercasing leaves as it is. */
  predicate IsLowerCase(s: string) {
    forall i :: 0 <= i < |s| ==> !IsUpper(s[i])
  }

  lemma LowerStringOfLowerCase(s: string)
    requires IsLowerCase(s)
    ensures LowerString(s) == s
  {
    assert forall i :: 0 <= i < |s| ==> LowerString(s)[i] == s[i];
  }

  lemma LowerStringAppend(a: string, b: string)
    ensures LowerString(a + b) == LowerString(a) + LowerString(b)
  {
    assert forall i :: 0 <= i < |a + b| ==> LowerString(a + b)[i] == (LowerString(a) + LowerString(b))[i];
  }

  /** True when every character of `s` is whitespace (so `s.strip()` is empty). */
  predicate IsBlank(s: string) {
    forall i :: 0 <= i < |s| ==> IsSpace(s[i])
  }

  /** Length of the longest prefix of `s` whose characters all satisfy `p`. */
  function RunLength(s: string, p: char -> bool): (n: nat)
    ensures n <= |s|
    ensures n == |s| || !p(s[n])
  {
    if s == [] || !p(s[0]) then 0 else 1 + RunLength(s[1..], p)
  }

  /** Every character of the run satisfies `p`. Kept out of RunLength's own
      contract, where a quantifier would come along with every use. */
  lemma {:induction false} RunLengthPrefix(s: string, p: char -> bool)
    ensures forall i :: 0 <= i < RunLength(s, p) ==> p(s[i])
  {
    if s != [] && p(s[0]) {
      RunLengthPrefix(s[1..], p);
      forall i | 0 < i < RunLength(s, p)
        ensures p(s[i])
      {
        assert s[i] == s[1..][i - 1];
      }
    }
  }

  /** The run of `p` characters at the start of `a + t` stops inside `a`
      unless all of `a` satisfies `p`, in which case it continues into `t`. */
  lemma {:induction false} RunLengthAppend(a: string, t: string, p: char -> bool)
    ensures RunLength(a + t, p) ==
      if RunLength(a, p) < |a| then RunLength(a, p) else |a| + RunLength(t, p)
  {
    if a == [] {
      assert a + t == t;
    } else {
      assert (a + t)[0] == a[0];
      if p(a[0]) {
        assert (a + t)[1..] == a[1..] + t;
        RunLengthAppend(a[1..], t, p);
      }
    }
  }
}
