/** The fixed, anchored, case-insensitive email pattern
    `^[A-Z0-9._%+-]+@[A-Z0-9.-]+\.[A-Z]{2,}$` (flag `i`). */
module Email {
  import Escape

  /** `[A-Z]` under the `i` flag: the ASCII letters of either case. Without
      the `u` flag no non-ASCII character folds onto an ASCII letter. */
  predicate IsAsciiLetter(c: char) {
    ('A' <= c <= 'Z') || ('a' <= c <= 'z')
  }

  predicate IsAsciiDigit(c: char) {
    '0' <= c <= '9'
  }

  /** The character class of the local part, `[A-Z0-9._%+-]`. */
  predicate InLocalClass(c: char) {
    IsAsciiLetter(c) || IsAsciiDigit(c) || c == '.' || c == '_' || c == '%' || c == '+' || c == '-'
  }

  /** The character class of the domain part, `[A-Z0-9.-]`. */
  predicate InDomainClass(c: char) {
    IsAsciiLetter(c) || IsAsciiDigit(c) || c == '.' || c == '-'
  }

  /** `s` matches the pattern with the `@` at index `at` and the literal `\.`
      at index `dot`: a non-empty local part before `at`, a non-empty domain
      part strictly between them, and at least two letters after `dot` up to
      the end. */
  predicate SplitsAt(s: string, at: int, dot: int) {
    0 < at && at + 1 < dot && dot + 2 < |s| &&
    s[at] == '@' && s[dot] == '.' &&
    (forall k :: 0 <= k < at ==> InLocalClass(s[k])) &&
    (forall k :: at < k < dot ==> InDomainClass(s[k])) &&
    (forall k :: dot < k < |s| ==> IsAsciiLetter(s[k]))
  }

  /** The regular expression's meaning: some way of cutting `s` into its five pieces. */
  ghost predicate PatternMatches(s: string) {
    exists at, dot :: SplitsAt(s, at, dot)
  }

  /** The index of the first `c` in `s`, or `|s|` when there is none. */
  function FirstIndexOf(s: string, c: char): (i: nat)
    ensures i <= |s| && (i < |s| ==> s[i] == c)
    ensures forall k :: 0 <= k < i ==> s[k] != c
  {
    if s == [] then 0
    else if s[0] == c then 0
    else 1 + FirstIndexOf(s[1..], c)
  }

  /** The index of the last `c` in `s`, or `-1` when there is none. */
  function LastIndexOf(s: string, c: char): (i: int)
    ensures -1 <= i < |s| && (0 <= i ==> s[i] == c)
    ensures forall k :: i < k < |s| ==> s[k] != c
  {
    if s == [] then -1
    else if s[|s| - 1] == c then |s| - 1
    else LastIndexOf(s[..|s| - 1], c)
  }

  /** `emailPattern.test(s)`: no character class admits `@` and the final
      segment admits no `.`, so the only cut worth trying is at the first `@`
      and the last `.`. */
  predicate MatchesEmail(s: string) {
    SplitsAt(s, FirstIndexOf(s, '@'), LastIndexOf(s, '.'))
  }

  /** The deterministic test accepts exactly the strings the pattern matches. */
  lemma MatchesEmailIffPattern(s: string)
    ensures MatchesEmail(s) <==> PatternMatches(s)
  {
    if PatternMatches(s) {
      var at, dot :| SplitsAt(s, at, dot);
      assert FirstIndexOf(s, '@') == at && LastIndexOf(s, '.') == dot;
    }
  }

  /** A matching string holds exactly one `@`. */
  lemma MatchHasOneAt(s: string)
    requires MatchesEmail(s)
    ensures forall k :: 0 <= k < |s| ==> (s[k] == '@' <==> k == FirstIndexOf(s, '@'))
  {
    OnlyAtOfSplit(s, FirstIndexOf(s, '@'), LastIndexOf(s, '.'));
  }

  /** Past the cut's `@`, no character class admits another `@`. */
  lemma OnlyAtOfSplit(s: string, at: int, dot: int)
    requires SplitsAt(s, at, dot)
    ensures forall k :: at < k < |s| ==> s[k] != '@'
  {
    forall k | at < k < |s|
      ensures s[k] != '@'
    {
      if k < dot {
        assert InDomainClass(s[k]);
      } else if dot < k {
        assert IsAsciiLetter(s[k]);
      }
    }
  }

  /** Every character of a matching string is `@` or in the local-part class. */
  lemma MatchCharacters(s: string)
    requires MatchesEmail(s)
    ensures forall k :: 0 <= k < |s| ==> s[k] == '@' || InLocalClass(s[k])
  {
    var at, dot := FirstIndexOf(s, '@'), LastIndexOf(s, '.');
    forall k | 0 <= k < |s| ensures s[k] == '@' || InLocalClass(s[k]) {
      if at < k < dot { assert InDomainClass(s[k]); }
    }
  }

  /** Testing the escaped value gives the same verdict as testing the raw
      one: a string without special characters escapes to itself, and one
      with them escapes to a string holding `&`, which no class admits. */
  lemma VerdictIgnoresEscaping(s: string)
    ensures MatchesEmail(Escape.EscapeHtml(s)) == MatchesEmail(s)
  {
    var e := Escape.EscapeHtml(s);
    Escape.EscapeHtmlIdentity(s);
    if exists k :: 0 <= k < |s| && Escape.IsSpecial(s[k]) {
      var k :| 0 <= k < |s| && Escape.IsSpecial(s[k]);
      if MatchesEmail(s) { MatchCharacters(s); }
      Escape.AmpersandMarksEscape(s);
      var j :| 0 <= j < |e| && e[j] == '&';
      if MatchesEmail(e) { MatchCharacters(e); }
    }
  }
}
