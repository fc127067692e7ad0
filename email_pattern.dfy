/** The email pattern both authentication services test,
    `^[a-zA-Z0-9._-]+@[a-zA-Z0-9.-]+\.[a-zA-Z]{2,max}$`, with the top-level
    domain bounded by `max` (3 in auth-service.ts, unbounded in
    authService.ts). A character-class matcher that computes the answer is
    proved equal to the declarative reading of the pattern. */
module EmailPattern {
  import opened Wrappers
  import opened JsStrings

  predicate IsLetter(c: char) { 'a' <= c <= 'z' || 'A' <= c <= 'Z' }

  /** `[a-zA-Z0-9._-]` */
  predicate IsLocalChar(c: char) { IsLetter(c) || IsDigit(c) || c == '.' || c == '_' || c == '-' }

  /** `[a-zA-Z0-9.-]` */
  predicate IsDomainChar(c: char) { IsLetter(c) || IsDigit(c) || c == '.' || c == '-' }

  predicate AllLocal(s: string) { forall i | 0 <= i < |s| :: IsLocalChar(s[i]) }
  predicate AllDomain(s: string) { forall i | 0 <= i < |s| :: IsDomainChar(s[i]) }
  predicate AllLetters(s: string) { forall i | 0 <= i < |s| :: IsLetter(s[i]) }

  /** The pattern matches `s` with its `@` at `at` and the `.` before the
      top-level domain at `dot`: a non-empty local part, a non-empty domain
      run, and a top-level domain of at least 2 (and at most `tldMax`)
      letters. */
  predicate MatchesWith(s: string, at: int, dot: int, tldMax: Option<nat>) {
    && 0 < at && at + 1 < dot < |s|
    && s[at] == '@' && s[dot] == '.'
    && AllLocal(s[..at]) && AllDomain(s[at + 1..dot]) && AllLetters(s[dot + 1..])
    && 2 <= |s| - dot - 1
    && (tldMax.Some? ==> |s| - dot - 1 <= tldMax.value)
  }

  /** What `pattern.test(s)` answers: some way of reading `s` against the
      pattern succeeds. */
  ghost predicate PatternMatches(s: string, tldMax: Option<nat>) {
    exists at, dot :: MatchesWith(s, at, dot, tldMax)
  }

  /** The index of the first `c` in `s`, or `|s|` when there is none. */
  function IndexOf(s: string, c: char): (i: nat)
    ensures i <= |s| && (i < |s| ==> s[i] == c)
    ensures forall j | 0 <= j < i :: s[j] != c
  {
    if s == [] then 0
    else if s[0] == c then 0
    else 1 + IndexOf(s[1..], c)
  }

  /** The index of the last `c` in `s`, or -1 when there is none. */
  function LastIndexOf(s: string, c: char): (i: int)
    ensures -1 <= i < |s| && (i >= 0 ==> s[i] == c)
    ensures forall j | i < j < |s| :: s[j] != c
  {
    if s == [] then -1
    else if s[|s| - 1] == c then |s| - 1
    else LastIndexOf(s[..|s| - 1], c)
  }

  /** The matcher: `@` must be the first `@` (no class before it admits
      `@`) and the final `.` the last `.` (the top-level domain is letters
      only), so there is only one split to try. */
  function Accepts(s: string, tldMax: Option<nat>): bool {
    MatchesWith(s, IndexOf(s, '@'), LastIndexOf(s, '.'), tldMax)
  }

  /** The matcher accepts exactly the strings the pattern matches. */
  lemma AcceptsIffMatches(s: string, tldMax: Option<nat>)
    ensures Accepts(s, tldMax) <==> PatternMatches(s, tldMax)
  {
    if PatternMatches(s, tldMax) {
      var at, dot :| MatchesWith(s, at, dot, tldMax);
      assert IndexOf(s, '@') == at;
      assert LastIndexOf(s, '.') == dot;
    }
  }

  /** A matching string has exactly one `@`. */
  lemma MatchHasOneAt(s: string, tldMax: Option<nat>)
    requires PatternMatches(s, tldMax)
    ensures exists at | 0 <= at < |s| :: s[at] == '@' && forall j | 0 <= j < |s| && s[j] == '@' :: j == at
  {
    var at, dot :| MatchesWith(s, at, dot, tldMax);
    assert forall j | 0 <= j < |s| && s[j] == '@' :: j == at;
  }

  /** Widening the top-level domain bound only admits more strings. */
  lemma WiderBoundAcceptsMore(s: string, max: nat)
    requires Accepts(s, Some(max))
    ensures Accepts(s, None)
  {
  }

  /** Every character class of the pattern is closed under lowercasing, so
      an email and its lowercase form are accepted alike. */
  lemma AcceptsLower(s: string, tldMax: Option<nat>)
    ensures Accepts(Lower(s), tldMax) == Accepts(s, tldMax)
  {
    SeparatorsUnchangedByLower(s);
    var at, dot := IndexOf(s, '@'), LastIndexOf(s, '.');
    if 0 < at && at + 1 < dot < |s| {
      MatchesWithLower(s, at, dot, tldMax);
    }
  }

  /** Lowercasing moves neither the first `@` nor the last `.`. */
  lemma SeparatorsUnchangedByLower(s: string)
    ensures IndexOf(Lower(s), '@') == IndexOf(s, '@')
    ensures LastIndexOf(Lower(s), '.') == LastIndexOf(s, '.')
  {
    var t := Lower(s);
    assert forall i | 0 <= i < |s| :: (t[i] == '@' <==> s[i] == '@') && (t[i] == '.' <==> s[i] == '.');
  }

  lemma MatchesWithLower(s: string, at: int, dot: int, tldMax: Option<nat>)
    requires 0 < at && at + 1 < dot < |s|
    ensures MatchesWith(Lower(s), at, dot, tldMax) == MatchesWith(s, at, dot, tldMax)
  {
    SliceClassesLower(s, 0, at);
    SliceClassesLower(s, at + 1, dot);
    SliceClassesLower(s, dot + 1, |s|);
    assert Lower(s)[..at] == Lower(s)[0..at] && s[..at] == s[0..at];
    assert Lower(s)[dot + 1..] == Lower(s)[dot + 1..|s|] && s[dot + 1..] == s[dot + 1..|s|];
  }

  lemma SliceClassesLower(s: string, lo: int, hi: int)
    requires 0 <= lo <= hi <= |s|
    ensures AllLocal(Lower(s)[lo..hi]) == AllLocal(s[lo..hi])
    ensures AllDomain(Lower(s)[lo..hi]) == AllDomain(s[lo..hi])
    ensures AllLetters(Lower(s)[lo..hi]) == AllLetters(s[lo..hi])
  {
    var t := Lower(s);
    forall i | 0 <= i < hi - lo ensures t[lo..hi][i] == LowerChar(s[lo..hi][i]) {
    }
  }
}
