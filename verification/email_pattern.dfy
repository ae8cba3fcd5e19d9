/** The contact form's e-mail check: the regular expression
    ^[^\s@]+@[^\s@]+\.[^\s@]+$ with the `u` flag, tested against the
    trimmed address. */
module EmailPattern {
  import opened JsText
  import opened Wrappers

  /** A character of the class [^\s@]. The dot is one of them. */
  predicate IsAtom(c: char) {
    !IsSpace(c) && c != '@'
  }

  predicate AllAtoms(s: string) {
    forall k :: 0 <= k < |s| ==> IsAtom(s[k])
  }

  /** `s` reads L "@" A "." B, with the '@' at index `at`, the '.' at index
      `dot`, and L, A, B non-empty runs of [^\s@]. */
  ghost predicate SplitsAt(s: string, at: int, dot: int) {
    0 < at && at + 1 < dot && dot + 1 < |s|
    && s[at] == '@' && s[dot] == '.'
    && AllAtoms(s[..at]) && AllAtoms(s[at + 1..dot]) && AllAtoms(s[dot + 1..])
  }

  /** What the anchored pattern accepts: some split of `s` as L@A.B. The
      domain part A may itself hold dots, and so may B. */
  ghost predicate PatternMatches(s: string) {
    exists at: int, dot: int :: SplitsAt(s, at, dot)
  }

  /** A dot with at least one character on each side of it. */
  predicate HasInnerDot(r: string) {
    |r| >= 3 && '.' in r[1..|r| - 1]
  }

  /** The test as a scan: the first '@' ends a non-empty local part, no
      other '@' or white space follows, and the rest has an inner dot. */
  predicate Matches(s: string) {
    match IndexOf(s, '@')
    case None => false
    case Some(at) => 0 < at && AllAtoms(s[..at]) && AllAtoms(s[at + 1..]) && HasInnerDot(s[at + 1..])
  }

  /** The scan accepts exactly the strings the pattern matches. */
  lemma MatchesIff(s: string)
    ensures Matches(s) <==> PatternMatches(s)
  {
    if PatternMatches(s) {
      var at, dot :| SplitsAt(s, at, dot);
      SplitImpliesMatch(s, at, dot);
    }
    if Matches(s) {
      MatchImpliesSplit(s);
    }
  }

  lemma SplitImpliesMatch(s: string, at: int, dot: int)
    requires SplitsAt(s, at, dot)
    ensures Matches(s)
  {
    assert forall k :: 0 <= k < at ==> s[k] == s[..at][k];
    IndexOfAt(s, '@', at);
    var rest := s[at + 1..];
    var a := s[at + 1..dot];
    var b := s[dot + 1..];
    assert rest == a + ['.'] + b;
    assert AllAtoms(rest) by {
      forall k | 0 <= k < |rest|
        ensures IsAtom(rest[k])
      {
        if k < |a| {
          assert rest[k] == a[k];
        } else if k > |a| {
          assert rest[k] == b[k - |a| - 1];
        }
      }
    }
    assert rest[1..|rest| - 1][|a| - 1] == '.';
  }

  lemma MatchImpliesSplit(s: string)
    requires Matches(s)
    ensures PatternMatches(s)
  {
    var at := IndexOf(s, '@').value;
    var rest := s[at + 1..];
    var j :| 0 <= j < |rest| - 2 && rest[1..|rest| - 1][j] == '.';
    var dot := at + 2 + j;
    assert s[at + 1..dot] == rest[..j + 1];
    assert s[dot + 1..] == rest[j + 2..];
    assert SplitsAt(s, at, dot);
  }
}
