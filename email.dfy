/** The email format check of `validate_email`: the pattern
    `^[a-zA-Z0-9._%+-]+@[a-zA-Z0-9.-]+\.[a-zA-Z]{2,}$` matched against the
    whole string, written as a hand-built recognizer and proved equal to the
    pattern's declarative reading. */
module EmailFormat {

  predicate IsAsciiLetter(c: char) { 'a' <= c <= 'z' || 'A' <= c <= 'Z' }

  predicate IsAsciiDigit(c: char) { '0' <= c <= '9' }

  /** The class `[a-zA-Z0-9._%+-]`. */
  predicate IsLocalChar(c: char)
  {
    IsAsciiLetter(c) || IsAsciiDigit(c) || c == '.' || c == '_' || c == '%' || c == '+' || c == '-'
  }

  /** The class `[a-zA-Z0-9.-]`. */
  predicate IsDomainChar(c: char)
  {
    IsAsciiLetter(c) || IsAsciiDigit(c) || c == '.' || c == '-'
  }

  /** `[a-zA-Z0-9._%+-]+` */
  predicate LocalRun(s: string)
  {
    |s| >= 1 && forall i | 0 <= i < |s| :: IsLocalChar(s[i])
  }

  /** `[a-zA-Z0-9.-]+` */
  predicate DomainRun(s: string)
  {
    |s| >= 1 && forall i | 0 <= i < |s| :: IsDomainChar(s[i])
  }

  /** `[a-zA-Z]{2,}` */
  predicate TopLevelRun(s: string)
  {
    |s| >= 2 && forall i | 0 <= i < |s| :: IsAsciiLetter(s[i])
  }

  /** The pattern matches `e` with its `@` at index `at` and its `\.` at index `dot`. */
  ghost predicate MatchesWith(e: string, at: int, dot: int)
  {
    && 0 <= at < dot < |e|
    && LocalRun(e[..at])
    && e[at] == '@'
    && DomainRun(e[at + 1..dot])
    && e[dot] == '.'
    && TopLevelRun(e[dot + 1..])
  }

  /** The whole string matches the pattern for some choice of split points. */
  ghost predicate MatchesPattern(e: string)
  {
    exists at: int, dot: int :: MatchesWith(e, at, dot)
  }

  /** Index of the first `c` in `s`, or `|s|` when there is none. */
  function FirstIndexOf(s: string, c: char): (i: nat)
    ensures i <= |s|
    ensures i < |s| ==> s[i] == c
    ensures forall j :: 0 <= j < i ==> s[j] != c
  {
    if |s| == 0 then 0
    else if s[0] == c then 0
    else 1 + FirstIndexOf(s[1..], c)
  }

  /** Index of the last `c` in `s`, or `-1` when there is none. */
  function LastIndexOf(s: string, c: char): (i: int)
    ensures -1 <= i < |s|
    ensures 0 <= i ==> s[i] == c
    ensures forall j :: i < j < |s| ==> s[j] != c
  {
    if |s| == 0 then -1
    else if s[|s| - 1] == c then |s| - 1
    else LastIndexOf(s[..|s| - 1], c)
  }

  /** The split points of a match are forced: the `@` is the first one in the
      string (the local part cannot hold `@`) and the `.` is the last one (the
      final letters cannot hold `.`). */
  lemma MatchSplitsAreForced(e: string, at: int, dot: int)
    requires MatchesWith(e, at, dot)
    ensures at == FirstIndexOf(e, '@') && dot == LastIndexOf(e, '.')
  {
    forall j | 0 <= j < at
      ensures e[j] != '@'
    {
      assert IsLocalChar(e[..at][j]);
    }
    forall j | dot < j < |e|
      ensures e[j] != '.'
    {
      assert IsAsciiLetter(e[dot + 1..][j - dot - 1]);
    }
  }

  /** The recognizer: split at the first `@` and the last `.` and check each
      piece against its class. It accepts exactly the strings the pattern
      matches in full. */
  function ValidateEmail(e: string): (ok: bool)
    ensures ok <==> MatchesPattern(e)
  {
    var at := FirstIndexOf(e, '@');
    var dot := LastIndexOf(e, '.');
    var ok := at < dot && LocalRun(e[..at]) && DomainRun(e[at + 1..dot]) && TopLevelRun(e[dot + 1..]);
    assert ok ==> MatchesWith(e, at, dot);
    assert MatchesPattern(e) ==> ok by {
      if MatchesPattern(e) {
        var a: int, d: int :| MatchesWith(e, a, d);
        MatchSplitsAreForced(e, a, d);
      }
    }
    ok
  }

  /** A string with no `@` is never a valid address. */
  lemma {:induction false} NoAtSignIsInvalid(e: string)
    requires '@' !in e
    ensures !ValidateEmail(e)
  {
    var at := FirstIndexOf(e, '@');
    assert at == |e|;
  }

  /** Any local part, `@`, domain, `.` and top-level part of the right classes
      make an address the recognizer accepts. */
  lemma {:induction false} AcceptsComposedAddress(local: string, domain: string, top: string)
    requires LocalRun(local) && DomainRun(domain) && TopLevelRun(top)
    ensures ValidateEmail(local + "@" + domain + "." + top)
  {
    var e := local + "@" + domain + "." + top;
    var at, dot := |local|, |local| + 1 + |domain|;
    assert e[..at] == local;
    assert e[at + 1..dot] == domain;
    assert e[dot + 1..] == top;
    assert MatchesWith(e, at, dot);
  }

  /** An address with a `.` among its last two characters is rejected: its
      last `.` is followed by fewer than two characters. */
  lemma {:induction false} ShortTopLevelIsInvalid(e: string)
    requires exists k :: 0 <= k < |e| && e[k] == '.' && |e| - k - 1 < 2
    ensures !ValidateEmail(e)
  {
    var k :| 0 <= k < |e| && e[k] == '.' && |e| - k - 1 < 2;
    assert LastIndexOf(e, '.') >= k;
  }

  /** `ann@mail.com` is accepted and `ann@mail.c` is rejected. */
  lemma {:induction false} SampleAddresses(good: string, bad: string)
    requires good == "ann@mail.com" && bad == "ann@mail.c"
    ensures ValidateEmail(good) && !ValidateEmail(bad)
  {
    assert good == "ann" + "@" + "mail" + "." + "com";
    AcceptsComposedAddress("ann", "mail", "com");
    assert bad[8] == '.';
    ShortTopLevelIsInvalid(bad);
  }
}
