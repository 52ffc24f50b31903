/** The e-mail validator: an anchored match of the simplified addr-spec
    pattern `^[a-zA-Z0-9._%+-]+@[a-zA-Z0-9.-]+\.[a-zA-Z]{2,}$`
    (a reduced form of the addr-spec of section 3.4.1 of RFC 5322). */
module Email {
  import opened Common

  const ValidMessage := "Valid email format"
  const InvalidMessage := "Invalid email format"

  /** `[a-zA-Z0-9._%+-]` */
  predicate IsLocalChar(c: char) {
    IsAsciiLetter(c) || IsAsciiDigit(c) || c == '.' || c == '_' || c == '%' || c == '+' || c == '-'
  }

  /** `[a-zA-Z0-9.-]` */
  predicate IsDomainChar(c: char) {
    IsAsciiLetter(c) || IsAsciiDigit(c) || c == '.' || c == '-'
  }

  /** `[a-zA-Z0-9._%+-]+` */
  predicate LocalPart(s: string) {
    |s| >= 1 && forall k :: 0 <= k < |s| ==> IsLocalChar(s[k])
  }

  /** `[a-zA-Z0-9.-]+` */
  predicate DomainPart(s: string) {
    |s| >= 1 && forall k :: 0 <= k < |s| ==> IsDomainChar(s[k])
  }

  /** `[a-zA-Z]{2,}` */
  predicate TopLevelPart(s: string) {
    |s| >= 2 && forall k :: 0 <= k < |s| ==> IsAsciiLetter(s[k])
  }

  /** The language of the pattern between its anchors, written as the
      concatenation the pattern denotes: local part, '@', domain, '.', and a
      top-level label. */
  ghost predicate AddrSpec(s: string) {
    exists local, domain, tld :: LocalPart(local) && DomainPart(domain) && TopLevelPart(tld)
                                 && s == local + "@" + domain + "." + tld
  }

  /** What `EMAIL_PATTERN.match(s)` accepts: `^` anchors at the start and
      `$` at the end or just before one final newline. */
  ghost predicate PatternMatches(s: string) {
    AddrSpec(s) || (EndsWithNewline(s) && AddrSpec(s[..|s| - 1]))
  }

  /** Position of the first occurrence of `c` in `s`, or -1. */
  function FirstIndex(s: string, c: char): (i: int)
    ensures -1 <= i < |s|
    ensures 0 <= i ==> s[i] == c
    ensures forall k :: 0 <= k < |s| && (i < 0 || k < i) ==> s[k] != c
  {
    if |s| == 0 then -1
    else if s[0] == c then 0
    else
      var j := FirstIndex(s[1..], c);
      if j < 0 then -1 else j + 1
  }

  /** Position of the last occurrence of `c` in `s`, or -1. */
  function LastIndex(s: string, c: char): (i: int)
    ensures -1 <= i < |s|
    ensures 0 <= i ==> s[i] == c
    ensures forall k :: i < k < |s| ==> s[k] != c
  {
    if |s| == 0 then -1
    else if s[|s| - 1] == c then |s| - 1
    else LastIndex(s[..|s| - 1], c)
  }

  /** The deterministic checker: find the first '@', then the last '.',
      which has to come after it, and test the three pieces they cut. */
  predicate CheckParts(s: string) {
    var at := FirstIndex(s, '@');
    var dot := LastIndex(s, '.');
    0 <= at < dot && LocalPart(s[..at]) && DomainPart(s[at + 1..dot]) && TopLevelPart(s[dot + 1..])
  }

  /** In an address built from a local part, a domain and a top-level
      label, the '@' after the local part is the only one. */
  lemma AtIsOnly(s: string, local: string, domain: string, tld: string)
    requires LocalPart(local) && DomainPart(domain) && TopLevelPart(tld)
    requires s == local + "@" + domain + "." + tld
    ensures FirstIndex(s, '@') == |local|
    ensures forall k :: 0 <= k < |s| && k != |local| ==> s[k] != '@'
  {
    assert s[|local|] == '@';
    forall k | 0 <= k < |s| && k != |local|
      ensures s[k] != '@'
    {
      if k < |local| {
        assert s[k] == local[k];
      } else if k < |local| + 1 + |domain| {
        assert s[k] == domain[k - |local| - 1];
      } else if k > |local| + 1 + |domain| {
        assert s[k] == tld[k - |local| - |domain| - 2];
      }
    }
  }

  /** ... and the '.' before the top-level label is the last '.', since the
      label is made of letters only. */
  lemma DotIsLast(s: string, local: string, domain: string, tld: string)
    requires LocalPart(local) && DomainPart(domain) && TopLevelPart(tld)
    requires s == local + "@" + domain + "." + tld
    ensures LastIndex(s, '.') == |local| + 1 + |domain|
    ensures IsAsciiLetter(s[|s| - 1])
  {
    var dot := |local| + 1 + |domain|;
    assert s[dot] == '.';
    forall k | dot < k < |s|
      ensures s[k] != '.'
    {
      assert s[k] == tld[k - dot - 1];
    }
    assert s[|s| - 1] == tld[|tld| - 1];
  }

  /** ... and the pieces between them are the three parts again. */
  lemma PartsInPlace(s: string, local: string, domain: string, tld: string)
    requires LocalPart(local) && DomainPart(domain) && TopLevelPart(tld)
    requires s == local + "@" + domain + "." + tld
    ensures var at := |local|;
            var dot := |local| + 1 + |domain|;
            LocalPart(s[..at]) && DomainPart(s[at + 1..dot]) && TopLevelPart(s[dot + 1..])
  {
    var at := |local|;
    var dot := |local| + 1 + |domain|;
    var l, d, t := s[..at], s[at + 1..dot], s[dot + 1..];
    forall k | 0 <= k < |l|
      ensures IsLocalChar(l[k])
    {
      assert l[k] == local[k];
    }
    forall k | 0 <= k < |d|
      ensures IsDomainChar(d[k])
    {
      assert d[k] == s[at + 1 + k] == domain[k];
    }
    forall k | 0 <= k < |t|
      ensures IsAsciiLetter(t[k])
    {
      assert t[k] == s[dot + 1 + k] == tld[k];
    }
  }

  /** Three pieces of which a string of the language is made. */
  lemma Pieces(s: string) returns (local: string, domain: string, tld: string)
    requires AddrSpec(s)
    ensures LocalPart(local) && DomainPart(domain) && TopLevelPart(tld)
    ensures s == local + "@" + domain + "." + tld
  {
    local, domain, tld :| LocalPart(local) && DomainPart(domain) && TopLevelPart(tld)
                          && s == local + "@" + domain + "." + tld;
  }

  /** A string the checker accepts is in the language of the pattern. */
  lemma CheckPartsSound(s: string)
    requires CheckParts(s)
    ensures AddrSpec(s)
  {
    var at := FirstIndex(s, '@');
    var dot := LastIndex(s, '.');
    var local, domain, tld := s[..at], s[at + 1..dot], s[dot + 1..];
    assert s == local + "@" + domain + "." + tld;
  }

  /** A string in the language of the pattern is accepted by the checker:
      neither class admits '@', so the only '@' is the first one, and the
      top-level label admits no '.', so its dot is the last one. */
  lemma CheckPartsComplete(s: string)
    requires AddrSpec(s)
    ensures CheckParts(s)
  {
    var local, domain, tld := Pieces(s);
    AtIsOnly(s, local, domain, tld);
    DotIsLast(s, local, domain, tld);
    PartsInPlace(s, local, domain, tld);
  }

  /** A string of the language never ends in a newline: its last character
      is a letter. */
  lemma AddrSpecEndsInLetter(s: string)
    requires AddrSpec(s)
    ensures |s| > 0 && IsAsciiLetter(s[|s| - 1])
  {
    var local, domain, tld := Pieces(s);
    DotIsLast(s, local, domain, tld);
  }

  /** The pattern matches exactly when the checker accepts the input
      without its final newline. */
  lemma PatternMatchesIffCheck(s: string)
    ensures PatternMatches(s) <==> CheckParts(DropFinalNewline(s))
  {
    var t := DropFinalNewline(s);
    if CheckParts(t) {
      CheckPartsSound(t);
    }
    if AddrSpec(s) {
      CheckPartsComplete(s);
      AddrSpecEndsInLetter(s);
    }
    if EndsWithNewline(s) && AddrSpec(s[..|s| - 1]) {
      CheckPartsComplete(s[..|s| - 1]);
    }
  }

  /** `EMAIL_PATTERN.match(s)`, decided by the checker. */
  function MatchesPattern(s: string): (b: bool)
    ensures b <==> PatternMatches(s)
  {
    PatternMatchesIffCheck(s);
    CheckParts(DropFinalNewline(s))
  }

  /** validate_email: the result echoes the input and is valid exactly when
      the whole input (up to one final newline) matches the pattern; the
      message is one of two fixed texts and tells which. */
  function ValidateEmail(email: string): (r: ValidationResult)
    ensures r.input == email
    ensures r.valid <==> PatternMatches(email)
    ensures r.message == ValidMessage <==> r.valid
    ensures r.message == InvalidMessage <==> !r.valid
  {
    var isValid := MatchesPattern(email);
    ValidationResult(isValid, email, if isValid then ValidMessage else InvalidMessage)
  }

  /** A valid input, its final newline set aside, is in the language. */
  lemma ValidEmailInLanguage(email: string)
    requires ValidateEmail(email).valid
    ensures AddrSpec(DropFinalNewline(email))
  {
    PatternMatchesIffCheck(email);
    CheckPartsSound(DropFinalNewline(email));
  }

  /** A valid address contains exactly one '@', since neither character
      class of the pattern admits one. */
  lemma ValidEmailHasOneAt(email: string)
    requires ValidateEmail(email).valid
    ensures exists i :: 0 < i < |email| && email[i] == '@'
    ensures forall i, j :: 0 <= i < j < |email| && email[i] == '@' ==> email[j] != '@'
  {
    var s := DropFinalNewline(email);
    ValidEmailInLanguage(email);
    var local, domain, tld := Pieces(s);
    AtIsOnly(s, local, domain, tld);
    assert email[|local|] == '@';
    assert forall k :: 0 <= k < |email| && k != |local| ==> email[k] != '@';
  }

  /** In a valid address (its final newline, if any, set aside), the text
      after the last '.' is two or more ASCII letters, the text between the
      '@' and that '.' is non-empty, and the text before the '@' is a
      non-empty local part. */
  lemma ValidEmailParts(email: string)
    requires ValidateEmail(email).valid
    ensures var s := DropFinalNewline(email);
            var at := FirstIndex(s, '@');
            var dot := LastIndex(s, '.');
            0 < at && at + 1 < dot
            && LocalPart(s[..at]) && DomainPart(s[at + 1..dot]) && TopLevelPart(s[dot + 1..])
  {
    var s := DropFinalNewline(email);
    ValidEmailInLanguage(email);
    CheckPartsComplete(s);
  }

  /** The documentation's valid example. */
  lemma ValidEmailExample()
    ensures ValidateEmail("user@example.com").valid
    ensures ValidateEmail("user@example.com").message == "Valid email format"
  {
    var good := "user@example.com";
    assert good == "user" + "@" + "example" + "." + "com";
    assert LocalPart("user") && DomainPart("example") && TopLevelPart("com");
    assert AddrSpec(good);
  }

  /** Python's `$` lets one final newline through, and `input` keeps it. */
  lemma TrailingNewlineEmailExample()
    ensures ValidateEmail("user@example.com\n").valid
    ensures ValidateEmail("user@example.com\n").input == "user@example.com\n"
  {
    var good := "user@example.com";
    ValidEmailExample();
    assert (good + "\n")[..|good + "\n"| - 1] == good;
    assert PatternMatches(good + "\n");
  }

  /** A string of the language contains an '@'. */
  lemma AddrSpecHasAt(s: string)
    requires AddrSpec(s)
    ensures '@' in s
  {
    CheckPartsComplete(s);
  }

  /** The documentation's invalid example, the empty string, and two final
      newlines, of which `$` tolerates only one. */
  lemma InvalidEmailExamples()
    ensures !ValidateEmail("invalid.email").valid
    ensures ValidateEmail("invalid.email").message == "Invalid email format"
    ensures !ValidateEmail("").valid
    ensures !ValidateEmail("user@example.com\n\n").valid
  {
    var bad := "invalid.email";
    assert '@' !in bad;
    if AddrSpec(bad) {
      AddrSpecHasAt(bad);
    }
    if AddrSpec("") {
      AddrSpecHasAt("");
    }
    var twice := "user@example.com\n\n";
    if AddrSpec(twice) {
      AddrSpecEndsInLetter(twice);
    }
    if AddrSpec(twice[..|twice| - 1]) {
      AddrSpecEndsInLetter(twice[..|twice| - 1]);
    }
  }
}
