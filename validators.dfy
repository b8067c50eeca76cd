/** The three client-side validators of the authentication form, each a
    character-level predicate equivalent to the regular expression the form
    tests its input against (anchored at both ends, no flags, so `\d` is an
    ASCII digit and `$` only matches at the very end of the string). */
module Validators {

  predicate IsDigit(c: char) { '0' <= c <= '9' }

  predicate IsAsciiLetter(c: char) { 'a' <= c <= 'z' || 'A' <= c <= 'Z' }

  /** The class `[a-zA-Z0-9._%+-]` of the local part of an e-mail address. */
  predicate IsLocalChar(c: char) {
    IsAsciiLetter(c) || IsDigit(c) || c == '.' || c == '_' || c == '%' || c == '+' || c == '-'
  }

  /** The class `[a-zA-Z0-9.-]` of the domain part of an e-mail address. */
  predicate IsDomainChar(c: char) {
    IsAsciiLetter(c) || IsDigit(c) || c == '.' || c == '-'
  }

  /** The character classes the three patterns use. */
  datatype CharClass = Digit | Letter | LocalPart | DomainPart

  predicate InClass(c: char, k: CharClass) {
    match k
    case Digit => IsDigit(c)
    case Letter => IsAsciiLetter(c)
    case LocalPart => IsLocalChar(c)
    case DomainPart => IsDomainChar(c)
  }

  /** Every character of `s` is in the class `k`. */
  predicate All(s: string, k: CharClass) {
    forall i :: 0 <= i < |s| ==> InClass(s[i], k)
  }

  // ---------------------------------------------------------------------
  // Mobile number: /^\d{10}$/
  // ---------------------------------------------------------------------

  predicate ValidateMobile(mobile: string) {
    |mobile| == 10 && All(mobile, Digit)
  }

  /** The quantifier `\d{n}` read one character at a time, as a matcher
      consumes it: `n` more digits, then the end of the input. */
  predicate MatchDigits(s: string, n: nat)
    decreases n
  {
    if n == 0 then s == []
    else s != [] && IsDigit(s[0]) && MatchDigits(s[1..], n - 1)
  }

  /** Reading exactly `n` digits one by one accepts the strings of length
      `n` made only of digits. */
  lemma {:induction false} MatchDigitsIff(s: string, n: nat)
    ensures MatchDigits(s, n) <==> |s| == n && All(s, Digit)
    decreases n
  {
    if n > 0 && s != [] {
      MatchDigitsIff(s[1..], n - 1);
      if |s| == n && All(s, Digit) {
        assert forall i :: 0 <= i < |s[1..]| ==> s[1..][i] == s[i + 1];
      }
      if MatchDigits(s, n) {
        assert forall i :: 1 <= i < |s| ==> s[i] == s[1..][i - 1];
      }
    }
  }

  /** The mobile validator accepts exactly what `^\d{10}$` matches, read
      character by character. */
  lemma MobileMatchesPattern(mobile: string)
    ensures ValidateMobile(mobile) <==> MatchDigits(mobile, 10)
  {
    MatchDigitsIff(mobile, 10);
  }

  lemma MobileExamples()
    ensures ValidateMobile("9876543210")
    ensures !ValidateMobile("98765432")
    ensures !ValidateMobile("98765432a0")
  {
    assert !IsDigit("98765432a0"[8]);
  }

  // ---------------------------------------------------------------------
  // Participant code: /^hosp_demoop_\d{8}@swasth-hcx-dev$/
  // ---------------------------------------------------------------------

  const CodePrefix: string := "hosp_demoop_"
  const CodeSuffix: string := "@swasth-hcx-dev"
  const CodeDigits: nat := 8

  /** The participant code whose middle part is `digits`. */
  function CodeWith(digits: string): (code: string)
    ensures |code| == |CodePrefix| + |digits| + |CodeSuffix|
  {
    CodePrefix + digits + CodeSuffix
  }

  /** The regular expression read position by position: the literal prefix,
      eight digits, the literal suffix, and nothing else. */
  predicate ValidateParticipantCode(code: string) {
    var mid := |CodePrefix|;
    var end := mid + CodeDigits;
    |code| == end + |CodeSuffix| &&
    code[..mid] == CodePrefix &&
    All(code[mid..end], Digit) &&
    code[end..] == CodeSuffix
  }

  /** A code is accepted exactly when it is the prefix, an eight-digit
      string and the suffix, in that order. */
  lemma ParticipantCodeIff(code: string)
    ensures ValidateParticipantCode(code) <==>
            exists digits :: |digits| == CodeDigits && All(digits, Digit) && code == CodeWith(digits)
  {
    var mid, end := |CodePrefix|, |CodePrefix| + CodeDigits;
    if ValidateParticipantCode(code) {
      var digits := code[mid..end];
      calc {
        code;
        code[..mid] + code[mid..end] + code[end..];
        CodePrefix + digits + CodeSuffix;
        CodeWith(digits);
      }
    }
    if exists digits :: |digits| == CodeDigits && All(digits, Digit) && code == CodeWith(digits) {
      var digits :| |digits| == CodeDigits && All(digits, Digit) && code == CodeWith(digits);
      CodeWithParts(digits);
    }
  }

  /** The three parts of a code built by `CodeWith` are found back at their
      positions. */
  lemma CodeWithParts(digits: string)
    ensures CodeWith(digits)[..|CodePrefix|] == CodePrefix
    ensures CodeWith(digits)[|CodePrefix|..|CodePrefix| + |digits|] == digits
    ensures CodeWith(digits)[|CodePrefix| + |digits|..] == CodeSuffix
  {
    var code := CodeWith(digits);
    assert code == (CodePrefix + digits) + CodeSuffix;
    assert code[..|CodePrefix| + |digits|] == CodePrefix + digits;
  }

  /** Between the prefix and the suffix, the validator accepts exactly eight
      digits: a seven- or nine-digit middle, or a non-digit, is rejected. */
  lemma CodeWithAccepted(digits: string)
    ensures ValidateParticipantCode(CodeWith(digits)) <==> |digits| == CodeDigits && All(digits, Digit)
  {
    CodeWithParts(digits);
  }

  /** Every accepted participant code is 35 characters long. */
  lemma AcceptedCodeLength(code: string)
    requires ValidateParticipantCode(code)
    ensures |code| == 35
  {
  }

  lemma ParticipantCodeExamples()
    ensures ValidateParticipantCode("hosp_demoop_12345678@swasth-hcx-dev")
    ensures !ValidateParticipantCode("hosp_demoop_1234567@swasth-hcx-dev")
    ensures !ValidateParticipantCode("")
  {
    var digits := "12345678";
    assert All(digits, Digit);
    CodeWithAccepted(digits);
    assert "hosp_demoop_12345678@swasth-hcx-dev" == CodeWith(digits);
    assert |"hosp_demoop_1234567@swasth-hcx-dev"| == 34;
  }

  // ---------------------------------------------------------------------
  // E-mail: /^[a-zA-Z0-9._%+-]+@[a-zA-Z0-9.-]+\.[a-zA-Z]{2,}$/
  // ---------------------------------------------------------------------

  /** The pattern matches with its `@` at position `at` and the `.` before
      the top-level domain at position `dot`: a non-empty local part, a
      non-empty domain and a top-level domain of at least two letters. */
  predicate EmailSplit(email: string, at: nat, dot: nat) {
    0 < at && at + 1 < dot && dot + 2 < |email| &&
    email[at] == '@' && email[dot] == '.' &&
    All(email[..at], LocalPart) &&
    All(email[at + 1..dot], DomainPart) &&
    All(email[dot + 1..], Letter)
  }

  /** The regular expression read literally: it matches when some split
      point for `@` and some for the last `.` fit the pattern. */
  predicate ValidateEmail(email: string) {
    exists at: nat, dot: nat | at < dot < |email| :: EmailSplit(email, at, dot)
  }

  /** The position of the first `c` in `s`, or `|s|` when there is none. */
  function FindFirst(s: string, c: char): (i: nat)
    ensures i <= |s|
    ensures i < |s| ==> s[i] == c
    ensures forall k :: 0 <= k < i ==> s[k] != c
  {
    if s == [] then 0
    else if s[0] == c then 0
    else 1 + FindFirst(s[1..], c)
  }

  /** The position of the last `c` in `s`, or -1 when there is none. */
  function FindLast(s: string, c: char): (i: int)
    ensures -1 <= i < |s|
    ensures 0 <= i ==> s[i] == c
    ensures forall k :: i < k < |s| ==> s[k] != c
  {
    if s == [] then -1
    else if s[|s| - 1] == c then |s| - 1
    else FindLast(s[..|s| - 1], c)
  }

  /** A deterministic reading of the same pattern: the address splits at
      its first `@` and its last `.`, and each part has the right length and
      characters. */
  predicate ScanEmail(email: string) {
    var at := FindFirst(email, '@');
    var dot := FindLast(email, '.');
    0 < at && at + 1 < dot && dot + 2 < |email| &&
    All(email[..at], LocalPart) &&
    All(email[at + 1..dot], DomainPart) &&
    All(email[dot + 1..], Letter)
  }

  /** The regular expression and the deterministic scan accept the same
      strings: whenever the pattern matches, its `@` is the first one and
      its `.` the last one. */
  lemma EmailScanIff(email: string)
    ensures ValidateEmail(email) <==> ScanEmail(email)
  {
    var at0 := FindFirst(email, '@');
    var dot0 := FindLast(email, '.');
    if ValidateEmail(email) {
      var at: nat, dot: nat :| at < dot < |email| && EmailSplit(email, at, dot);
      SplitIsFirstAndLast(email, at, dot);
    }
    if ScanEmail(email) {
      assert EmailSplit(email, at0, dot0);
    }
  }

  /** In any split that fits the pattern, the `@` is the first one in the
      string (the local part has none) and the `.` the last one (the
      top-level domain is all letters). */
  lemma SplitIsFirstAndLast(email: string, at: nat, dot: nat)
    requires EmailSplit(email, at, dot)
    ensures FindFirst(email, '@') == at
    ensures FindLast(email, '.') == dot
  {
    forall k | 0 <= k < at ensures email[k] != '@' {
      assert IsLocalChar(email[..at][k]);
    }
    forall k | dot < k < |email| ensures email[k] != '.' {
      assert IsAsciiLetter(email[dot + 1..][k - dot - 1]);
    }
  }

  /** What every accepted address looks like: exactly one `@`, preceded by
      a non-empty local part; after its last `.` come at least two letters
      and nothing else. */
  predicate EmailShape(email: string) {
    var last := FindLast(email, '.');
    multiset(email)['@'] == 1 &&
    0 < FindFirst(email, '@') < |email| &&
    0 <= last && |email| - (last + 1) >= 2 && All(email[last + 1..], Letter)
  }

  lemma AcceptedEmailShape(email: string)
    requires ValidateEmail(email)
    ensures EmailShape(email)
  {
    var at: nat, dot: nat :| at < dot < |email| && EmailSplit(email, at, dot);
    SplitIsFirstAndLast(email, at, dot);
    SplitHasOneAt(email, at, dot);
  }

  /** A split that fits the pattern has no `@` outside position `at`. */
  lemma SplitHasOneAt(email: string, at: nat, dot: nat)
    requires EmailSplit(email, at, dot)
    ensures multiset(email)['@'] == 1
  {
    var local, domain, tld := email[..at], email[at + 1..dot], email[dot + 1..];
    assert email == local + ([email[at]] + domain + [email[dot]] + tld);
    NoCharIn(local, LocalPart, '@');
    NoCharIn(domain, DomainPart, '@');
    NoCharIn(tld, Letter, '@');
  }

  /** A character outside the class `k` does not occur in a string of
      characters from `k`. */
  lemma NoCharIn(s: string, k: CharClass, c: char)
    requires All(s, k) && !InClass(c, k)
    ensures multiset(s)[c] == 0
  {
    forall i | 0 <= i < |s| ensures s[i] != c {
      assert InClass(s[i], k);
    }
  }

  lemma EmailAcceptedExample()
    ensures ValidateEmail("jo.doe@mail.example.org")
  {
    var ok := "jo.doe@mail.example.org";
    assert EmailSplit(ok, 6, 19) by {
      assert All(ok[..6], LocalPart);
      assert All(ok[7..19], DomainPart);
      assert All(ok[20..], Letter);
    }
  }

  /** A one-letter top-level domain is rejected. */
  lemma EmailShortTldExample()
    ensures !ValidateEmail("jo@example.c")
  {
    var bad := "jo@example.c";
    EmailScanIff(bad);
    assert bad[10] == '.' && bad[11] == 'c';
  }

  /** A second `@` is rejected. */
  lemma EmailTwoAtExample()
    ensures !ValidateEmail("jo@@example.com")
  {
    var bad := "jo@@example.com";
    EmailScanIff(bad);
    assert FindFirst(bad, '@') == 2;
    var dot := FindLast(bad, '.');
    if 3 < dot {
      assert !InClass(bad[3..dot][0], DomainPart);
    }
  }

  /** An empty local part is rejected. */
  lemma EmailEmptyLocalExample()
    ensures !ValidateEmail("@example.com")
  {
    EmailScanIff("@example.com");
    assert FindFirst("@example.com", '@') == 0;
  }
}
