/** The e-mail address value object: the raw text lower-cased, then trimmed,
    accepted only if it has the shape local-part `@` domain `.` top-level
    label (at least two ASCII letters). */
module EmailValue {
  import opened Wrappers
  import opened JavaText
  import opened LibraryErrors

  datatype EmailAddress = EmailAddress(value: string) {
    /** toString returns the normalised value. */
    function ToString(): string {
      value
    }
  }

  const InvalidEmailMessage := "Invalid email address: "

  // ---------------------------------------------------------------------------
  // The pattern ^[a-zA-Z0-9._%+-]+@[a-zA-Z0-9.-]+\.[a-zA-Z]{2,}$
  // ---------------------------------------------------------------------------

  predicate IsAsciiLetter(c: char) {
    IsUpperAscii(c) || IsLowerAscii(c)
  }

  predicate IsAsciiDigit(c: char) {
    '0' <= c <= '9'
  }

  /** [a-zA-Z0-9._%+-] */
  predicate IsLocalChar(c: char) {
    IsAsciiLetter(c) || IsAsciiDigit(c) || c == '.' || c == '_' || c == '%' || c == '+' || c == '-'
  }

  /** [a-zA-Z0-9.-] */
  predicate IsDomainChar(c: char) {
    IsAsciiLetter(c) || IsAsciiDigit(c) || c == '.' || c == '-'
  }

  predicate IsLocalPart(s: string) {
    |s| > 0 && forall i :: 0 <= i < |s| ==> IsLocalChar(s[i])
  }

  predicate IsDomainPart(s: string) {
    |s| > 0 && forall i :: 0 <= i < |s| ==> IsDomainChar(s[i])
  }

  predicate IsTopLevelLabel(s: string) {
    |s| >= 2 && forall i :: 0 <= i < |s| ==> IsAsciiLetter(s[i])
  }

  /** The pattern read as a regular expression: some `@` at index `a` and some
      `.` at index `p` cut the text into the three parts. */
  ghost predicate MatchesPattern(s: string) {
    exists a, p :: 0 <= a < p < |s| && s[a] == '@' && s[p] == '.'
      && IsLocalPart(s[..a]) && IsDomainPart(s[a + 1..p]) && IsTopLevelLabel(s[p + 1..])
  }

  /** Index of the first `c` in `s`, or |s| when there is none. */
  function IndexOf(s: string, c: char): (r: nat)
    ensures r <= |s|
    ensures forall i :: 0 <= i < r ==> s[i] != c
    ensures r < |s| ==> s[r] == c
  {
    if s == [] || s[0] == c then 0 else 1 + IndexOf(s[1..], c)
  }

  /** Index of the last `c` in `s`, or -1 when there is none. */
  function LastIndexOf(s: string, c: char): (r: int)
    ensures -1 <= r < |s|
    ensures forall i :: r < i < |s| ==> s[i] != c
    ensures 0 <= r ==> s[r] == c
  {
    if s == [] then -1
    else if s[|s| - 1] == c then |s| - 1
    else LastIndexOf(s[..|s| - 1], c)
  }

  /** The matcher: neither part may hold `@`, so the cut must be at the first
      `@`; the label may not hold `.`, so the second cut is at the last `.`. */
  predicate Matches(s: string) {
    var a := IndexOf(s, '@');
    a < |s| &&
    var p := a + 1 + LastIndexOf(s[a + 1..], '.');
    a < p && IsLocalPart(s[..a]) && IsDomainPart(s[a + 1..p]) && IsTopLevelLabel(s[p + 1..])
  }

  /** toLowerCase, then trim. */
  function Normalize(raw: string): string {
    Trim(ToLowerCase(raw))
  }

  /** The compact constructor (and `create`); the failure message quotes the
      text as given, not the normalised text. */
  function Create(raw: string): Result<EmailAddress, Error> {
    var n := Normalize(raw);
    if Matches(n) then Success(EmailAddress(n)) else Failure(Validation(InvalidEmailMessage + raw))
  }

  // ---------------------------------------------------------------------------
  // Properties
  // ---------------------------------------------------------------------------

  /** A cut the pattern accepts is at the first `@`... */
  lemma PatternCutAtFirstAt(s: string, a: nat)
    requires a < |s| && s[a] == '@' && IsLocalPart(s[..a])
    ensures IndexOf(s, '@') == a
  {
  }

  /** ...and at the last `.` after it. */
  lemma PatternCutAtLastDot(s: string, a: nat, p: nat)
    requires a < p < |s| && s[p] == '.' && IsTopLevelLabel(s[p + 1..])
    ensures a + 1 + LastIndexOf(s[a + 1..], '.') == p
  {
    var rest := s[a + 1..];
    var q := LastIndexOf(rest, '.');
    assert rest[p - a - 1] == '.';
  }

  lemma MatchesImpliesPattern(s: string)
    requires Matches(s)
    ensures MatchesPattern(s)
  {
    var a := IndexOf(s, '@');
    var p := a + 1 + LastIndexOf(s[a + 1..], '.');
    assert s[a + 1..][p - a - 1] == s[p];
  }

  /** A cut the pattern accepts is the cut the matcher makes. */
  lemma CutMatches(s: string, a: nat, p: nat)
    requires a < p < |s| && s[a] == '@' && s[p] == '.'
    requires IsLocalPart(s[..a]) && IsDomainPart(s[a + 1..p]) && IsTopLevelLabel(s[p + 1..])
    ensures Matches(s)
  {
    PatternCutAtFirstAt(s, a);
    PatternCutAtLastDot(s, a, p);
  }

  lemma PatternImpliesMatches(s: string)
    requires MatchesPattern(s)
    ensures Matches(s)
  {
    var a, p :| 0 <= a < p < |s| && s[a] == '@' && s[p] == '.'
      && IsLocalPart(s[..a]) && IsDomainPart(s[a + 1..p]) && IsTopLevelLabel(s[p + 1..]);
    CutMatches(s, a, p);
  }

  /** The first-`@`, last-`.` matcher accepts exactly the strings the pattern
      describes. */
  lemma MatchesIffPattern(s: string)
    ensures Matches(s) <==> MatchesPattern(s)
  {
    if Matches(s) {
      MatchesImpliesPattern(s);
    }
    if MatchesPattern(s) {
      PatternImpliesMatches(s);
    }
  }

  /** A matching text holds exactly one `@`. */
  lemma MatchesHasOneAt(s: string)
    requires Matches(s)
    ensures '@' in s
    ensures forall i, j :: 0 <= i < j < |s| && s[i] == '@' ==> s[j] != '@'
  {
    var a := IndexOf(s, '@');
    var p := a + 1 + LastIndexOf(s[a + 1..], '.');
    forall i, j | 0 <= i < j < |s| && s[i] == '@'
      ensures s[j] != '@'
    {
      if a < j < p {
        assert s[a + 1..p][j - a - 1] == s[j];
      } else if p < j {
        assert s[p + 1..][j - p - 1] == s[j];
      }
    }
  }

  /** Creation succeeds exactly when the lower-cased, trimmed text matches the
      pattern, and then holds that text; otherwise it fails with a validation
      error quoting the raw input. */
  lemma CreateSucceedsIff(raw: string)
    ensures Create(raw).Success? <==> MatchesPattern(Normalize(raw))
    ensures Create(raw).Success? ==> Create(raw).value.value == Trim(ToLowerCase(raw))
    ensures Create(raw).Failure? ==> Create(raw).error == Validation(InvalidEmailMessage + raw)
  {
    MatchesIffPattern(Normalize(raw));
  }

  /** A normalised text has no upper-case ASCII letter. */
  lemma NormalizedIsLowerCase(raw: string)
    ensures forall i :: 0 <= i < |Normalize(raw)| ==> !IsUpperAscii(Normalize(raw)[i])
  {
    var l := ToLowerCase(raw);
    var v := Normalize(raw);
    var st := LeadingEnd(l);
    forall i | 0 <= i < |v|
      ensures !IsUpperAscii(v[i])
    {
      assert v[i] == l[st + i];
    }
  }

  /** A created address holds exactly one `@`, no upper-case ASCII letter, and
      no trimmable char at either end. */
  lemma CreatedValueShape(raw: string)
    requires Create(raw).Success?
    ensures var v := Create(raw).value.value;
      && '@' in v
      && (forall i, j :: 0 <= i < j < |v| && v[i] == '@' ==> v[j] != '@')
      && (forall i :: 0 <= i < |v| ==> !IsUpperAscii(v[i]))
      && IsTrimmed(v)
  {
    MatchesHasOneAt(Normalize(raw));
    NormalizedIsLowerCase(raw);
  }

  /** A normalised text normalises to itself. */
  lemma NormalizeIdempotent(raw: string)
    ensures Normalize(Normalize(raw)) == Normalize(raw)
  {
    var l := ToLowerCase(raw);
    TrimLowerCommute(l);
    ToLowerCaseIdempotent(raw);
    TrimIdempotent(l);
  }

  /** Creating an address from a created address's value (its toString)
      gives the same address back. */
  lemma CreateIdempotent(raw: string)
    requires Create(raw).Success?
    ensures Create(Create(raw).value.ToString()) == Create(raw)
  {
    NormalizeIdempotent(raw);
  }

  /** Inputs that are equal ignoring case are accepted or rejected together,
      and when accepted they give equal addresses. */
  lemma CaseInsensitive(x: string, y: string)
    requires EqualsIgnoreCase(x, y)
    ensures Create(x).Success? <==> Create(y).Success?
    ensures Create(x).Success? ==> Create(x) == Create(y)
  {
    EqualsIgnoreCaseIff(x, y);
  }

  /** Leading and trailing spaces and control chars do not matter: the trimmed
      input is accepted or rejected with the raw one, to the same address. */
  lemma SurroundingSpaceIgnored(raw: string)
    ensures Normalize(Trim(raw)) == Normalize(raw)
    ensures Create(Trim(raw)).Success? <==> Create(raw).Success?
    ensures Create(raw).Success? ==> Create(Trim(raw)) == Create(raw)
  {
    TrimLowerCommute(raw);
    TrimIdempotent(ToLowerCase(raw));
  }

  /** Normalising never introduces an `@`. */
  lemma NormalizeKeepsAts(raw: string, k: nat)
    requires k < |Normalize(raw)| && Normalize(raw)[k] == '@'
    ensures LeadingEnd(ToLowerCase(raw)) + k < |raw| && raw[LeadingEnd(ToLowerCase(raw)) + k] == '@'
  {
    var l := ToLowerCase(raw);
    assert Normalize(raw)[k] == l[LeadingEnd(l) + k];
  }

  /** An input with no `@` is rejected. */
  lemma RejectedWithoutAt(raw: string)
    requires '@' !in raw
    ensures Create(raw) == Failure(Validation(InvalidEmailMessage + raw))
  {
    var n := Normalize(raw);
    forall k | 0 <= k < |n|
      ensures n[k] != '@'
    {
      if n[k] == '@' {
        NormalizeKeepsAts(raw, k);
      }
    }
  }

  /** Normalising keeps every `@`, shifted left past the trimmed prefix. */
  lemma NormalizeShowsAts(raw: string, i: nat)
    requires i < |raw| && raw[i] == '@'
    ensures LeadingEnd(ToLowerCase(raw)) <= i
    ensures i - LeadingEnd(ToLowerCase(raw)) < |Normalize(raw)|
    ensures Normalize(raw)[i - LeadingEnd(ToLowerCase(raw))] == '@'
  {
    var l := ToLowerCase(raw);
    assert l[i] == '@';
    VisibleCharSurvivesTrim(l, i);
    var st, e := LeadingEnd(l), TrailingStart(l);
    assert st <= i < e;
  }

  /** An input with two `@` is rejected. */
  lemma RejectedWithTwoAts(raw: string, i: nat, j: nat)
    requires i < j < |raw| && raw[i] == '@' && raw[j] == '@'
    ensures Create(raw) == Failure(Validation(InvalidEmailMessage + raw))
  {
    NormalizeShowsAts(raw, i);
    NormalizeShowsAts(raw, j);
    if Matches(Normalize(raw)) {
      MatchesHasOneAt(Normalize(raw));
    }
  }
  /** A normalised text that starts with `@` has an empty local part and is
      rejected. */
  lemma RejectedWithoutLocalPart(raw: string)
    requires Normalize(raw) != [] && Normalize(raw)[0] == '@'
    ensures Create(raw) == Failure(Validation(InvalidEmailMessage + raw))
  {
    var n := Normalize(raw);
    assert IndexOf(n, '@') == 0;
    assert !IsLocalPart(n[..0]);
  }

  /** A normalised text with no `.` after its first `@` has no top-level label
      and is rejected; this covers a text that ends at the `@`. */
  lemma RejectedWithoutDotAfterAt(raw: string, a: nat)
    requires a < |Normalize(raw)| && Normalize(raw)[a] == '@' && '@' !in Normalize(raw)[..a]
    requires forall j :: a < j < |Normalize(raw)| ==> Normalize(raw)[j] != '.'
    ensures Create(raw) == Failure(Validation(InvalidEmailMessage + raw))
  {
    var n := Normalize(raw);
    forall i | 0 <= i < a
      ensures n[i] != '@'
    {
      assert n[..a][i] == n[i];
    }
    assert IndexOf(n, '@') == a;
    var rest := n[a + 1..];
    forall j | 0 <= j < |rest|
      ensures rest[j] != '.'
    {
      assert rest[j] == n[a + 1 + j];
    }
    assert LastIndexOf(rest, '.') == -1;
  }
}
