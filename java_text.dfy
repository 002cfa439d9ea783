/** The few `java.lang.String` and `Character` operations the domain relies on:
    `isBlank`, `trim`, ASCII case mapping and `equalsIgnoreCase`.
    `isBlank` and `trim` use different notions of "space", and both are kept. */
module JavaText {

  // ---------------------------------------------------------------------------
  // Blank test (String.isBlank, built on Character.isWhitespace)
  // ---------------------------------------------------------------------------

  /** Character.isWhitespace: the tab/line-feed/vertical-tab/form-feed/return
      block, the four information separators, and the Unicode space, line and
      paragraph separators except the non-breaking ones (U+00A0, U+2007, U+202F). */
  predicate IsWhitespace(c: char) {
    || ('\t' <= c <= '\r')
    || ('\U{1C}' <= c <= ' ')
    || c == '\U{1680}'
    || ('\U{2000}' <= c <= '\U{2006}')
    || ('\U{2008}' <= c <= '\U{200A}')
    || c == '\U{2028}'
    || c == '\U{2029}'
    || c == '\U{205F}'
    || c == '\U{3000}'
  }

  /** String.isBlank: empty, or whitespace only. */
  predicate IsBlank(s: string) {
    forall i :: 0 <= i < |s| ==> IsWhitespace(s[i])
  }

  // ---------------------------------------------------------------------------
  // String.trim: strips every leading and trailing char at or below U+0020
  // ---------------------------------------------------------------------------

  predicate IsTrimmable(c: char) {
    c <= ' '
  }

  /** No trimmable char at either end. */
  predicate IsTrimmed(s: string) {
    s == [] || (!IsTrimmable(s[0]) && !IsTrimmable(s[|s| - 1]))
  }

  /** Index of the first char that trim keeps, or |s| if it keeps none. */
  function LeadingEnd(s: string): (st: nat)
    ensures st <= |s|
    ensures forall i :: 0 <= i < st ==> IsTrimmable(s[i])
    ensures st < |s| ==> !IsTrimmable(s[st])
  {
    if s == [] || !IsTrimmable(s[0]) then 0 else 1 + LeadingEnd(s[1..])
  }

  /** One past the last char that trim keeps, or 0 if it keeps none. */
  function TrailingStart(s: string): (e: nat)
    ensures e <= |s|
    ensures forall i :: e <= i < |s| ==> IsTrimmable(s[i])
    ensures 0 < e ==> !IsTrimmable(s[e - 1])
  {
    if s == [] || !IsTrimmable(s[|s| - 1]) then |s| else TrailingStart(s[..|s| - 1])
  }

  function Trim(s: string): (r: string)
    ensures IsTrimmed(r)
    ensures |r| <= |s|
    ensures r == [] <==> forall i :: 0 <= i < |s| ==> IsTrimmable(s[i])
    ensures r != [] ==> LeadingEnd(s) < TrailingStart(s) && r == s[LeadingEnd(s)..TrailingStart(s)]
  {
    var st := LeadingEnd(s);
    if st == |s| then [] else s[st..TrailingStart(s)]
  }

  lemma TrimmedIsFixpoint(s: string)
    requires IsTrimmed(s)
    ensures Trim(s) == s
  {
    if s != [] {
      assert LeadingEnd(s) == 0;
      assert TrailingStart(s) == |s|;
    }
  }

  /** Trimming twice is trimming once. */
  lemma TrimIdempotent(s: string)
    ensures Trim(Trim(s)) == Trim(s)
  {
    TrimmedIsFixpoint(Trim(s));
  }

  /** A string is its own trim exactly when it has no trimmable char at either end. */
  lemma TrimFixpointIff(s: string)
    ensures Trim(s) == s <==> IsTrimmed(s)
  {
    if IsTrimmed(s) {
      TrimmedIsFixpoint(s);
    }
  }

  /** A char that is neither trimmable nor whitespace makes the input non-blank
      and survives trimming, so the trimmed text is non-blank as well. */
  lemma VisibleCharSurvivesTrim(s: string, i: nat)
    requires i < |s| && !IsTrimmable(s[i]) && !IsWhitespace(s[i])
    ensures !IsBlank(s)
    ensures Trim(s) != [] && !IsBlank(Trim(s))
  {
    var st, e := LeadingEnd(s), TrailingStart(s);
    assert st <= i < e;
    assert Trim(s)[i - st] == s[i];
  }

  /** The blank test and trim disagree: U+0000 is not whitespace, so the blank
      check accepts it, yet trim strips it to the empty string; U+3000 is
      whitespace above U+0020, so trim keeps it and the trimmed text is blank. */
  lemma BlankTestAndTrimDisagree()
    ensures !IsBlank("\U{0}") && Trim("\U{0}") == []
    ensures !IsBlank("\U{1}\U{3000}") && Trim("\U{1}\U{3000}") == "\U{3000}" && IsBlank("\U{3000}")
  {
    var z := "\U{0}";
    assert !IsWhitespace(z[0]);
    assert z[1..] == [];
    assert LeadingEnd(z) == 1;
    var s := "\U{1}\U{3000}";
    assert !IsWhitespace(s[0]);
    assert LeadingEnd(s[1..]) == 0;
    assert LeadingEnd(s) == 1;
    assert TrailingStart(s) == 2;
  }

  // ---------------------------------------------------------------------------
  // ASCII case mapping (toUpperCase / toLowerCase / equalsIgnoreCase)
  // ---------------------------------------------------------------------------

  predicate IsUpperAscii(c: char) {
    'A' <= c <= 'Z'
  }

  predicate IsLowerAscii(c: char) {
    'a' <= c <= 'z'
  }

  function UpperChar(c: char): char {
    if IsLowerAscii(c) then (c as int - 32) as char else c
  }

  function LowerChar(c: char): char {
    if IsUpperAscii(c) then (c as int + 32) as char else c
  }

  /** String.toUpperCase under a default locale whose case mapping is ASCII's. */
  function ToUpperCase(s: string): string
  {
    seq(|s|, i requires 0 <= i < |s| => UpperChar(s[i]))
  }

  /** String.toLowerCase under a default locale whose case mapping is ASCII's. */
  function ToLowerCase(s: string): string
  {
    seq(|s|, i requires 0 <= i < |s| => LowerChar(s[i]))
  }

  /** Character-level test of String.equalsIgnoreCase (regionMatches with
      ignoreCase): equal, equal after upper-casing, or equal after
      upper- then lower-casing. */
  predicate CharsEqualIgnoringCase(a: char, b: char) {
    || a == b
    || UpperChar(a) == UpperChar(b)
    || LowerChar(UpperChar(a)) == LowerChar(UpperChar(b))
  }

  /** String.equalsIgnoreCase on a non-null argument. */
  predicate EqualsIgnoreCase(x: string, y: string) {
    |x| == |y| && forall i :: 0 <= i < |x| ==> CharsEqualIgnoringCase(x[i], y[i])
  }

  lemma CharsEqualIgnoringCaseIff(a: char, b: char)
    ensures CharsEqualIgnoringCase(a, b) <==> LowerChar(a) == LowerChar(b)
  {
  }

  /** equalsIgnoreCase holds exactly when both strings lower-case to the same text;
      hence it is reflexive, symmetric and transitive. */
  lemma {:induction false} EqualsIgnoreCaseIff(x: string, y: string)
    ensures EqualsIgnoreCase(x, y) <==> ToLowerCase(x) == ToLowerCase(y)
  {
    if EqualsIgnoreCase(x, y) {
      forall i | 0 <= i < |x|
        ensures ToLowerCase(x)[i] == ToLowerCase(y)[i]
      {
        CharsEqualIgnoringCaseIff(x[i], y[i]);
      }
    }
    if ToLowerCase(x) == ToLowerCase(y) {
      forall i | 0 <= i < |x|
        ensures CharsEqualIgnoringCase(x[i], y[i])
      {
        assert ToLowerCase(x)[i] == ToLowerCase(y)[i];
        CharsEqualIgnoringCaseIff(x[i], y[i]);
      }
    }
  }

  /** Upper-casing leaves no lower-case letter and keeps every other char;
      lower-casing leaves no upper-case letter and keeps every other char;
      both results equal the input ignoring case. */
  lemma CaseMappingProperties(s: string)
    ensures forall i :: 0 <= i < |s| ==> !IsLowerAscii(ToUpperCase(s)[i])
    ensures forall i :: 0 <= i < |s| && !IsLowerAscii(s[i]) ==> ToUpperCase(s)[i] == s[i]
    ensures forall i :: 0 <= i < |s| ==> !IsUpperAscii(ToLowerCase(s)[i])
    ensures forall i :: 0 <= i < |s| && !IsUpperAscii(s[i]) ==> ToLowerCase(s)[i] == s[i]
    ensures EqualsIgnoreCase(ToUpperCase(s), s) && EqualsIgnoreCase(ToLowerCase(s), s)
  {
  }

  lemma ToLowerCaseIdempotent(s: string)
    ensures ToLowerCase(ToLowerCase(s)) == ToLowerCase(s)
  {
  }

  lemma ToUpperCaseIdempotent(s: string)
    ensures ToUpperCase(ToUpperCase(s)) == ToUpperCase(s)
  {
  }

  lemma {:induction false} LeadingEndIgnoresCase(s: string)
    ensures LeadingEnd(ToLowerCase(s)) == LeadingEnd(s)
  {
    if s != [] && IsTrimmable(s[0]) {
      assert ToLowerCase(s)[1..] == ToLowerCase(s[1..]);
      LeadingEndIgnoresCase(s[1..]);
    }
  }

  lemma {:induction false} TrailingStartIgnoresCase(s: string)
    ensures TrailingStart(ToLowerCase(s)) == TrailingStart(s)
  {
    if s != [] && IsTrimmable(s[|s| - 1]) {
      assert ToLowerCase(s)[..|s| - 1] == ToLowerCase(s[..|s| - 1]);
      TrailingStartIgnoresCase(s[..|s| - 1]);
    }
  }

  /** Lower-casing and trimming commute, since case mapping never turns a char
      at or below U+0020 into one above it or back. */
  lemma TrimLowerCommute(s: string)
    ensures Trim(ToLowerCase(s)) == ToLowerCase(Trim(s))
  {
    LeadingEndIgnoresCase(s);
    TrailingStartIgnoresCase(s);
    var st, e := LeadingEnd(s), TrailingStart(s);
    if st < |s| {
      assert ToLowerCase(s)[st..e] == ToLowerCase(s[st..e]);
    }
  }
}
