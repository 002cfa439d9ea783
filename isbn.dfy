/** The ISBN value object: a raw string with every `-` and ` ` removed and
    upper-cased, accepted only if it has the shape of an ISBN-10
    (nine digits, then a digit or `X`) or of an ISBN-13 (thirteen digits).
    No check digit is verified. */
module IsbnValue {
  import opened Wrappers
  import opened JavaText
  import opened LibraryErrors

  datatype Isbn = Isbn(value: string) {
    /** toString returns the canonical value. */
    function ToString(): string {
      value
    }
  }

  const InvalidIsbnMessage := "ISBN must be 10 or 13 digits. Got: "

  /** String.replace(c, ""): every occurrence of `c` removed, order kept. */
  function RemoveAll(s: string, c: char): (r: string)
    ensures |r| <= |s|
    ensures forall d :: d in r ==> d in s && d != c
  {
    if s == [] then [] else (if s[0] == c then [] else [s[0]]) + RemoveAll(s[1..], c)
  }

  /** Drops the separators the normalisation removes, hyphens first, then
      spaces: only chars of the input remain, and never more of them. */
  function StripSeparators(s: string): (r: string)
    ensures '-' !in r && ' ' !in r
    ensures |r| <= |s|
    ensures forall d :: d in r ==> d in s
  {
    RemoveAll(RemoveAll(s, '-'), ' ')
  }

  function Normalize(s: string): (r: string)
    ensures '-' !in r && ' ' !in r
    ensures forall i :: 0 <= i < |r| ==> !IsLowerAscii(r[i])
  {
    var t := StripSeparators(s);
    assert forall i :: 0 <= i < |t| ==> t[i] in t;
    ToUpperCase(t)
  }

  predicate IsDigit(c: char) {
    '0' <= c <= '9'
  }

  /** ^\d{9}[\dX]$ */
  predicate MatchesIsbn10(v: string) {
    |v| == 10 && (forall i :: 0 <= i < 9 ==> IsDigit(v[i])) && (IsDigit(v[9]) || v[9] == 'X')
  }

  /** ^\d{13}$ */
  predicate MatchesIsbn13(v: string) {
    |v| == 13 && forall i :: 0 <= i < 13 ==> IsDigit(v[i])
  }

  predicate IsValid(v: string) {
    MatchesIsbn10(v) || MatchesIsbn13(v)
  }

  /** The compact constructor (and `create`): normalise, then validate; the
      failure message quotes the normalised text. */
  function Create(raw: string): Result<Isbn, Error> {
    var v := Normalize(raw);
    if IsValid(v) then Success(Isbn(v)) else Failure(Validation(InvalidIsbnMessage + v))
  }

  /** tryParse; `None` stands for a null argument. */
  function TryParse(raw: Option<string>): Option<Isbn> {
    match raw
    case None => None
    case Some(s) =>
      match Create(s)
      case Success(isbn) => Some(isbn)
      case Failure(_) => None
  }

  // ---------------------------------------------------------------------------
  // Properties
  // ---------------------------------------------------------------------------

  /** ISBN shape judged on the separator-free input, before upper-casing:
      the tenth char of an ISBN-10 may be `x` or `X`. */
  predicate IsbnShaped(t: string) {
    || (|t| == 10 && (forall i :: 0 <= i < 9 ==> IsDigit(t[i])) && (IsDigit(t[9]) || t[9] == 'X' || t[9] == 'x'))
    || (|t| == 13 && forall i :: 0 <= i < 13 ==> IsDigit(t[i]))
  }

  lemma UpperCharKeepsDigits(c: char)
    ensures IsDigit(UpperChar(c)) <==> IsDigit(c)
    ensures UpperChar(c) == 'X' <==> (c == 'x' || c == 'X')
  {
  }

  /** Creation succeeds exactly when the input without its hyphens and spaces
      is nine digits followed by a digit, `x` or `X`, or thirteen digits;
      otherwise it fails with the "ISBN must be 10 or 13 digits" message. */
  lemma CreateSucceedsIff(raw: string)
    ensures Create(raw).Success? <==> IsbnShaped(StripSeparators(raw))
    ensures Create(raw).Success? ==> Create(raw).value == Isbn(Normalize(raw))
    ensures Create(raw).Failure? ==>
      Create(raw).error == Validation(InvalidIsbnMessage + Normalize(raw))
  {
    var t := StripSeparators(raw);
    var v := Normalize(raw);
    assert v == ToUpperCase(t);
    forall i | 0 <= i < |t|
      ensures IsDigit(v[i]) <==> IsDigit(t[i])
      ensures v[i] == 'X' <==> (t[i] == 'x' || t[i] == 'X')
    {
      UpperCharKeepsDigits(t[i]);
    }
  }

  /** A created ISBN has length 10 or 13 and is all digits, except that the
      last char of a 10-char value may be `X`. */
  lemma CreatedValueShape(raw: string)
    requires Create(raw).Success?
    ensures var v := Create(raw).value.value;
      && (|v| == 10 || |v| == 13)
      && forall i :: 0 <= i < |v| ==> IsDigit(v[i]) || (|v| == 10 && i == 9 && v[i] == 'X')
  {
  }

  lemma {:induction false} RemoveAllAbsent(s: string, c: char)
    requires c !in s
    ensures RemoveAll(s, c) == s
  {
    if s != [] {
      assert s[0] != c;
      assert c !in s[1..];
      RemoveAllAbsent(s[1..], c);
    }
  }

  /** Stripping separators removes nothing else: a text without `-` and ` `
      is kept as is. */
  lemma StripSeparatorsKeepsPlainText(s: string)
    requires '-' !in s && ' ' !in s
    ensures StripSeparators(s) == s
  {
    RemoveAllAbsent(s, '-');
    RemoveAllAbsent(s, ' ');
  }

  /** A string is already in normal form exactly when it holds no `-`, no ` `
      and no lower-case ASCII letter. */
  lemma NormalizeFixpointIff(s: string)
    ensures Normalize(s) == s <==> ('-' !in s && ' ' !in s && forall i :: 0 <= i < |s| ==> !IsLowerAscii(s[i]))
  {
    if '-' !in s && ' ' !in s && forall i :: 0 <= i < |s| ==> !IsLowerAscii(s[i]) {
      RemoveAllAbsent(s, '-');
      RemoveAllAbsent(s, ' ');
      assert StripSeparators(s) == s;
    }
  }

  /** Normalising twice is normalising once. */
  lemma NormalizeIdempotent(s: string)
    ensures Normalize(Normalize(s)) == Normalize(s)
  {
    NormalizeFixpointIff(Normalize(s));
  }

  /** Creating an ISBN from a created ISBN's value (its toString) gives the
      same ISBN back. */
  lemma CreateIdempotent(raw: string)
    requires Create(raw).Success?
    ensures Create(Create(raw).value.ToString()) == Create(raw)
  {
    NormalizeIdempotent(raw);
  }

  /** Two valid inputs give equal ISBNs exactly when they normalise alike. */
  lemma EqualIffSameNormalForm(a: string, b: string)
    requires Create(a).Success? && Create(b).Success?
    ensures Create(a) == Create(b) <==> Normalize(a) == Normalize(b)
  {
  }

  /** tryParse yields a value exactly when create succeeds, and the same value;
      null gives empty. */
  lemma TryParseAgreesWithCreate(raw: string)
    ensures TryParse(None) == None
    ensures TryParse(Some(raw)).Some? <==> Create(raw).Success?
    ensures TryParse(Some(raw)).Some? ==> Create(raw) == Success(TryParse(Some(raw)).value)
  {
  }

  lemma {:induction false} RemoveAllConcat(a: string, b: string, c: char)
    ensures RemoveAll(a + b, c) == RemoveAll(a, c) + RemoveAll(b, c)
  {
    if a == [] {
      assert a + b == b;
    } else {
      assert (a + b)[0] == a[0];
      assert (a + b)[1..] == a[1..] + b;
      RemoveAllConcat(a[1..], b, c);
    }
  }

  /** Without separators, normalising only upper-cases. */
  lemma NormalizeWithoutSeparators(s: string)
    requires '-' !in s && ' ' !in s
    ensures Normalize(s) == ToUpperCase(s)
  {
    RemoveAllAbsent(s, '-');
    RemoveAllAbsent(s, ' ');
  }

  /** Removing separators distributes over concatenation. */
  lemma StripSeparatorsConcat(a: string, b: string)
    ensures StripSeparators(a + b) == StripSeparators(a) + StripSeparators(b)
  {
    RemoveAllConcat(a, b, '-');
    RemoveAllConcat(RemoveAll(a, '-'), RemoveAll(b, '-'), ' ');
  }

  /** A lone separator is stripped to nothing. */
  lemma StripSeparatorsOfSeparator(c: char)
    requires c == '-' || c == ' '
    ensures StripSeparators([c]) == []
  {
    assert [c][1..] == [];
    if c == '-' {
      assert RemoveAll([c], '-') == [];
    } else {
      assert RemoveAll([c], '-') == [c];
      assert RemoveAll([c], ' ') == [];
    }
  }

  /** Stripping separators ignores one inserted separator. */
  lemma StripSeparatorsIgnoresInsert(a: string, c: char, b: string)
    requires c == '-' || c == ' '
    ensures StripSeparators(a + [c] + b) == StripSeparators(a + b)
  {
    StripSeparatorsConcat(a + [c], b);
    StripSeparatorsConcat(a, [c]);
    StripSeparatorsConcat(a, b);
    StripSeparatorsOfSeparator(c);
    assert StripSeparators(a) + [] == StripSeparators(a);
  }

  /** Inserting a hyphen or a space anywhere in the input changes nothing:
      inputs that differ only in hyphenation or spacing create the same ISBN,
      or fail with the same message. */
  lemma SeparatorInsensitive(a: string, c: char, b: string)
    requires c == '-' || c == ' '
    ensures Create(a + [c] + b) == Create(a + b)
  {
    StripSeparatorsIgnoresInsert(a, c, b);
    assert Normalize(a + [c] + b) == Normalize(a + b);
  }

  /** An input without separators whose length is neither 10 nor 13 is rejected. */
  lemma RejectedByLength(raw: string)
    requires '-' !in raw && ' ' !in raw
    requires |raw| != 10 && |raw| != 13
    ensures Create(raw).Failure?
  {
    NormalizeWithoutSeparators(raw);
  }

  /** The empty, short and long inputs are rejected. */
  lemma RejectedLengthExamples()
    ensures Create("").Failure? && Create("123").Failure? && Create("123456789").Failure?
  {
    RejectedByLength("");
    RejectedByLength("123");
    RejectedByLength("123456789");
  }

  /** A run of digits whose length is neither 10 nor 13 (11 or 14, say) is
      rejected, and the message quotes it unchanged. */
  lemma RejectedDigitRun(d: string)
    requires forall i :: 0 <= i < |d| ==> IsDigit(d[i])
    requires |d| != 10 && |d| != 13
    ensures Create(d) == Failure(Validation(InvalidIsbnMessage + d))
  {
    assert '-' !in d && ' ' !in d by {
      forall i | 0 <= i < |d|
        ensures d[i] != '-' && d[i] != ' '
      {
        assert IsDigit(d[i]);
      }
    }
    NormalizeWithoutSeparators(d);
    assert ToUpperCase(d) == d;
  }

  /** An input of lower-case letters is rejected: no letter is a digit, and
      only the tenth char of an ISBN-10 may be an `X`. */
  lemma RejectedLetters(raw: string)
    requires |raw| > 0 && forall i :: 0 <= i < |raw| ==> IsLowerAscii(raw[i])
    ensures Create(raw).Failure?
  {
    assert '-' !in raw && ' ' !in raw by {
      forall i | 0 <= i < |raw|
        ensures raw[i] != '-' && raw[i] != ' '
      {
        assert IsLowerAscii(raw[i]);
      }
    }
    NormalizeWithoutSeparators(raw);
    assert !IsDigit(ToUpperCase(raw)[0]);
  }

  /** Nine digits followed by `x` create the same ISBN as nine digits followed
      by `X`, and that ISBN ends in `X`. */
  lemma LowerCheckCharAccepted(d: string)
    requires |d| == 9 && forall i :: 0 <= i < 9 ==> IsDigit(d[i])
    ensures Create(d + "x") == Create(d + "X")
    ensures Create(d + "X") == Success(Isbn(d + "X"))
  {
    var lo, up := d + "x", d + "X";
    NormalizeWithoutSeparators(lo);
    NormalizeWithoutSeparators(up);
    assert ToUpperCase(lo) == up;
    assert ToUpperCase(up) == up;
  }

  /** A hyphen inside a thirteen-digit ISBN is dropped. */
  lemma HyphenExample()
    ensures Create("978-0132350884") == Create("9780132350884")
  {
    assert "978-0132350884" == "978" + ['-'] + "0132350884";
    assert "9780132350884" == "978" + "0132350884";
    SeparatorInsensitive("978", '-', "0132350884");
  }
}
