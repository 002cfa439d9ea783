/** The two identifier value objects. Each wraps a non-blank string kept
    verbatim: no trimming, no case change. */
module Identifiers {
  import opened Wrappers
  import opened JavaText
  import opened LibraryErrors

  datatype BookId = BookId(value: string) {
    /** toString returns the value. */
    function ToString(): string {
      value
    }
  }

  datatype BorrowerId = BorrowerId(value: string) {
    /** toString returns the value. */
    function ToString(): string {
      value
    }
  }

  const BlankBookIdMessage := "BookId cannot be blank"
  const BlankBorrowerIdMessage := "BorrowerId cannot be blank"

  /** BookId's compact constructor (and `create`): rejects a blank value. */
  function CreateBookId(raw: string): Result<BookId, Error> {
    if IsBlank(raw) then Failure(Validation(BlankBookIdMessage)) else Success(BookId(raw))
  }

  /** BorrowerId's compact constructor (and `create`): rejects a blank value. */
  function CreateBorrowerId(raw: string): Result<BorrowerId, Error> {
    if IsBlank(raw) then Failure(Validation(BlankBorrowerIdMessage)) else Success(BorrowerId(raw))
  }

  // ---------------------------------------------------------------------------
  // Properties
  // ---------------------------------------------------------------------------

  /** Creation fails exactly on empty or whitespace-only input, with the fixed
      message, and otherwise keeps the input unchanged. */
  lemma CreateBookIdIff(raw: string)
    ensures CreateBookId(raw).Failure? <==> forall i :: 0 <= i < |raw| ==> IsWhitespace(raw[i])
    ensures CreateBookId(raw).Failure? ==> CreateBookId(raw).error == Validation(BlankBookIdMessage)
    ensures CreateBookId(raw).Success? ==> CreateBookId(raw).value.ToString() == raw
  {
  }

  lemma CreateBorrowerIdIff(raw: string)
    ensures CreateBorrowerId(raw).Failure? <==> forall i :: 0 <= i < |raw| ==> IsWhitespace(raw[i])
    ensures CreateBorrowerId(raw).Failure? ==> CreateBorrowerId(raw).error == Validation(BlankBorrowerIdMessage)
    ensures CreateBorrowerId(raw).Success? ==> CreateBorrowerId(raw).value.ToString() == raw
  {
  }

  /** Two created ids are equal exactly when their inputs are equal. */
  lemma BookIdEqualIffSameValue(a: string, b: string)
    requires CreateBookId(a).Success? && CreateBookId(b).Success?
    ensures CreateBookId(a) == CreateBookId(b) <==> a == b
  {
  }

  lemma BorrowerIdEqualIffSameValue(a: string, b: string)
    requires CreateBorrowerId(a).Success? && CreateBorrowerId(b).Success?
    ensures CreateBorrowerId(a) == CreateBorrowerId(b) <==> a == b
  {
  }

  /** The empty, space-only and tab/line-feed inputs are rejected; an input
      with surrounding spaces is kept as given. */
  lemma BookIdExamples()
    ensures CreateBookId("").Failure? && CreateBookId("   ").Failure? && CreateBookId("\t\n").Failure?
    ensures CreateBookId(" x ") == Success(BookId(" x "))
  {
    assert !IsWhitespace(" x "[1]);
  }
}
