/** The read-only use cases: one catalog entry by ISBN, all books with their
    catalog text, all borrowers. */
module Queries {
  import opened Wrappers
  import opened LibraryErrors
  import opened IsbnValue
  import opened BookAggregate
  import opened CatalogEntryAggregate
  import opened BorrowerAggregate
  import opened ReadModels

  /** GetCatalogEntryByIsbnQueryHandler.handle: parse the ISBN (its error
      propagates), look the entry up by the normalised ISBN, and report a
      missing entry with the query's raw text. */
  function GetCatalogEntryByIsbn(catalog: map<Isbn, EntryRecord>, raw: string): Result<CatalogEntryDto, Error> {
    match IsbnValue.Create(raw)
    case Failure(e) => Failure(e)
    case Success(isbn) =>
      if isbn in catalog then Success(EntryDtoOf(catalog[isbn])) else Failure(NotFound(CatalogEntryEntity, raw))
  }

  /** GetAllBooksQueryHandler.handle: the details of every row, in order. */
  function GetAllBooks(rows: seq<BookWithCatalog>): (r: seq<BookDetailsDto>)
    ensures |r| == |rows|
    ensures forall i :: 0 <= i < |rows| ==> r[i] == DetailsOfRow(rows[i])
  {
    if rows == [] then [] else [DetailsOfRow(rows[0])] + GetAllBooks(rows[1..])
  }

  /** GetAllBorrowersQueryHandler.handle: the DTO of every borrower, in order. */
  function GetAllBorrowers(all: seq<BorrowerRecord>): (r: seq<BorrowerDto>)
    ensures |r| == |all|
    ensures forall i :: 0 <= i < |all| ==> r[i] == BorrowerDtoOf(all[i])
  {
    if all == [] then [] else [BorrowerDtoOf(all[0])] + GetAllBorrowers(all[1..])
  }

  // ---------------------------------------------------------------------------
  // Properties
  // ---------------------------------------------------------------------------

  /** The lookup fails with the ISBN error on an invalid ISBN, with NotFound
      (quoting the raw text) when no entry has the normalised ISBN, and
      otherwise returns that entry's canonical ISBN, title and author. */
  lemma GetCatalogEntryByIsbnIff(catalog: map<Isbn, EntryRecord>, raw: string)
    requires forall k :: k in catalog ==> catalog[k].isbn == k
    ensures IsbnValue.Create(raw).Failure? ==>
      GetCatalogEntryByIsbn(catalog, raw) == Failure(Validation(InvalidIsbnMessage + Normalize(raw)))
    ensures IsbnValue.Create(raw).Success? && IsbnValue.Create(raw).value !in catalog ==>
      GetCatalogEntryByIsbn(catalog, raw) == Failure(NotFound(CatalogEntryEntity, raw))
    ensures GetCatalogEntryByIsbn(catalog, raw).Success? ==>
      var e := catalog[IsbnValue.Create(raw).value];
      GetCatalogEntryByIsbn(catalog, raw).value == CatalogEntryDto(Normalize(raw), e.title, e.author)
  {
    CreateSucceedsIff(raw);
  }

  /** A hyphen or space in the query does not change a successful result. */
  lemma GetCatalogEntryIgnoresSeparators(catalog: map<Isbn, EntryRecord>, a: string, c: char, b: string)
    requires c == '-' || c == ' '
    requires GetCatalogEntryByIsbn(catalog, a + b).Success?
    ensures GetCatalogEntryByIsbn(catalog, a + [c] + b) == GetCatalogEntryByIsbn(catalog, a + b)
  {
    SeparatorInsensitive(a, c, b);
  }

  /** Listing distributes over concatenation of the rows. */
  lemma {:induction false} GetAllBooksAppend(a: seq<BookWithCatalog>, b: seq<BookWithCatalog>)
    ensures GetAllBooks(a + b) == GetAllBooks(a) + GetAllBooks(b)
  {
    if a == [] {
      assert a + b == b;
    } else {
      assert (a + b)[1..] == a[1..] + b;
      GetAllBooksAppend(a[1..], b);
    }
  }

  /** Rows projected from books show each book's lending state: available
      exactly when it has no borrower, with its borrower's id string and the
      time it was lent. */
  lemma GetAllBooksShowsLending(books: seq<BookRecord>, titles: seq<string>, authors: seq<string>, i: nat)
    requires |titles| == |books| && |authors| == |books| && i < |books|
    ensures var r := GetAllBooks(seq(|books|, j requires 0 <= j < |books| => WithCatalog(books[j], titles[j], authors[j])));
      && |r| == |books|
      && (r[i].available <==> books[i].loan.borrowerId.None?)
      && r[i].borrowerId == BorrowerValue(books[i].loan.borrowerId)
      && r[i].borrowedOn == books[i].loan.borrowedOn
      && r[i].id == books[i].id.value
  {
  }

  /** Listing distributes over concatenation of the borrowers. */
  lemma {:induction false} GetAllBorrowersAppend(a: seq<BorrowerRecord>, b: seq<BorrowerRecord>)
    ensures GetAllBorrowers(a + b) == GetAllBorrowers(a) + GetAllBorrowers(b)
  {
    if a == [] {
      assert a + b == b;
    } else {
      assert (a + b)[1..] == a[1..] + b;
      GetAllBorrowersAppend(a[1..], b);
    }
  }
}
