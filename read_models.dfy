/** The read-side records the application returns: book details, catalog
    entries and borrowers, each built by copying fields of an aggregate. */
module ReadModels {
  import opened Wrappers
  import opened Identifiers
  import opened IsbnValue
  import opened EmailValue
  import opened BookAggregate
  import opened CatalogEntryAggregate
  import opened BorrowerAggregate

  /** BookDetailsDto; `None` stands for a null borrower id or timestamp. */
  datatype BookDetailsDto = BookDetailsDto(
    id: string,
    isbn: string,
    title: string,
    author: string,
    available: bool,
    borrowerId: Option<string>,
    borrowedOn: Option<Timestamp>)

  datatype CatalogEntryDto = CatalogEntryDto(isbn: string, title: string, author: string)

  datatype BorrowerDto = BorrowerDto(id: string, name: string, emailAddress: string)

  /** getBorrowerId().map(id -> id.value()).orElse(null) */
  function BorrowerValue(b: Option<BorrowerId>): Option<string>
  {
    match b
    case None => None
    case Some(id) => Some(id.value)
  }

  /** BookDetailsDto.from(book, catalogEntry). */
  function DetailsOf(book: BookRecord, entry: EntryRecord): BookDetailsDto {
    BookDetailsDto(book.id.value, book.isbn.value, entry.title, entry.author,
      book.loan.borrowerId.None?, BorrowerValue(book.loan.borrowerId), book.loan.borrowedOn)
  }

  /** BookDetailsDto.from(bookWithCatalog). */
  function DetailsOfRow(row: BookWithCatalog): BookDetailsDto {
    BookDetailsDto(row.id.value, row.isbn.value, row.title, row.author,
      row.available, BorrowerValue(row.borrowerId), row.borrowedOn)
  }

  /** CatalogEntryDto.from(catalogEntry). */
  function EntryDtoOf(e: EntryRecord): CatalogEntryDto {
    CatalogEntryDto(e.isbn.value, e.title, e.author)
  }

  /** BorrowerDto.from(borrower). */
  function BorrowerDtoOf(b: BorrowerRecord): BorrowerDto {
    BorrowerDto(b.id.value, b.name, b.email.value)
  }

  // ---------------------------------------------------------------------------
  // Properties
  // ---------------------------------------------------------------------------

  /** The details of a book carry its canonical id and ISBN strings, the
      entry's title and author, availability exactly when no borrower is
      recorded, the borrower's id string or null, and the time it was lent. */
  lemma DetailsOfReflectsBook(book: BookRecord, entry: EntryRecord)
    ensures var d := DetailsOf(book, entry);
      && d.id == book.id.ToString() && d.isbn == book.isbn.ToString()
      && d.title == entry.title && d.author == entry.author
      && (d.available <==> book.loan.borrowerId.None?)
      && (d.borrowerId.None? <==> book.loan.borrowerId.None?)
      && (book.loan.borrowerId.Some? ==> d.borrowerId == Some(book.loan.borrowerId.value.ToString()))
      && d.borrowedOn == book.loan.borrowedOn
  {
  }

  /** The two factories agree: projecting a book with an entry's title and
      author, then building the details, gives the details built from the
      book and the entry directly. */
  lemma DetailsPathsAgree(book: BookRecord, entry: EntryRecord)
    ensures DetailsOfRow(WithCatalog(book, entry.title, entry.author)) == DetailsOf(book, entry)
  {
  }

  /** An available book that keeps the loan invariant shows neither a borrower
      nor a timestamp. */
  lemma AvailableDetailsShowNoLoan(book: BookRecord, entry: EntryRecord)
    requires LoanInvariant(book.loan)
    ensures DetailsOf(book, entry).available ==>
      DetailsOf(book, entry).borrowerId.None? && DetailsOf(book, entry).borrowedOn.None?
  {
  }

  /** Entries with equal ISBN, title and author give equal DTOs, and the DTO
      determines all three. */
  lemma EntryDtoInjective(a: EntryRecord, b: EntryRecord)
    ensures EntryDtoOf(a) == EntryDtoOf(b) <==> a == b
  {
  }

  /** The borrower DTO determines the borrower record. */
  lemma BorrowerDtoInjective(a: BorrowerRecord, b: BorrowerRecord)
    ensures BorrowerDtoOf(a) == BorrowerDtoOf(b) <==> a == b
  {
  }
}
