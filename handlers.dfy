/** The state-changing use cases: register a book, borrow it, return it,
    register a borrower, update a catalog entry. Each runs against three
    stores (books, borrowers, catalog entries, each keyed by the aggregate's
    id and holding copies, as the repositories do) and an id supplier.

    Every use case is stated twice: as a pure step over a snapshot of the
    stores, which the lemmas below reason about, and as a method of the
    `Library` class, which works on the aggregates as the handlers do and is
    proved to take exactly that step. */
module Handlers {
  import opened Wrappers
  import opened JavaText
  import opened LibraryErrors
  import opened Identifiers
  import opened IsbnValue
  import opened EmailValue
  import opened BookAggregate
  import opened CatalogEntryAggregate
  import opened BorrowerAggregate
  import opened ReadModels

  datatype RegisterBookCommand = RegisterBookCommand(isbn: string, title: string, author: string)
  datatype BorrowBookCommand = BorrowBookCommand(bookId: string, borrowerId: string)
  datatype ReturnBookCommand = ReturnBookCommand(bookId: string, borrowerId: string)
  datatype RegisterBorrowerCommand = RegisterBorrowerCommand(name: string, emailAddress: string)
  datatype UpdateCatalogEntryCommand = UpdateCatalogEntryCommand(isbn: string, title: string, author: string)

  /** The three stores, and how many ids the supplier has handed out. */
  datatype Stores = Stores(
    books: map<BookId, BookRecord>,
    borrowers: map<BorrowerId, BorrowerRecord>,
    catalog: map<Isbn, EntryRecord>,
    idsDrawn: nat)

  /** The stores after a use case, and what it returned or threw. */
  datatype Step<T> = Step(after: Stores, result: Result<T, Error>)

  /** No two borrowers share an e-mail address. */
  predicate EmailsUnique(m: map<BorrowerId, BorrowerRecord>) {
    forall a, b :: a in m && b in m && m[a].email == m[b].email ==> a == b
  }

  /** What the use cases keep: each record sits under its own id, every book
      keeps the loan invariant, stored texts are trimmed, and e-mail
      addresses are unique. */
  predicate StoresInvariant(s: Stores) {
    && (forall k :: k in s.books ==> s.books[k].id == k && LoanInvariant(s.books[k].loan))
    && (forall k :: k in s.borrowers ==> s.borrowers[k].id == k && IsTrimmed(s.borrowers[k].name))
    && (forall k :: k in s.catalog ==> s.catalog[k].isbn == k && EntryInvariant(s.catalog[k]))
    && EmailsUnique(s.borrowers)
  }

  /** existsByEmailAddress */
  predicate EmailTaken(m: map<BorrowerId, BorrowerRecord>, e: EmailAddress) {
    exists k :: k in m && m[k].email == e
  }

  function MetadataMismatchMessage(rawIsbn: string): string {
    "ISBN " + rawIsbn + " exists with different title/author metadata"
  }

  function EmailExistsMessage(rawEmail: string): string {
    "A borrower with email " + rawEmail + " already exists"
  }

  /** The return handler's message for a book not lent to the requester; the
      exact text after this prefix is not known. */
  const NotBorrowedByMessage := "Book is not borrowed by borrower"

  // ---------------------------------------------------------------------------
  // The use cases as steps over the stores
  // ---------------------------------------------------------------------------

  /** validateAndReturn: the stored title and author are compared, ignoring
      case, with the command's text as given (untrimmed). */
  function ValidateAndReturn(existing: EntryRecord, cmd: RegisterBookCommand): Result<EntryRecord, Error> {
    if !EqualsIgnoreCase(existing.title, cmd.title) || !EqualsIgnoreCase(existing.author, cmd.author)
    then Failure(Conflict(MetadataMismatchMessage(cmd.isbn)))
    else Success(existing)
  }

  /** The entry a registration uses: the stored one if its text matches,
      otherwise a new one built from the command. */
  function ResolvedEntry(catalog: map<Isbn, EntryRecord>, isbn: Isbn, cmd: RegisterBookCommand): Result<EntryRecord, Error> {
    if isbn in catalog then ValidateAndReturn(catalog[isbn], cmd) else EntryFor(isbn, cmd.title, cmd.author)
  }

  /** RegisterBookCommandHandler.handle. */
  function RegisterBookStep(s: Stores, generate: nat -> string, cmd: RegisterBookCommand): Step<BookDetailsDto> {
    match IsbnValue.Create(cmd.isbn)
    case Failure(e) => Step(s, Failure(e))
    case Success(isbn) =>
      var resolved := ResolvedEntry(s.catalog, isbn, cmd);
      if resolved.Failure? then Step(s, Failure(resolved.error))
      else
        var entry := resolved.value;
        var s1 := if isbn in s.catalog then s else s.(catalog := s.catalog[entry.isbn := entry]);
        var s2 := s1.(idsDrawn := s.idsDrawn + 1);
        match CreateBookId(generate(s.idsDrawn))
        case Failure(e) => Step(s2, Failure(e))
        case Success(id) =>
          var book := BookRecord(id, isbn, NoLoan);
          Step(s2.(books := s2.books[id := book]), Success(DetailsOf(book, entry)))
  }

  /** BorrowBookCommandHandler.handle, with `now` the clock's reading. */
  function BorrowBookStep(s: Stores, cmd: BorrowBookCommand, now: Timestamp): Step<BookDetailsDto> {
    match CreateBookId(cmd.bookId)
    case Failure(e) => Step(s, Failure(e))
    case Success(bookId) =>
      match CreateBorrowerId(cmd.borrowerId)
      case Failure(e) => Step(s, Failure(e))
      case Success(borrowerId) =>
        if bookId !in s.books then Step(s, Failure(NotFound(BookEntity, cmd.bookId)))
        else if borrowerId !in s.borrowers then Step(s, Failure(NotFound(BorrowerEntity, cmd.borrowerId)))
        else
          var book := s.books[bookId];
          match Borrowed(book.loan, borrowerId, Some(now))
          case Failure(e) => Step(s, Failure(e))
          case Success(loan) =>
            var saved := book.(loan := loan);
            var s1 := s.(books := s.books[saved.id := saved]);
            if saved.isbn !in s.catalog then Step(s1, Failure(NotFound(CatalogEntryEntity, saved.isbn.value)))
            else Step(s1, Success(DetailsOf(saved, s.catalog[saved.isbn])))
  }

  /** The return use case: the book must be lent to the requester, checked
      before Book.returnBook's own check; then the book is returned, saved,
      and joined with its catalog entry. */
  function ReturnBookStep(s: Stores, cmd: ReturnBookCommand): Step<BookDetailsDto> {
    match CreateBookId(cmd.bookId)
    case Failure(e) => Step(s, Failure(e))
    case Success(bookId) =>
      match CreateBorrowerId(cmd.borrowerId)
      case Failure(e) => Step(s, Failure(e))
      case Success(borrowerId) =>
        if bookId !in s.books then Step(s, Failure(NotFound(BookEntity, cmd.bookId)))
        else
          var book := s.books[bookId];
          if book.loan.borrowerId != Some(borrowerId) then Step(s, Failure(State(NotBorrowedByMessage)))
          else
            var saved := book.(loan := NoLoan);
            var s1 := s.(books := s.books[saved.id := saved]);
            if saved.isbn !in s.catalog then Step(s1, Failure(NotFound(CatalogEntryEntity, saved.isbn.value)))
            else Step(s1, Success(DetailsOf(saved, s.catalog[saved.isbn])))
  }

  /** RegisterBorrowerCommandHandler.handle: e-mail check, uniqueness check,
      id, then the name check inside register, then save. */
  function RegisterBorrowerStep(s: Stores, generate: nat -> string, cmd: RegisterBorrowerCommand): Step<BorrowerDto> {
    match EmailValue.Create(cmd.emailAddress)
    case Failure(e) => Step(s, Failure(e))
    case Success(email) =>
      if EmailTaken(s.borrowers, email) then Step(s, Failure(Conflict(EmailExistsMessage(cmd.emailAddress))))
      else
        var s1 := s.(idsDrawn := s.idsDrawn + 1);
        match CreateBorrowerId(generate(s.idsDrawn))
        case Failure(e) => Step(s1, Failure(e))
        case Success(id) =>
          match Registered(id, cmd.name, email)
          case Failure(e) => Step(s1, Failure(e))
          case Success(b) => Step(s1.(borrowers := s.borrowers[b.id := b]), Success(BorrowerDtoOf(b)))
  }

  /** UpdateCatalogEntryCommandHandler.handle: the title is updated, then the
      author, then the entry is saved; a failure saves nothing. */
  function UpdateCatalogEntryStep(s: Stores, cmd: UpdateCatalogEntryCommand): Step<CatalogEntryDto> {
    match IsbnValue.Create(cmd.isbn)
    case Failure(e) => Step(s, Failure(e))
    case Success(isbn) =>
      if isbn !in s.catalog then Step(s, Failure(NotFound(CatalogEntryEntity, cmd.isbn)))
      else
        var entry := s.catalog[isbn];
        match CheckedText(cmd.title, TitleField)
        case Failure(e) => Step(s, Failure(e))
        case Success(t) =>
          match CheckedText(cmd.author, AuthorField)
          case Failure(e) => Step(s, Failure(e))
          case Success(a) =>
            var updated := entry.(title := t, author := a);
            Step(s.(catalog := s.catalog[updated.isbn := updated]), Success(EntryDtoOf(updated)))
  }

  // ---------------------------------------------------------------------------
  // The handlers over the stores
  // ---------------------------------------------------------------------------

  class Library {
    var books: map<BookId, BookRecord>
    var borrowers: map<BorrowerId, BorrowerRecord>
    var catalog: map<Isbn, EntryRecord>
    var idsDrawn: nat
    /** IdGenerator.generate: the n-th id it hands out. */
    const generate: nat -> string

    function Snapshot(): Stores
      reads this
    {
      Stores(books, borrowers, catalog, idsDrawn)
    }

    predicate Valid()
      reads this
    {
      StoresInvariant(Snapshot())
    }

    constructor(initial: Stores, generate: nat -> string)
      ensures Snapshot() == initial && this.generate == generate
    {
      books := initial.books;
      borrowers := initial.borrowers;
      catalog := initial.catalog;
      idsDrawn := initial.idsDrawn;
      this.generate := generate;
    }

    /** idGenerator.generate() */
    method NextId() returns (raw: string)
      modifies this
      ensures raw == generate(old(idsDrawn))
      ensures Snapshot() == old(Snapshot()).(idsDrawn := old(idsDrawn) + 1)
    {
      raw := generate(idsDrawn);
      idsDrawn := idsDrawn + 1;
    }

    /** findByIsbn(...).map(validateAndReturn).orElseGet(createCatalogEntry):
        a new entry is saved, a matching stored one is reused. */
    method ResolveEntry(isbn: Isbn, cmd: RegisterBookCommand) returns (r: Result<EntryRecord, Error>)
      modifies this
      ensures r == ResolvedEntry(old(catalog), isbn, cmd)
      ensures Snapshot() == if r.Success? && isbn !in old(catalog)
        then old(Snapshot()).(catalog := old(catalog)[r.value.isbn := r.value])
        else old(Snapshot())
    {
      if isbn in catalog {
        return ValidateAndReturn(catalog[isbn], cmd);
      }
      var created := CatalogEntryAggregate.Create(isbn, cmd.title, cmd.author);
      if created.Failure? {
        return Failure(created.error);
      }
      var entry := created.value.Snapshot();
      catalog := catalog[entry.isbn := entry];
      return Success(entry);
    }

    method RegisterBook(cmd: RegisterBookCommand) returns (r: Result<BookDetailsDto, Error>)
      modifies this
      ensures Step(Snapshot(), r) == RegisterBookStep(old(Snapshot()), generate, cmd)
      ensures old(Valid()) ==> Valid()
    {
      ghost var s := Snapshot();
      var isbn := IsbnValue.Create(cmd.isbn);
      if isbn.Failure? {
        return Failure(isbn.error);
      }
      var resolved := ResolveEntry(isbn.value, cmd);
      if resolved.Failure? {
        return Failure(resolved.error);
      }
      var entry := resolved.value;
      RegisterBookStepResolved(s, generate, cmd, isbn.value, entry);
      var raw := NextId();
      var id := CreateBookId(raw);
      if id.Failure? {
        RegisterBookKeepsInvariant(s, generate, cmd);
        return Failure(id.error);
      }
      var book := new Book.Register(id.value, isbn.value);
      books := books[book.id := book.Snapshot()];
      r := Success(DetailsOf(book.Snapshot(), entry));
      RegisterBookKeepsInvariant(s, generate, cmd);
    }

    method BorrowBook(cmd: BorrowBookCommand, now: Timestamp) returns (r: Result<BookDetailsDto, Error>)
      modifies this
      ensures Step(Snapshot(), r) == BorrowBookStep(old(Snapshot()), cmd, now)
      ensures old(Valid()) ==> Valid()
    {
      ghost var s := Snapshot();
      var bookId := CreateBookId(cmd.bookId);
      if bookId.Failure? {
        return Failure(bookId.error);
      }
      var borrowerId := CreateBorrowerId(cmd.borrowerId);
      if borrowerId.Failure? {
        return Failure(borrowerId.error);
      }
      if bookId.value !in books {
        return Failure(NotFound(BookEntity, cmd.bookId));
      }
      var book := new Book.Restore(books[bookId.value]);
      if borrowerId.value !in borrowers {
        return Failure(NotFound(BorrowerEntity, cmd.borrowerId));
      }
      var o := book.Borrow(borrowerId.value, Some(now));
      if o.Fail? {
        return Failure(o.error);
      }
      books := books[book.id := book.Snapshot()];
      BorrowBookKeepsInvariant(s, cmd, now);
      if book.isbn !in catalog {
        return Failure(NotFound(CatalogEntryEntity, book.isbn.value));
      }
      return Success(DetailsOf(book.Snapshot(), catalog[book.isbn]));
    }

    method ReturnBook(cmd: ReturnBookCommand) returns (r: Result<BookDetailsDto, Error>)
      modifies this
      ensures Step(Snapshot(), r) == ReturnBookStep(old(Snapshot()), cmd)
      ensures old(Valid()) ==> Valid()
    {
      ghost var s := Snapshot();
      var bookId := CreateBookId(cmd.bookId);
      if bookId.Failure? {
        return Failure(bookId.error);
      }
      var borrowerId := CreateBorrowerId(cmd.borrowerId);
      if borrowerId.Failure? {
        return Failure(borrowerId.error);
      }
      if bookId.value !in books {
        return Failure(NotFound(BookEntity, cmd.bookId));
      }
      var book := new Book.Restore(books[bookId.value]);
      if book.borrowerId != Some(borrowerId.value) {
        return Failure(State(NotBorrowedByMessage));
      }
      var o := book.ReturnBook();
      assert o.Pass?;
      books := books[book.id := book.Snapshot()];
      ReturnBookKeepsInvariant(s, cmd);
      if book.isbn !in catalog {
        return Failure(NotFound(CatalogEntryEntity, book.isbn.value));
      }
      return Success(DetailsOf(book.Snapshot(), catalog[book.isbn]));
    }

    method RegisterBorrower(cmd: RegisterBorrowerCommand) returns (r: Result<BorrowerDto, Error>)
      modifies this
      ensures Step(Snapshot(), r) == RegisterBorrowerStep(old(Snapshot()), generate, cmd)
      ensures old(Valid()) ==> Valid()
    {
      ghost var s := Snapshot();
      var email := EmailValue.Create(cmd.emailAddress);
      if email.Failure? {
        return Failure(email.error);
      }
      var taken := EmailTaken(borrowers, email.value);
      if taken {
        return Failure(Conflict(EmailExistsMessage(cmd.emailAddress)));
      }
      var raw := NextId();
      var id := CreateBorrowerId(raw);
      if id.Failure? {
        RegisterBorrowerKeepsInvariant(s, generate, cmd);
        return Failure(id.error);
      }
      var registered := BorrowerAggregate.Register(id.value, cmd.name, email.value);
      if registered.Failure? {
        RegisterBorrowerKeepsInvariant(s, generate, cmd);
        return Failure(registered.error);
      }
      var borrower := registered.value;
      borrowers := borrowers[borrower.id := borrower.Snapshot()];
      r := Success(BorrowerDtoOf(borrower.Snapshot()));
      RegisterBorrowerKeepsInvariant(s, generate, cmd);
    }

    method UpdateCatalogEntry(cmd: UpdateCatalogEntryCommand) returns (r: Result<CatalogEntryDto, Error>)
      modifies this
      ensures Step(Snapshot(), r) == UpdateCatalogEntryStep(old(Snapshot()), cmd)
      ensures old(Valid()) ==> Valid()
    {
      ghost var s := Snapshot();
      var isbn := IsbnValue.Create(cmd.isbn);
      if isbn.Failure? {
        return Failure(isbn.error);
      }
      if isbn.value !in catalog {
        return Failure(NotFound(CatalogEntryEntity, cmd.isbn));
      }
      var entry := new CatalogEntry.Restore(catalog[isbn.value]);
      var o := entry.UpdateTitle(cmd.title);
      if o.Fail? {
        return Failure(o.error);
      }
      o := entry.UpdateAuthor(cmd.author);
      if o.Fail? {
        return Failure(o.error);
      }
      catalog := catalog[entry.isbn := entry.Snapshot()];
      r := Success(EntryDtoOf(entry.Snapshot()));
      UpdateCatalogEntryKeepsInvariant(s, cmd);
    }
  }

  /** Once the ISBN is accepted and the entry resolved, registering a book
      draws one id and, if it is accepted, saves an available book under it. */
  lemma RegisterBookStepResolved(s: Stores, generate: nat -> string, cmd: RegisterBookCommand, isbn: Isbn, entry: EntryRecord)
    requires IsbnValue.Create(cmd.isbn) == Success(isbn)
    requires ResolvedEntry(s.catalog, isbn, cmd) == Success(entry)
    ensures var s1 := if isbn in s.catalog then s else s.(catalog := s.catalog[entry.isbn := entry]);
      var s2 := s1.(idsDrawn := s.idsDrawn + 1);
      var id := CreateBookId(generate(s.idsDrawn));
      RegisterBookStep(s, generate, cmd) ==
        if id.Failure? then Step(s2, Failure(id.error))
        else Step(s2.(books := s2.books[id.value := BookRecord(id.value, isbn, NoLoan)]),
          Success(DetailsOf(BookRecord(id.value, isbn, NoLoan), entry)))
  {
  }

  // ---------------------------------------------------------------------------
  // Invariant preservation
  // ---------------------------------------------------------------------------

  lemma RegisterBookKeepsInvariant(s: Stores, generate: nat -> string, cmd: RegisterBookCommand)
    ensures StoresInvariant(s) ==> StoresInvariant(RegisterBookStep(s, generate, cmd).after)
  {
    if StoresInvariant(s) && IsbnValue.Create(cmd.isbn).Success? {
      var isbn := IsbnValue.Create(cmd.isbn).value;
      var resolved := ResolvedEntry(s.catalog, isbn, cmd);
      if resolved.Success? {
        ResolvedEntryKeepsInvariant(s.catalog, isbn, cmd);
        RegisterBookStepResolved(s, generate, cmd, isbn, resolved.value);
      }
    }
  }

  lemma ResolvedEntryKeepsInvariant(catalog: map<Isbn, EntryRecord>, isbn: Isbn, cmd: RegisterBookCommand)
    requires forall k :: k in catalog ==> catalog[k].isbn == k && EntryInvariant(catalog[k])
    requires ResolvedEntry(catalog, isbn, cmd).Success?
    ensures ResolvedEntry(catalog, isbn, cmd).value.isbn == isbn
    ensures EntryInvariant(ResolvedEntry(catalog, isbn, cmd).value)
  {
    if isbn !in catalog {
      EntryForIff(isbn, cmd.title, cmd.author);
    }
  }

  lemma BorrowBookKeepsInvariant(s: Stores, cmd: BorrowBookCommand, now: Timestamp)
    ensures StoresInvariant(s) ==> StoresInvariant(BorrowBookStep(s, cmd, now).after)
  {
  }

  lemma ReturnBookKeepsInvariant(s: Stores, cmd: ReturnBookCommand)
    ensures StoresInvariant(s) ==> StoresInvariant(ReturnBookStep(s, cmd).after)
  {
  }

  lemma RegisterBorrowerKeepsInvariant(s: Stores, generate: nat -> string, cmd: RegisterBorrowerCommand)
    ensures StoresInvariant(s) ==> StoresInvariant(RegisterBorrowerStep(s, generate, cmd).after)
  {
    var step := RegisterBorrowerStep(s, generate, cmd);
    if StoresInvariant(s) && step.result.Success? {
      var email := EmailValue.Create(cmd.emailAddress).value;
      var id := CreateBorrowerId(generate(s.idsDrawn)).value;
      var b := Registered(id, cmd.name, email).value;
      RegisteredIff(id, cmd.name, email);
      var m := step.after.borrowers;
      assert m == s.borrowers[b.id := b];
      forall x, y | x in m && y in m && m[x].email == m[y].email
        ensures x == y
      {
      }
    }
  }

  lemma UpdateCatalogEntryKeepsInvariant(s: Stores, cmd: UpdateCatalogEntryCommand)
    ensures StoresInvariant(s) ==> StoresInvariant(UpdateCatalogEntryStep(s, cmd).after)
  {
  }
}
