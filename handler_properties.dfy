/** What the use cases promise: the order of their checks, that a failure
    before the first save leaves the stores alone, what a success stores and
    returns, and how the use cases combine. */
module HandlerProperties {
  import opened Wrappers
  import opened JavaText
  import opened LibraryErrors
  import opened Identifiers
  import opened IsbnValue
  import opened EmailValue
  import opened BookAggregate
  import opened CatalogEntryAggregate
  import opened BorrowerAggregate
  import opened ReadModels
  import opened Queries
  import opened Handlers

  // ---------------------------------------------------------------------------
  // Register a book
  // ---------------------------------------------------------------------------

  /** An invalid ISBN fails with the ISBN error before any lookup, id or save. */
  lemma RegisterBookRejectsInvalidIsbn(s: Stores, generate: nat -> string, cmd: RegisterBookCommand)
    requires IsbnValue.Create(cmd.isbn).Failure?
    ensures RegisterBookStep(s, generate, cmd) == Step(s, Failure(Validation(InvalidIsbnMessage + IsbnValue.Normalize(cmd.isbn))))
  {
    IsbnValue.CreateSucceedsIff(cmd.isbn);
  }

  /** With an entry already catalogued under the ISBN, registration fails with
      the conflict error exactly when the command's title or author differs
      from the stored one other than in ASCII case; it then draws no id and
      saves nothing. */
  lemma RegisterBookConflictIff(s: Stores, generate: nat -> string, cmd: RegisterBookCommand)
    requires IsbnValue.Create(cmd.isbn).Success? && IsbnValue.Create(cmd.isbn).value in s.catalog
    ensures var e := s.catalog[IsbnValue.Create(cmd.isbn).value];
      RegisterBookStep(s, generate, cmd).result == Failure(Conflict(MetadataMismatchMessage(cmd.isbn)))
      <==> (ToLowerCase(e.title) != ToLowerCase(cmd.title) || ToLowerCase(e.author) != ToLowerCase(cmd.author))
    ensures (RegisterBookStep(s, generate, cmd).result.Failure? &&
             RegisterBookStep(s, generate, cmd).result.error.Conflict?) ==>
      RegisterBookStep(s, generate, cmd).after == s
  {
    var e := s.catalog[IsbnValue.Create(cmd.isbn).value];
    EqualsIgnoreCaseIff(e.title, cmd.title);
    EqualsIgnoreCaseIff(e.author, cmd.author);
  }

  /** The match is against the command's untrimmed text: a title that equals
      the stored (trimmed) one once its leading space is removed still
      conflicts. */
  lemma RegisterBookPaddedTitleConflicts(s: Stores, generate: nat -> string, cmd: RegisterBookCommand)
    requires IsbnValue.Create(cmd.isbn).Success? && IsbnValue.Create(cmd.isbn).value in s.catalog
    requires cmd.title == " " + s.catalog[IsbnValue.Create(cmd.isbn).value].title
    ensures RegisterBookStep(s, generate, cmd) == Step(s, Failure(Conflict(MetadataMismatchMessage(cmd.isbn))))
  {
  }

  /** With no entry under the ISBN, a blank title or author fails before any
      id is drawn or anything is saved; otherwise a new entry with the trimmed
      texts is saved and one id is drawn. */
  lemma RegisterBookCreatesEntry(s: Stores, generate: nat -> string, cmd: RegisterBookCommand)
    requires IsbnValue.Create(cmd.isbn).Success? && IsbnValue.Create(cmd.isbn).value !in s.catalog
    ensures var isbn := IsbnValue.Create(cmd.isbn).value;
      && (IsBlank(cmd.title) || IsBlank(cmd.author) ==>
            RegisterBookStep(s, generate, cmd) == Step(s, Failure(EntryFor(isbn, cmd.title, cmd.author).error)))
      && (!IsBlank(cmd.title) && !IsBlank(cmd.author) ==>
            RegisterBookStep(s, generate, cmd).after.catalog == s.catalog[isbn := EntryRecord(isbn, Trim(cmd.title), Trim(cmd.author))]
            && RegisterBookStep(s, generate, cmd).after.idsDrawn == s.idsDrawn + 1)
  {
    EntryForIff(IsbnValue.Create(cmd.isbn).value, cmd.title, cmd.author);
  }

  /** A successful registration draws one id, saves an available book under
      it with the normalised ISBN, leaves borrowers alone, keeps an existing
      entry as it was, and returns the book with the entry's title and author. */
  lemma RegisterBookSuccess(s: Stores, generate: nat -> string, cmd: RegisterBookCommand)
    requires RegisterBookStep(s, generate, cmd).result.Success?
    ensures var isbn := IsbnValue.Create(cmd.isbn).value;
      var id := BookId(generate(s.idsDrawn));
      var step := RegisterBookStep(s, generate, cmd);
      && IsbnValue.Create(cmd.isbn).Success? && !IsBlank(generate(s.idsDrawn))
      && step.after.idsDrawn == s.idsDrawn + 1
      && step.after.books == s.books[id := BookRecord(id, isbn, NoLoan)]
      && step.after.borrowers == s.borrowers
      && isbn in step.after.catalog
      && (isbn in s.catalog ==> step.after.catalog == s.catalog)
      && step.result.value == DetailsOf(BookRecord(id, isbn, NoLoan), step.after.catalog[isbn])
      && step.result.value.available && step.result.value.borrowerId.None? && step.result.value.borrowedOn.None?
      && step.result.value.isbn == IsbnValue.Normalize(cmd.isbn)
  {
  }

  /** After a successful registration the catalog query on the same ISBN
      text finds the entry the book was registered against. */
  lemma RegisteredBookIsCatalogued(s: Stores, generate: nat -> string, cmd: RegisterBookCommand)
    requires RegisterBookStep(s, generate, cmd).result.Success?
    ensures var step := RegisterBookStep(s, generate, cmd);
      GetCatalogEntryByIsbn(step.after.catalog, cmd.isbn).Success?
      && GetCatalogEntryByIsbn(step.after.catalog, cmd.isbn).value.title == step.result.value.title
      && GetCatalogEntryByIsbn(step.after.catalog, cmd.isbn).value.author == step.result.value.author
  {
    RegisterBookSuccess(s, generate, cmd);
  }

  // ---------------------------------------------------------------------------
  // Borrow a book
  // ---------------------------------------------------------------------------

  /** The book id is validated first, then the borrower id, before any lookup. */
  lemma BorrowBookValidatesIdsFirst(s: Stores, cmd: BorrowBookCommand, now: Timestamp)
    ensures IsBlank(cmd.bookId) ==>
      BorrowBookStep(s, cmd, now) == Step(s, Failure(Validation(BlankBookIdMessage)))
    ensures !IsBlank(cmd.bookId) && IsBlank(cmd.borrowerId) ==>
      BorrowBookStep(s, cmd, now) == Step(s, Failure(Validation(BlankBorrowerIdMessage)))
  {
  }

  /** A missing book fails with NotFound for the raw book id, whatever the
      borrower store holds: the borrower is never looked up. */
  lemma BorrowBookMissingBook(s: Stores, cmd: BorrowBookCommand, now: Timestamp, others: map<BorrowerId, BorrowerRecord>)
    requires !IsBlank(cmd.bookId) && !IsBlank(cmd.borrowerId)
    requires BookId(cmd.bookId) !in s.books
    ensures BorrowBookStep(s, cmd, now) == Step(s, Failure(NotFound(BookEntity, cmd.bookId)))
    ensures BorrowBookStep(s.(borrowers := others), cmd, now).result == BorrowBookStep(s, cmd, now).result
  {
  }

  /** A missing borrower fails with NotFound for the raw borrower id, and the
      book is neither changed nor saved. */
  lemma BorrowBookMissingBorrower(s: Stores, cmd: BorrowBookCommand, now: Timestamp)
    requires !IsBlank(cmd.bookId) && !IsBlank(cmd.borrowerId)
    requires BookId(cmd.bookId) in s.books && BorrowerId(cmd.borrowerId) !in s.borrowers
    ensures BorrowBookStep(s, cmd, now) == Step(s, Failure(NotFound(BorrowerEntity, cmd.borrowerId)))
  {
  }

  /** A book already lent fails with "Book is already borrowed" and nothing is
      saved. */
  lemma BorrowBookAlreadyBorrowed(s: Stores, cmd: BorrowBookCommand, now: Timestamp)
    requires !IsBlank(cmd.bookId) && !IsBlank(cmd.borrowerId)
    requires BookId(cmd.bookId) in s.books && BorrowerId(cmd.borrowerId) in s.borrowers
    requires s.books[BookId(cmd.bookId)].loan.borrowerId.Some?
    ensures BorrowBookStep(s, cmd, now) == Step(s, Failure(State(AlreadyBorrowedMessage)))
  {
  }

  /** An available book is lent to the requester at `now` and saved; the
      catalog is consulted only afterwards: a missing entry fails with
      NotFound for the book's ISBN (the save stays), and otherwise the result
      shows the book unavailable, with the borrower, the time and the entry's
      text. */
  lemma BorrowBookLends(s: Stores, cmd: BorrowBookCommand, now: Timestamp)
    requires StoresInvariant(s)
    requires !IsBlank(cmd.bookId) && !IsBlank(cmd.borrowerId)
    requires BookId(cmd.bookId) in s.books && BorrowerId(cmd.borrowerId) in s.borrowers
    requires s.books[BookId(cmd.bookId)].loan.borrowerId.None?
    ensures var book := s.books[BookId(cmd.bookId)];
      var lent := book.(loan := Loan(Some(BorrowerId(cmd.borrowerId)), Some(now)));
      var step := BorrowBookStep(s, cmd, now);
      && step.after == s.(books := s.books[BookId(cmd.bookId) := lent])
      && (step.result.Success? <==> book.isbn in s.catalog)
      && (step.result.Failure? ==> step.result.error == NotFound(CatalogEntryEntity, book.isbn.value))
      && (step.result.Success? ==>
            && !step.result.value.available
            && step.result.value.borrowerId == Some(cmd.borrowerId)
            && step.result.value.borrowedOn == Some(now)
            && step.result.value.title == s.catalog[book.isbn].title
            && step.result.value.author == s.catalog[book.isbn].author)
  {
  }

  // ---------------------------------------------------------------------------
  // Return a book
  // ---------------------------------------------------------------------------

  /** A missing book fails with NotFound for the raw book id. */
  lemma ReturnBookMissingBook(s: Stores, cmd: ReturnBookCommand)
    requires !IsBlank(cmd.bookId) && !IsBlank(cmd.borrowerId)
    requires BookId(cmd.bookId) !in s.books
    ensures ReturnBookStep(s, cmd) == Step(s, Failure(NotFound(BookEntity, cmd.bookId)))
  {
  }

  /** A book that is not lent to the requester (lent to someone else, or not
      lent at all) fails with the "not borrowed by borrower" error, and
      nothing is saved. */
  lemma ReturnBookWrongBorrower(s: Stores, cmd: ReturnBookCommand)
    requires !IsBlank(cmd.bookId) && !IsBlank(cmd.borrowerId)
    requires BookId(cmd.bookId) in s.books
    requires s.books[BookId(cmd.bookId)].loan.borrowerId != Some(BorrowerId(cmd.borrowerId))
    ensures ReturnBookStep(s, cmd) == Step(s, Failure(State(NotBorrowedByMessage)))
  {
  }

  /** A book lent to the requester is returned and saved available; the
      result then shows it available with neither borrower nor time and
      carries the entry's text. */
  lemma ReturnBookByBorrower(s: Stores, cmd: ReturnBookCommand)
    requires StoresInvariant(s)
    requires !IsBlank(cmd.bookId) && !IsBlank(cmd.borrowerId)
    requires BookId(cmd.bookId) in s.books
    requires s.books[BookId(cmd.bookId)].loan.borrowerId == Some(BorrowerId(cmd.borrowerId))
    ensures var book := s.books[BookId(cmd.bookId)];
      var step := ReturnBookStep(s, cmd);
      && step.after == s.(books := s.books[BookId(cmd.bookId) := book.(loan := NoLoan)])
      && (step.result.Success? <==> book.isbn in s.catalog)
      && (step.result.Success? ==>
            && step.result.value.id == cmd.bookId
            && step.result.value.available
            && step.result.value.borrowerId.None? && step.result.value.borrowedOn.None?
            && step.result.value.title == s.catalog[book.isbn].title
            && step.result.value.author == s.catalog[book.isbn].author)
  {
  }

  /** Borrowing an available, catalogued book and returning it with the same
      ids gives back the stores it started from. */
  lemma BorrowThenReturnRestoresStores(s: Stores, bookId: string, borrowerId: string, now: Timestamp)
    requires StoresInvariant(s)
    requires BorrowBookStep(s, BorrowBookCommand(bookId, borrowerId), now).result.Success?
    ensures var lent := BorrowBookStep(s, BorrowBookCommand(bookId, borrowerId), now);
      var back := ReturnBookStep(lent.after, ReturnBookCommand(bookId, borrowerId));
      back.result.Success? && back.after == s
  {
    var cmd := BorrowBookCommand(bookId, borrowerId);
    var id := BookId(bookId);
    var book := s.books[id];
    BorrowBookLends(s, cmd, now);
    var lent := BorrowBookStep(s, cmd, now);
    assert lent.after.books[id].loan.borrowerId == Some(BorrowerId(borrowerId));
    assert s.books[id := book] == s.books;
  }

  // ---------------------------------------------------------------------------
  // Register a borrower
  // ---------------------------------------------------------------------------

  /** An invalid e-mail fails, quoting the raw text, before the uniqueness
      check, any id or any save. */
  lemma RegisterBorrowerInvalidEmail(s: Stores, generate: nat -> string, cmd: RegisterBorrowerCommand)
    requires EmailValue.Create(cmd.emailAddress).Failure?
    ensures RegisterBorrowerStep(s, generate, cmd) ==
      Step(s, Failure(Validation(InvalidEmailMessage + cmd.emailAddress)))
  {
    EmailValue.CreateSucceedsIff(cmd.emailAddress);
  }

  /** An address already held by a borrower, in any ASCII case variant or
      with surrounding spaces, fails with the conflict error quoting the raw
      text, with no id drawn and nothing saved. */
  lemma RegisterBorrowerCaseVariantCollides(s: Stores, generate: nat -> string, cmd: RegisterBorrowerCommand, k: BorrowerId, stored: string)
    requires k in s.borrowers && EmailValue.Create(stored) == Success(s.borrowers[k].email)
    requires EqualsIgnoreCase(stored, cmd.emailAddress)
    ensures RegisterBorrowerStep(s, generate, cmd) ==
      Step(s, Failure(Conflict(EmailExistsMessage(cmd.emailAddress))))
  {
    CaseInsensitive(stored, cmd.emailAddress);
  }

  /** A blank name is detected after the id is drawn: the id is consumed, but
      nothing is saved. */
  lemma RegisterBorrowerBlankNameConsumesId(s: Stores, generate: nat -> string, cmd: RegisterBorrowerCommand)
    requires EmailValue.Create(cmd.emailAddress).Success?
    requires !EmailTaken(s.borrowers, EmailValue.Create(cmd.emailAddress).value)
    requires !IsBlank(generate(s.idsDrawn)) && IsBlank(cmd.name)
    ensures RegisterBorrowerStep(s, generate, cmd) ==
      Step(s.(idsDrawn := s.idsDrawn + 1), Failure(Validation(BlankNameMessage)))
  {
  }

  /** A successful registration saves, under the drawn id, the trimmed name
      and the lower-cased, trimmed address, and returns exactly those. */
  lemma RegisterBorrowerSuccess(s: Stores, generate: nat -> string, cmd: RegisterBorrowerCommand)
    requires RegisterBorrowerStep(s, generate, cmd).result.Success?
    ensures var raw := generate(s.idsDrawn);
      var email := Trim(ToLowerCase(cmd.emailAddress));
      var step := RegisterBorrowerStep(s, generate, cmd);
      && step.after.idsDrawn == s.idsDrawn + 1
      && step.after.borrowers == s.borrowers[BorrowerId(raw) := BorrowerRecord(BorrowerId(raw), Trim(cmd.name), EmailAddress(email))]
      && step.after.books == s.books && step.after.catalog == s.catalog
      && step.result.value == BorrowerDto(raw, Trim(cmd.name), email)
      && (forall k :: k in s.borrowers ==> s.borrowers[k].email.value != email)
  {
    var created := EmailValue.Create(cmd.emailAddress);
    assert created.Success?;
    EmailValue.CreateSucceedsIff(cmd.emailAddress);
    var email := created.value;
    assert email == EmailAddress(Trim(ToLowerCase(cmd.emailAddress)));
    assert !EmailTaken(s.borrowers, email);
    var raw := generate(s.idsDrawn);
    assert CreateBorrowerId(raw) == Success(BorrowerId(raw));
    var registered := Registered(BorrowerId(raw), cmd.name, email);
    assert registered.Success?;
    RegisteredIff(BorrowerId(raw), cmd.name, email);
    assert registered.value == BorrowerRecord(BorrowerId(raw), Trim(cmd.name), email);
  }

  /** When the drawn id is fresh, a successful registration keeps every
      borrower already stored and adds exactly one; when it is not, the
      stored borrower under that id is replaced, as a save by primary key
      does. */
  lemma RegisterBorrowerKeepsOthers(s: Stores, generate: nat -> string, cmd: RegisterBorrowerCommand)
    requires RegisterBorrowerStep(s, generate, cmd).result.Success?
    ensures var id := BorrowerId(generate(s.idsDrawn));
      var after := RegisterBorrowerStep(s, generate, cmd).after.borrowers;
      && id in after
      && (forall k :: k in s.borrowers && k != id ==> k in after && after[k] == s.borrowers[k])
      && (id !in s.borrowers ==> after.Keys == s.borrowers.Keys + {id} && |after| == |s.borrowers| + 1)
      && (id in s.borrowers ==> after.Keys == s.borrowers.Keys && after[id].email != s.borrowers[id].email)
  {
    RegisterBorrowerSuccess(s, generate, cmd);
    var raw := generate(s.idsDrawn);
    var b := BorrowerRecord(BorrowerId(raw), Trim(cmd.name), EmailAddress(Trim(ToLowerCase(cmd.emailAddress))));
    assert RegisterBorrowerStep(s, generate, cmd).after.borrowers == s.borrowers[BorrowerId(raw) := b];
    UpdateKeepsOthers(s.borrowers, BorrowerId(raw), b);
  }

  lemma UpdateKeepsOthers(m: map<BorrowerId, BorrowerRecord>, id: BorrowerId, b: BorrowerRecord)
    ensures var after := m[id := b];
      && (forall k :: k in m && k != id ==> k in after && after[k] == m[k])
      && (id !in m ==> after.Keys == m.Keys + {id} && |after| == |m| + 1)
      && (id in m ==> after.Keys == m.Keys)
  {
    if id !in m {
      assert m[id := b].Keys == m.Keys + {id};
      assert |m.Keys + {id}| == |m.Keys| + 1;
    }
  }

  // ---------------------------------------------------------------------------
  // Update a catalog entry
  // ---------------------------------------------------------------------------

  /** An invalid ISBN fails before the lookup; a missing entry fails with
      NotFound quoting the raw ISBN; neither saves anything. */
  lemma UpdateCatalogEntryLookup(s: Stores, cmd: UpdateCatalogEntryCommand)
    ensures IsbnValue.Create(cmd.isbn).Failure? ==>
      UpdateCatalogEntryStep(s, cmd) == Step(s, Failure(Validation(InvalidIsbnMessage + IsbnValue.Normalize(cmd.isbn))))
    ensures IsbnValue.Create(cmd.isbn).Success? && IsbnValue.Create(cmd.isbn).value !in s.catalog ==>
      UpdateCatalogEntryStep(s, cmd) == Step(s, Failure(NotFound(CatalogEntryEntity, cmd.isbn)))
  {
    IsbnValue.CreateSucceedsIff(cmd.isbn);
  }

  /** For a catalogued ISBN, a blank title fails (even with a blank author),
      then a blank author fails; neither saves. */
  lemma UpdateCatalogEntryRejectsBlank(s: Stores, cmd: UpdateCatalogEntryCommand)
    requires IsbnValue.Create(cmd.isbn).Success? && IsbnValue.Create(cmd.isbn).value in s.catalog
    ensures IsBlank(cmd.title) ==>
      UpdateCatalogEntryStep(s, cmd) == Step(s, Failure(Validation("Title cannot be blank")))
    ensures !IsBlank(cmd.title) && IsBlank(cmd.author) ==>
      UpdateCatalogEntryStep(s, cmd) == Step(s, Failure(Validation("Author cannot be blank")))
  {
    assert TitleField + " cannot be blank" == "Title cannot be blank";
    assert AuthorField + " cannot be blank" == "Author cannot be blank";
  }

  /** For a catalogued ISBN and two non-blank texts, the entry is saved with
      the trimmed texts under the same ISBN and returned with the canonical
      ISBN. */
  lemma UpdateCatalogEntrySaves(s: Stores, cmd: UpdateCatalogEntryCommand)
    requires StoresInvariant(s)
    requires IsbnValue.Create(cmd.isbn).Success? && IsbnValue.Create(cmd.isbn).value in s.catalog
    requires !IsBlank(cmd.title) && !IsBlank(cmd.author)
    ensures var isbn := IsbnValue.Create(cmd.isbn).value;
      var step := UpdateCatalogEntryStep(s, cmd);
      && step.after == s.(catalog := s.catalog[isbn := EntryRecord(isbn, Trim(cmd.title), Trim(cmd.author))])
      && step.result == Success(CatalogEntryDto(IsbnValue.Normalize(cmd.isbn), Trim(cmd.title), Trim(cmd.author)))
  {
    var isbn := IsbnValue.Create(cmd.isbn).value;
    var entry := s.catalog[isbn];
    assert entry.isbn == isbn;
    assert isbn.value == IsbnValue.Normalize(cmd.isbn);
  }

  /** A hyphen or space in the ISBN does not change a successful update. */
  lemma UpdateCatalogEntryIgnoresSeparators(s: Stores, a: string, c: char, b: string, title: string, author: string)
    requires c == '-' || c == ' '
    requires UpdateCatalogEntryStep(s, UpdateCatalogEntryCommand(a + b, title, author)).result.Success?
    ensures UpdateCatalogEntryStep(s, UpdateCatalogEntryCommand(a + [c] + b, title, author)) ==
      UpdateCatalogEntryStep(s, UpdateCatalogEntryCommand(a + b, title, author))
  {
    SeparatorInsensitive(a, c, b);
  }
}
