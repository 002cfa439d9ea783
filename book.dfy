/** The Book aggregate: a copy of a catalogued title that is either available
    or lent to one borrower, with the time it was lent. */
module BookAggregate {
  import opened Wrappers
  import opened LibraryErrors
  import opened Identifiers
  import opened IsbnValue
  import opened AggregateIdentity

  /** A LocalDateTime; the model only compares timestamps for equality. */
  datatype Timestamp = Timestamp(epochNanos: int)

  /** The lending state: the borrower and the time of lending, each absent
      (null) or present. */
  datatype Loan = Loan(borrowerId: Option<BorrowerId>, borrowedOn: Option<Timestamp>)

  const NoLoan := Loan(None, None)

  /** The only link the code keeps between the two fields: no borrower means
      no timestamp. A borrower with no timestamp is possible, because
      `borrow` stores the given time without a null check. */
  predicate LoanInvariant(l: Loan) {
    l.borrowerId.None? ==> l.borrowedOn.None?
  }

  const AlreadyBorrowedMessage := "Book is already borrowed"
  const NotBorrowedMessage := "Book is not borrowed"

  /** The lending state after `borrow(b, t)`, or the error it throws. */
  function Borrowed(l: Loan, b: BorrowerId, t: Option<Timestamp>): Result<Loan, Error> {
    if l.borrowerId.Some? then Failure(State(AlreadyBorrowedMessage)) else Success(Loan(Some(b), t))
  }

  /** The lending state after `returnBook()`, or the error it throws. */
  function Returned(l: Loan): Result<Loan, Error> {
    if l.borrowerId.None? then Failure(State(NotBorrowedMessage)) else Success(NoLoan)
  }

  /** A book as the repository stores it. */
  datatype BookRecord = BookRecord(id: BookId, isbn: Isbn, loan: Loan)

  /** The identity Book inherits from AggregateRoot. */
  function IdentityOf(r: BookRecord): Identity {
    Identity(BookKind, r.id.value)
  }

  class Book {
    const id: BookId
    const isbn: Isbn
    var borrowerId: Option<BorrowerId>
    var borrowedOn: Option<Timestamp>

    function Lending(): Loan
      reads this
    {
      Loan(borrowerId, borrowedOn)
    }

    predicate Valid()
      reads this
    {
      LoanInvariant(Lending())
    }

    /** isAvailable: no borrower recorded. */
    predicate IsAvailable()
      reads this
    {
      borrowerId.None?
    }

    function Snapshot(): BookRecord
      reads this
    {
      BookRecord(id, isbn, Lending())
    }

    /** register: a new, available book. */
    constructor Register(id: BookId, isbn: Isbn)
      ensures this.id == id && this.isbn == isbn
      ensures borrowerId == None && borrowedOn == None
      ensures Valid() && IsAvailable()
    {
      this.id := id;
      this.isbn := isbn;
      borrowerId := None;
      borrowedOn := None;
    }

    /** A book loaded from the repository. */
    constructor Restore(r: BookRecord)
      ensures Snapshot() == r
    {
      id := r.id;
      isbn := r.isbn;
      borrowerId := r.loan.borrowerId;
      borrowedOn := r.loan.borrowedOn;
    }

    /** borrow(borrowerId, borrowedOn): lends an available book; a lent book
        fails and keeps its state. The id and the isbn never change. */
    method Borrow(b: BorrowerId, t: Option<Timestamp>) returns (o: Outcome<Error>)
      modifies this
      ensures Borrowed(old(Lending()), b, t).Success? ==>
        o == Pass && Lending() == Borrowed(old(Lending()), b, t).value
      ensures Borrowed(old(Lending()), b, t).Failure? ==>
        o == Fail(Borrowed(old(Lending()), b, t).error) && Lending() == old(Lending())
      ensures old(Valid()) ==> Valid()
    {
      if !IsAvailable() {
        return Fail(State(AlreadyBorrowedMessage));
      }
      borrowerId := Some(b);
      borrowedOn := t;
      return Pass;
    }

    /** returnBook(): clears the borrower and the timestamp of a lent book; an
        available book fails and keeps its state. */
    method ReturnBook() returns (o: Outcome<Error>)
      modifies this
      ensures Returned(old(Lending())).Success? ==>
        o == Pass && Lending() == Returned(old(Lending())).value
      ensures Returned(old(Lending())).Failure? ==>
        o == Fail(Returned(old(Lending())).error) && Lending() == old(Lending())
      ensures old(Valid()) ==> Valid()
    {
      if IsAvailable() {
        return Fail(State(NotBorrowedMessage));
      }
      borrowerId := None;
      borrowedOn := None;
      return Pass;
    }
  }

  // ---------------------------------------------------------------------------
  // Properties of the lending state machine
  // ---------------------------------------------------------------------------

  /** borrow succeeds exactly on an available book, recording the borrower and
      the given time; on a lent book it fails with "Book is already borrowed". */
  lemma BorrowIff(l: Loan, b: BorrowerId, t: Option<Timestamp>)
    ensures Borrowed(l, b, t).Success? <==> l.borrowerId.None?
    ensures Borrowed(l, b, t).Success? ==>
      Borrowed(l, b, t).value.borrowerId == Some(b) && Borrowed(l, b, t).value.borrowedOn == t
    ensures Borrowed(l, b, t).Failure? ==> Borrowed(l, b, t).error == State(AlreadyBorrowedMessage)
  {
  }

  /** returnBook succeeds exactly on a lent book and clears both fields; on an
      available book it fails with "Book is not borrowed". */
  lemma ReturnIff(l: Loan)
    ensures Returned(l).Success? <==> l.borrowerId.Some?
    ensures Returned(l).Success? ==> Returned(l).value.borrowerId.None? && Returned(l).value.borrowedOn.None?
    ensures Returned(l).Failure? ==> Returned(l).error == State(NotBorrowedMessage)
  {
  }

  /** Both transitions keep "no borrower means no timestamp". */
  lemma TransitionsKeepInvariant(l: Loan, b: BorrowerId, t: Option<Timestamp>)
    requires LoanInvariant(l)
    ensures Borrowed(l, b, t).Success? ==> LoanInvariant(Borrowed(l, b, t).value)
    ensures Returned(l).Success? ==> LoanInvariant(Returned(l).value)
  {
  }

  /** After a successful borrow the book is unavailable, and a second borrow
      fails whatever the borrower and time. */
  lemma BorrowedBookCannotBeBorrowedAgain(l: Loan, b: BorrowerId, t: Option<Timestamp>, b': BorrowerId, t': Option<Timestamp>)
    requires Borrowed(l, b, t).Success?
    ensures Borrowed(Borrowed(l, b, t).value, b', t') == Failure(State(AlreadyBorrowedMessage))
  {
  }

  /** Borrowing and then returning an available book that keeps the invariant
      gives back exactly the lending state it started from. */
  lemma BorrowThenReturnRestores(l: Loan, b: BorrowerId, t: Option<Timestamp>)
    requires LoanInvariant(l) && l.borrowerId.None?
    ensures Borrowed(l, b, t).Success?
    ensures Returned(Borrowed(l, b, t).value) == Success(l)
  {
  }

  /** Returning and then borrowing again lends the book to the new borrower. */
  lemma ReturnThenBorrow(l: Loan, b: BorrowerId, t: Option<Timestamp>)
    requires Returned(l).Success?
    ensures Borrowed(Returned(l).value, b, t) == Success(Loan(Some(b), t))
  {
  }

  /** Two books are equal exactly when their ids are; isbn and lending state
      take no part. */
  lemma BookEqualityIsById(a: BookRecord, b: BookRecord)
    ensures Equals(IdentityOf(a), Some(IdentityOf(b))) <==> a.id == b.id
  {
  }

  // ---------------------------------------------------------------------------
  // BookWithCatalog: a book joined with its catalog text
  // ---------------------------------------------------------------------------

  datatype BookWithCatalog = BookWithCatalog(
    id: BookId,
    isbn: Isbn,
    title: string,
    author: string,
    available: bool,
    borrowerId: Option<BorrowerId>,
    borrowedOn: Option<Timestamp>)

  /** BookWithCatalog.from(book, title, author). */
  function WithCatalog(book: BookRecord, title: string, author: string): BookWithCatalog
  {
    BookWithCatalog(book.id, book.isbn, title, author, book.loan.borrowerId.None?,
      book.loan.borrowerId, book.loan.borrowedOn)
  }

  /** The joined row follows the book's lending: a book that keeps the loan
      invariant and shows as available has neither borrower nor time; after
      a successful borrow the row shows it lent to that borrower at that
      time; after a successful return it shows it available with no time. */
  lemma WithCatalogFollowsLending(book: BookRecord, b: BorrowerId, t: Option<Timestamp>, title: string, author: string)
    requires LoanInvariant(book.loan)
    ensures WithCatalog(book, title, author).available ==> WithCatalog(book, title, author).borrowedOn.None?
    ensures Borrowed(book.loan, b, t).Success? ==>
      var r := WithCatalog(book.(loan := Borrowed(book.loan, b, t).value), title, author);
      !r.available && r.borrowerId == Some(b) && r.borrowedOn == t
    ensures Returned(book.loan).Success? ==>
      var r := WithCatalog(book.(loan := Returned(book.loan).value), title, author);
      r.available && r.borrowerId.None? && r.borrowedOn.None?
  {
  }

  // ---------------------------------------------------------------------------
  // Loading from the repository
  // ---------------------------------------------------------------------------

  /** BookRepositoryImpl.toDomain: the stored ids and ISBN go through their
      factories again, the book is registered, and a stored borrower is
      applied with `borrow` and the stored time. */
  function Reloaded(r: BookRecord): Result<BookRecord, Error> {
    match CreateBookId(r.id.value)
    case Failure(e) => Failure(e)
    case Success(id) =>
      match IsbnValue.Create(r.isbn.value)
      case Failure(e) => Failure(e)
      case Success(isbn) =>
        match r.loan.borrowerId
        case None => Success(BookRecord(id, isbn, NoLoan))
        case Some(b) =>
          match CreateBorrowerId(b.value)
          case Failure(e) => Failure(e)
          case Success(bid) =>
            match Borrowed(NoLoan, bid, r.loan.borrowedOn)
            case Failure(e) => Failure(e)
            case Success(l) => Success(BookRecord(id, isbn, l))
  }

  /** A stored book whose ids and ISBN are ones their factories give back,
      and which keeps the loan invariant, loads back as itself. */
  lemma ReloadedBookIsStored(r: BookRecord)
    requires CreateBookId(r.id.value) == Success(r.id)
    requires IsbnValue.Create(r.isbn.value) == Success(r.isbn)
    requires r.loan.borrowerId.Some? ==> CreateBorrowerId(r.loan.borrowerId.value.value) == Success(r.loan.borrowerId.value)
    requires LoanInvariant(r.loan)
    ensures Reloaded(r) == Success(r)
  {
  }
}
