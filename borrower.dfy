/** The Borrower aggregate: a registered library member with a name (checked
    with the blank test, stored trimmed) and an e-mail address. */
module BorrowerAggregate {
  import opened Wrappers
  import opened JavaText
  import opened LibraryErrors
  import opened Identifiers
  import opened EmailValue
  import opened AggregateIdentity

  const BlankNameMessage := "Name cannot be blank"

  /** setName: a blank name fails; any other name is kept trimmed. */
  function CheckedName(name: string): Result<string, Error> {
    if IsBlank(name) then Failure(Validation(BlankNameMessage)) else Success(Trim(name))
  }

  /** A borrower as the repository stores it. */
  datatype BorrowerRecord = BorrowerRecord(id: BorrowerId, name: string, email: EmailAddress)

  /** The identity Borrower inherits from AggregateRoot. */
  function IdentityOf(r: BorrowerRecord): Identity {
    Identity(BorrowerKind, r.id.value)
  }

  /** register(id, name, email): the name is checked before the e-mail is
      stored. */
  function Registered(id: BorrowerId, name: string, email: EmailAddress): Result<BorrowerRecord, Error> {
    match CheckedName(name)
    case Failure(e) => Failure(e)
    case Success(n) => Success(BorrowerRecord(id, n, email))
  }

  class Borrower {
    const id: BorrowerId
    var name: string
    var email: EmailAddress

    function Snapshot(): BorrowerRecord
      reads this
    {
      BorrowerRecord(id, name, email)
    }

    predicate Valid()
      reads this
    {
      IsTrimmed(name)
    }

    /** A borrower loaded from the repository. */
    constructor Restore(r: BorrowerRecord)
      ensures Snapshot() == r
    {
      id := r.id;
      name := r.name;
      email := r.email;
    }

    /** updateName: a blank name fails and leaves the old name; otherwise the
        trimmed name replaces it. Id and e-mail never change. */
    method UpdateName(newName: string) returns (o: Outcome<Error>)
      modifies this
      ensures CheckedName(newName).Success? ==> o == Pass && name == CheckedName(newName).value
      ensures CheckedName(newName).Failure? ==> o == Fail(CheckedName(newName).error) && name == old(name)
      ensures email == old(email)
      ensures old(Valid()) ==> Valid()
    {
      if IsBlank(newName) {
        return Fail(Validation(BlankNameMessage));
      }
      name := Trim(newName);
      return Pass;
    }

    /** updateEmailAddress: replaces the e-mail; id and name never change. */
    method UpdateEmailAddress(newEmail: EmailAddress)
      modifies this
      ensures email == newEmail && name == old(name)
    {
      email := newEmail;
    }
  }

  /** register(id, name, email): a new borrower, or the blank-name error. */
  method Register(id: BorrowerId, name: string, email: EmailAddress) returns (r: Result<Borrower, Error>)
    ensures Registered(id, name, email).Success? ==>
      r.Success? && fresh(r.value) && r.value.Snapshot() == Registered(id, name, email).value
    ensures Registered(id, name, email).Failure? ==> r == Failure(Registered(id, name, email).error)
  {
    var checked := Registered(id, name, email);
    if checked.Failure? {
      return Failure(checked.error);
    }
    var borrower := new Borrower.Restore(checked.value);
    return Success(borrower);
  }

  // ---------------------------------------------------------------------------
  // Properties
  // ---------------------------------------------------------------------------

  /** register succeeds exactly on a non-blank name, keeping the id, the
      trimmed name and the given e-mail; a blank name fails with "Name cannot
      be blank" whatever the e-mail. */
  lemma RegisteredIff(id: BorrowerId, name: string, email: EmailAddress)
    ensures Registered(id, name, email).Success? <==> !IsBlank(name)
    ensures Registered(id, name, email).Success? ==>
      Registered(id, name, email).value == BorrowerRecord(id, Trim(name), email)
      && IsTrimmed(Registered(id, name, email).value.name)
    ensures Registered(id, name, email).Failure? ==>
      Registered(id, name, email).error == Validation(BlankNameMessage)
  {
  }

  /** A name with a visible char is stored non-empty and non-blank. */
  lemma StoredNameNonBlankWhenVisible(name: string, i: nat)
    requires i < |name| && !IsTrimmable(name[i]) && !IsWhitespace(name[i])
    ensures CheckedName(name).Success?
    ensures CheckedName(name).value != [] && !IsBlank(CheckedName(name).value)
  {
    VisibleCharSurvivesTrim(name, i);
  }

  /** Two borrowers are equal exactly when their ids are; name and e-mail take
      no part. */
  lemma BorrowerEqualityIsById(a: BorrowerRecord, b: BorrowerRecord)
    ensures Equals(IdentityOf(a), Some(IdentityOf(b))) <==> a.id == b.id
  {
  }

  // ---------------------------------------------------------------------------
  // Loading from the repository
  // ---------------------------------------------------------------------------

  /** BorrowerRepositoryImpl.toDomain: the stored id and address go through
      their factories again, then `register` checks the name again. */
  function Reloaded(r: BorrowerRecord): Result<BorrowerRecord, Error> {
    match CreateBorrowerId(r.id.value)
    case Failure(e) => Failure(e)
    case Success(id) =>
      match EmailValue.Create(r.email.value)
      case Failure(e) => Failure(e)
      case Success(email) => Registered(id, r.name, email)
  }

  /** A stored borrower whose id and address are ones their factories give
      back and whose name is trimmed loads back as itself exactly when the
      name is not blank; a blank name fails with "Name cannot be blank". */
  lemma ReloadedIff(r: BorrowerRecord)
    requires CreateBorrowerId(r.id.value) == Success(r.id)
    requires EmailValue.Create(r.email.value) == Success(r.email)
    requires IsTrimmed(r.name)
    ensures Reloaded(r).Success? <==> !IsBlank(r.name)
    ensures Reloaded(r).Success? ==> Reloaded(r).value == r
    ensures IsBlank(r.name) ==> Reloaded(r) == Failure(Validation(BlankNameMessage))
  {
    if !IsBlank(r.name) {
      TrimmedIsFixpoint(r.name);
    }
  }
}
