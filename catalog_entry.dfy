/** The CatalogEntry aggregate: the bibliographic text of one ISBN, keyed by
    that ISBN. Title and author are checked with the blank test and stored
    trimmed. */
module CatalogEntryAggregate {
  import opened Wrappers
  import opened JavaText
  import opened LibraryErrors
  import opened IsbnValue
  import opened AggregateIdentity

  const TitleField := "Title"
  const AuthorField := "Author"

  /** setTitle / setAuthor: a blank text fails with "<Field> cannot be blank";
      any other text is kept trimmed. */
  function CheckedText(s: string, field: string): Result<string, Error> {
    if IsBlank(s) then Failure(Validation(field + " cannot be blank")) else Success(Trim(s))
  }

  /** A catalog entry as the repository stores it. */
  datatype EntryRecord = EntryRecord(isbn: Isbn, title: string, author: string)

  /** What a stored entry always satisfies: both texts come out of trim. */
  predicate EntryInvariant(e: EntryRecord) {
    IsTrimmed(e.title) && IsTrimmed(e.author)
  }

  /** The identity CatalogEntry inherits from AggregateRoot; getIsbn() is the id. */
  function IdentityOf(e: EntryRecord): Identity {
    Identity(CatalogEntryKind, e.isbn.value)
  }

  /** create(isbn, title, author): the title is set (and checked) before the
      author. */
  function EntryFor(isbn: Isbn, title: string, author: string): Result<EntryRecord, Error> {
    match CheckedText(title, TitleField)
    case Failure(e) => Failure(e)
    case Success(t) =>
      match CheckedText(author, AuthorField)
      case Failure(e) => Failure(e)
      case Success(a) => Success(EntryRecord(isbn, t, a))
  }

  /** create(String isbn, title, author): the ISBN is parsed first. */
  function EntryForRaw(rawIsbn: string, title: string, author: string): Result<EntryRecord, Error> {
    match IsbnValue.Create(rawIsbn)
    case Failure(e) => Failure(e)
    case Success(isbn) => EntryFor(isbn, title, author)
  }

  class CatalogEntry {
    const isbn: Isbn
    var title: string
    var author: string

    function Snapshot(): EntryRecord
      reads this
    {
      EntryRecord(isbn, title, author)
    }

    predicate Valid()
      reads this
    {
      EntryInvariant(Snapshot())
    }

    /** An entry loaded from the repository. */
    constructor Restore(r: EntryRecord)
      ensures Snapshot() == r
    {
      isbn := r.isbn;
      title := r.title;
      author := r.author;
    }

    /** updateTitle: a blank title fails and leaves the old title; otherwise
        the trimmed title replaces it. Author and isbn never change. */
    method UpdateTitle(newTitle: string) returns (o: Outcome<Error>)
      modifies this
      ensures CheckedText(newTitle, TitleField).Success? ==>
        o == Pass && title == CheckedText(newTitle, TitleField).value
      ensures CheckedText(newTitle, TitleField).Failure? ==>
        o == Fail(CheckedText(newTitle, TitleField).error) && title == old(title)
      ensures author == old(author)
      ensures old(Valid()) ==> Valid()
    {
      if IsBlank(newTitle) {
        return Fail(Validation(TitleField + " cannot be blank"));
      }
      title := Trim(newTitle);
      return Pass;
    }

    /** updateAuthor: a blank author fails and leaves the old author; otherwise
        the trimmed author replaces it. Title and isbn never change. */
    method UpdateAuthor(newAuthor: string) returns (o: Outcome<Error>)
      modifies this
      ensures CheckedText(newAuthor, AuthorField).Success? ==>
        o == Pass && author == CheckedText(newAuthor, AuthorField).value
      ensures CheckedText(newAuthor, AuthorField).Failure? ==>
        o == Fail(CheckedText(newAuthor, AuthorField).error) && author == old(author)
      ensures title == old(title)
      ensures old(Valid()) ==> Valid()
    {
      if IsBlank(newAuthor) {
        return Fail(Validation(AuthorField + " cannot be blank"));
      }
      author := Trim(newAuthor);
      return Pass;
    }
  }

  /** create(isbn, title, author): a new entry, or the first validation error. */
  method Create(isbn: Isbn, title: string, author: string) returns (r: Result<CatalogEntry, Error>)
    ensures EntryFor(isbn, title, author).Success? ==>
      r.Success? && fresh(r.value) && r.value.Snapshot() == EntryFor(isbn, title, author).value
    ensures EntryFor(isbn, title, author).Failure? ==>
      r == Failure(EntryFor(isbn, title, author).error)
  {
    var checked := EntryFor(isbn, title, author);
    if checked.Failure? {
      return Failure(checked.error);
    }
    var entry := new CatalogEntry.Restore(checked.value);
    return Success(entry);
  }

  /** create(String isbn, title, author). */
  method CreateFromRaw(rawIsbn: string, title: string, author: string) returns (r: Result<CatalogEntry, Error>)
    ensures EntryForRaw(rawIsbn, title, author).Success? ==>
      r.Success? && fresh(r.value) && r.value.Snapshot() == EntryForRaw(rawIsbn, title, author).value
    ensures EntryForRaw(rawIsbn, title, author).Failure? ==>
      r == Failure(EntryForRaw(rawIsbn, title, author).error)
  {
    var isbn := IsbnValue.Create(rawIsbn);
    if isbn.Failure? {
      return Failure(isbn.error);
    }
    r := Create(isbn.value, title, author);
  }

  // ---------------------------------------------------------------------------
  // Properties
  // ---------------------------------------------------------------------------

  /** A text passes the check exactly when it is not blank, and is then stored
      trimmed, with no trimmable char at either end. */
  lemma CheckedTextIff(s: string, field: string)
    ensures CheckedText(s, field).Success? <==> !IsBlank(s)
    ensures CheckedText(s, field).Success? ==>
      CheckedText(s, field).value == Trim(s) && IsTrimmed(CheckedText(s, field).value)
    ensures CheckedText(s, field).Failure? ==>
      CheckedText(s, field).error == Validation(field + " cannot be blank")
  {
  }

  /** Checking a stored (already checked) text again gives it back unchanged,
      provided it is still non-blank. */
  lemma CheckedTextIdempotent(s: string, field: string)
    requires CheckedText(s, field).Success?
    requires !IsBlank(CheckedText(s, field).value)
    ensures CheckedText(CheckedText(s, field).value, field) == CheckedText(s, field)
  {
    TrimIdempotent(s);
  }

  /** create succeeds exactly when neither text is blank, and then holds the
      given isbn and the two trimmed texts. */
  lemma EntryForIff(isbn: Isbn, title: string, author: string)
    ensures EntryFor(isbn, title, author).Success? <==> !IsBlank(title) && !IsBlank(author)
    ensures EntryFor(isbn, title, author).Success? ==>
      EntryFor(isbn, title, author).value == EntryRecord(isbn, Trim(title), Trim(author))
      && EntryInvariant(EntryFor(isbn, title, author).value)
  {
  }

  /** The title is checked first: a blank title is reported even when the
      author is blank too; the author error appears only with a good title. */
  lemma TitleCheckedFirst(isbn: Isbn, title: string, author: string)
    ensures IsBlank(title) ==> EntryFor(isbn, title, author) == Failure(Validation("Title cannot be blank"))
    ensures !IsBlank(title) && IsBlank(author) ==>
      EntryFor(isbn, title, author) == Failure(Validation("Author cannot be blank"))
  {
    assert TitleField + " cannot be blank" == "Title cannot be blank";
    assert AuthorField + " cannot be blank" == "Author cannot be blank";
  }

  /** The string-ISBN overload fails with the ISBN's own error on an invalid
      ISBN, and otherwise behaves as create on the parsed ISBN. */
  lemma EntryForRawIff(rawIsbn: string, title: string, author: string)
    ensures IsbnValue.Create(rawIsbn).Failure? ==>
      EntryForRaw(rawIsbn, title, author) == Failure(Validation(InvalidIsbnMessage + Normalize(rawIsbn)))
    ensures IsbnValue.Create(rawIsbn).Success? ==>
      EntryForRaw(rawIsbn, title, author) == EntryFor(IsbnValue.Create(rawIsbn).value, title, author)
  {
    CreateSucceedsIff(rawIsbn);
  }

  /** A text with a visible char (neither trimmable nor whitespace) is
      accepted and stays non-blank after trimming. A text whose every
      non-whitespace char is below U+0020 is accepted but stored empty. */
  lemma StoredTextNonBlankWhenVisible(s: string, field: string, i: nat)
    requires i < |s| && !IsTrimmable(s[i]) && !IsWhitespace(s[i])
    ensures CheckedText(s, field).Success?
    ensures CheckedText(s, field).value != [] && !IsBlank(CheckedText(s, field).value)
  {
    VisibleCharSurvivesTrim(s, i);
  }

  /** The blank check and trim disagree: U+0000 passes the check but is
      stored as the empty string. */
  lemma ControlCharStoredEmpty(field: string)
    ensures CheckedText("\U{0}", field) == Success([])
  {
    BlankTestAndTrimDisagree();
  }

  /** Two entries are equal exactly when their ISBNs are. */
  lemma EntryEqualityIsByIsbn(a: EntryRecord, b: EntryRecord)
    ensures Equals(IdentityOf(a), Some(IdentityOf(b))) <==> a.isbn == b.isbn
  {
  }

  // ---------------------------------------------------------------------------
  // Loading from the repository
  // ---------------------------------------------------------------------------

  /** CatalogEntryRepositoryImpl.toDomain: a stored row is loaded through
      `create`, so its ISBN and both texts are checked again. */
  function Reloaded(e: EntryRecord): Result<EntryRecord, Error> {
    EntryForRaw(e.isbn.value, e.title, e.author)
  }

  /** A stored entry with a canonical ISBN and trimmed texts loads back as
      itself exactly when neither text is blank; a blank title fails first. */
  lemma ReloadedIff(e: EntryRecord)
    requires IsbnValue.Create(e.isbn.value) == Success(e.isbn)
    requires EntryInvariant(e)
    ensures Reloaded(e).Success? <==> !IsBlank(e.title) && !IsBlank(e.author)
    ensures Reloaded(e).Success? ==> Reloaded(e).value == e
    ensures IsBlank(e.title) ==> Reloaded(e) == Failure(Validation(TitleField + " cannot be blank"))
  {
    EntryForIff(e.isbn, e.title, e.author);
    if !IsBlank(e.title) && !IsBlank(e.author) {
      TrimmedIsFixpoint(e.title);
      TrimmedIsFixpoint(e.author);
    }
  }

  /** An entry created with the title U+0000 is accepted and stored with an
      empty title, and that stored entry then fails to load. */
  lemma ControlCharTitleFailsToReload(isbn: Isbn, author: string)
    requires IsbnValue.Create(isbn.value) == Success(isbn)
    requires !IsBlank(author)
    ensures EntryFor(isbn, "\U{0}", author).Success?
    ensures Reloaded(EntryFor(isbn, "\U{0}", author).value) == Failure(Validation(TitleField + " cannot be blank"))
  {
    ControlCharStoredEmpty(TitleField);
    EntryForIff(isbn, "\U{0}", author);
    ReloadedIff(EntryFor(isbn, "\U{0}", author).value);
  }
}
