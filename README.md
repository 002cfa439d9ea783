# Library domain model in Dafny

This project models the core of a small library-management service. Books
are copies of catalogued titles that borrowers take out and return. It
covers:

- the value objects: an ISBN, an e-mail address, and the book and borrower
  ids;
- the aggregates Book, CatalogEntry and Borrower, with the identity they
  inherit from the common aggregate root;
- the two read projections: a book joined with its catalog text, and the
  book-details transfer object;
- the application use cases: register a book, borrow a book, return a book,
  register a borrower, update a catalog entry, fetch a catalog entry by
  ISBN, and list all books and all borrowers.

Layout, one module per file:

- `java_text.dfy` (`JavaText`): the parts of `java.lang.String` the core
  relies on.
  - `isBlank` tests `Character.isWhitespace`.
  - `trim` strips chars at or below U+0020. The two do not agree.
  - `toUpperCase`, `toLowerCase` and `equalsIgnoreCase` are modelled on
    ASCII letters.
- `isbn.dfy` (`IsbnValue`), `email_address.dfy` (`EmailValue`) and
  `identifiers.dfy` (`Identifiers`): the value objects.
  - Each compact constructor is a function that returns `Result`. A
    thrown `IllegalArgumentException` becomes `Failure(Validation(message))`,
    with the source's message.
  - The two regular expressions are stated as predicates.
  - The e-mail matcher is proved equal to the pattern read as
    "some `@`, some `.`, three parts".
- `aggregate_root.dfy` (`AggregateIdentity`): `equals` and `hashCode` of
  `AggregateRoot`. The hash is `Objects.hash(id)`, taken to 32 bits.
- `book.dfy`, `catalog_entry.dfy`, `borrower.dfy`: the aggregates.
  - Each is a `class` whose methods update its fields in place.
  - A datatype record gives the value the repository stores.
  - The pure functions `Borrowed`, `Returned`, `CheckedText` and
    `CheckedName` specify the methods.
- `read_models.dfy` (`ReadModels`) and `queries.dfy` (`Queries`): the
  projections and the read-only use cases.
- `handlers.dfy` (`Handlers`): the command use cases.
  - Each one is a step function over the three repositories, giving
    the new stores and the result.
  - The `Library` class holds the repositories as fields. Each of its
    methods is proved to perform exactly that step and to keep the store
    invariant.
  - The invariant: records sit under their own id, texts are stored
    trimmed, a book with no borrower has no time, and e-mail addresses
    are unique.
- `handler_properties.dfy` (`HandlerProperties`): what the use cases
  promise.
  - The order of their checks.
  - A failure before the first save leaves the stores alone.
  - What a success stores and returns.
  - How borrowing and returning compose.

Modelling choices:

- The repositories map entities to and from persistence rows. A loaded
  entity is a new object built from the stored row, and the stores are
  value maps.
- The id generator is the function `generate` applied to a counter of ids
  drawn so far.
- The clock is the `now` argument of the borrow use case.
- Errors are values of `LibraryErrors.Error`:
  - `Validation` for `IllegalArgumentException`;
  - `State` for `IllegalStateException`;
  - `NotFound(entity, key)` for the not-found exceptions;
  - `Conflict` for the conflict and duplicate-e-mail exceptions.

A catalog title, an author and a borrower's name are meant never to be
blank. The code checks blankness before trimming, with a different
character set than `trim` uses. A text made only of U+0000 therefore
passes the check and is stored as the empty string. The model follows the
code (`CatalogEntryAggregate.ControlCharStoredEmpty`,
`JavaText.BlankTestAndTrimDisagree`). The stored text is provably non-blank
only when the input holds a char above U+0020 that is not whitespace.

## Model

| member | source | states |
|---|---|---|
| JavaText.Trim | domain/src/main/java/io/github/onejacklee/library/domain/catalogentry/CatalogEntry.java:45 | `trim` strips every char at or below U+0020 from both ends: the result has none at either end, is the slice between the first and last kept char, and is empty exactly when every char is trimmable |
| JavaText.TrimIdempotent | domain/src/main/java/io/github/onejacklee/library/domain/catalogentry/CatalogEntry.java:45 | trimming a trimmed text changes nothing |
| JavaText.TrimFixpointIff | domain/src/main/java/io/github/onejacklee/library/domain/catalogentry/CatalogEntry.java:45 | a text is its own trim exactly when neither end is trimmable |
| JavaText.TrimmedIsFixpoint | domain/src/main/java/io/github/onejacklee/library/domain/borrower/Borrower.java:41 | a text with no trimmable char at either end is unchanged by `trim` |
| JavaText.VisibleCharSurvivesTrim | domain/src/main/java/io/github/onejacklee/library/domain/catalogentry/CatalogEntry.java:42-45 | a text holding a char that is neither trimmable nor whitespace passes the blank check and is still non-blank after `trim` |
| JavaText.BlankTestAndTrimDisagree | domain/src/main/java/io/github/onejacklee/library/domain/catalogentry/CatalogEntry.java:42-45 | the blank check and `trim` use different char sets: U+0000 is not blank yet trims to empty, and U+0001 followed by U+3000 trims to a blank text |
| JavaText.CaseMappingProperties | domain/src/main/java/io/github/onejacklee/library/domain/catalogentry/Isbn.java:33 | upper-casing leaves no lower-case letter, lower-casing no upper-case letter, each keeps every other char, and each result equals the input ignoring case |
| JavaText.ToLowerCaseIdempotent | domain/src/main/java/io/github/onejacklee/library/domain/borrower/EmailAddress.java:14 | lower-casing twice is lower-casing once |
| JavaText.ToUpperCaseIdempotent | domain/src/main/java/io/github/onejacklee/library/domain/catalogentry/Isbn.java:33 | upper-casing twice is upper-casing once |
| JavaText.CharsEqualIgnoringCaseIff | application/src/main/java/io/github/onejacklee/library/application/book/RegisterBookCommandHandler.java:39-40 | two chars are equal ignoring case exactly when their lower-case forms are equal |
| JavaText.EqualsIgnoreCaseIff | application/src/main/java/io/github/onejacklee/library/application/book/RegisterBookCommandHandler.java:39-40 | `equalsIgnoreCase` holds exactly when the lower-cased strings are equal |
| JavaText.LeadingEndIgnoresCase | domain/src/main/java/io/github/onejacklee/library/domain/borrower/EmailAddress.java:14 | lower-casing does not move the first kept char of `trim` |
| JavaText.TrailingStartIgnoresCase | domain/src/main/java/io/github/onejacklee/library/domain/borrower/EmailAddress.java:14 | lower-casing does not move the end of the text `trim` keeps |
| JavaText.TrimLowerCommute | domain/src/main/java/io/github/onejacklee/library/domain/borrower/EmailAddress.java:14 | trim-after-lower-case equals lower-case-after-trim |
| IsbnValue.StripSeparators | domain/src/main/java/io/github/onejacklee/library/domain/catalogentry/Isbn.java:33 | removing `-` and space leaves neither, keeps only chars of the input, and never lengthens it |
| IsbnValue.StripSeparatorsKeepsPlainText | domain/src/main/java/io/github/onejacklee/library/domain/catalogentry/Isbn.java:33 | a text without `-` and space is kept unchanged |
| IsbnValue.Normalize | domain/src/main/java/io/github/onejacklee/library/domain/catalogentry/Isbn.java:32-34 | the normal form holds no `-`, no space and no lower-case ASCII letter |
| IsbnValue.CreateSucceedsIff | domain/src/main/java/io/github/onejacklee/library/domain/catalogentry/Isbn.java:9-18 | an ISBN is created exactly when the separator-free text, upper-cased, is 9 digits then a digit or `X`, or 13 digits, and then holds that normalised text; otherwise the error quotes the normalised text |
| IsbnValue.CreatedValueShape | domain/src/main/java/io/github/onejacklee/library/domain/catalogentry/Isbn.java:12-18 | a created ISBN's value has length 10 or 13, only digits except an `X` in position 10, no separator |
| IsbnValue.UpperCharKeepsDigits | domain/src/main/java/io/github/onejacklee/library/domain/catalogentry/Isbn.java:9-33 | upper-casing neither makes nor unmakes a digit, and gives `X` exactly from `x` or `X` |
| IsbnValue.NormalizeFixpointIff | domain/src/main/java/io/github/onejacklee/library/domain/catalogentry/Isbn.java:32-34 | a text is its own normal form exactly when it holds no separator and no lower-case ASCII letter |
| IsbnValue.NormalizeIdempotent | domain/src/main/java/io/github/onejacklee/library/domain/catalogentry/Isbn.java:32-34 | normalising twice is normalising once |
| IsbnValue.CreateIdempotent | domain/src/main/java/io/github/onejacklee/library/domain/catalogentry/Isbn.java:12-43 | creating an ISBN from a created ISBN's `toString` gives the same ISBN |
| IsbnValue.EqualIffSameNormalForm | domain/src/main/java/io/github/onejacklee/library/domain/catalogentry/Isbn.java:7-14 | two valid inputs create equal ISBNs exactly when their normal forms are equal |
| IsbnValue.TryParseAgreesWithCreate | domain/src/main/java/io/github/onejacklee/library/domain/catalogentry/Isbn.java:24-30 | `tryParse` is empty on null and on every input `create` rejects, and otherwise holds what `create` gives |
| IsbnValue.RemoveAllAbsent | domain/src/main/java/io/github/onejacklee/library/domain/catalogentry/Isbn.java:33 | removing a char that is absent changes nothing |
| IsbnValue.RemoveAllConcat | domain/src/main/java/io/github/onejacklee/library/domain/catalogentry/Isbn.java:33 | removing a char distributes over concatenation |
| IsbnValue.NormalizeWithoutSeparators | domain/src/main/java/io/github/onejacklee/library/domain/catalogentry/Isbn.java:33 | without separators the normal form is the upper-cased text |
| IsbnValue.StripSeparatorsConcat | domain/src/main/java/io/github/onejacklee/library/domain/catalogentry/Isbn.java:33 | stripping separators distributes over concatenation |
| IsbnValue.StripSeparatorsIgnoresInsert | domain/src/main/java/io/github/onejacklee/library/domain/catalogentry/Isbn.java:33 | one inserted `-` or space disappears when separators are stripped |
| IsbnValue.SeparatorInsensitive | domain/src/main/java/io/github/onejacklee/library/domain/catalogentry/Isbn.java:32-34 | inserting a `-` or a space anywhere in the input does not change what `create` gives |
| IsbnValue.RejectedByLength | domain/src/main/java/io/github/onejacklee/library/domain/catalogentry/Isbn.java:9-38 | a separator-free input whose length is neither 10 nor 13 is rejected |
| IsbnValue.RejectedLengthExamples | domain/src/main/java/io/github/onejacklee/library/domain/catalogentry/Isbn.java:9-10 | the empty input, 3 digits and 9 digits are rejected |
| IsbnValue.RejectedDigitRun | domain/src/main/java/io/github/onejacklee/library/domain/catalogentry/Isbn.java:9-16 | a run of digits whose length is neither 10 nor 13 is rejected with a message quoting it unchanged |
| IsbnValue.RejectedLetters | domain/src/main/java/io/github/onejacklee/library/domain/catalogentry/Isbn.java:9-10 | an input of lower-case letters is rejected |
| IsbnValue.LowerCheckCharAccepted | domain/src/main/java/io/github/onejacklee/library/domain/catalogentry/Isbn.java:9-33 | nine digits followed by `x` give the same ISBN as with `X`, and its value ends in `X` |
| IsbnValue.HyphenExample | domain/src/main/java/io/github/onejacklee/library/domain/catalogentry/Isbn.java:33 | a hyphenated 13-digit ISBN equals the plain one |
| EmailValue.IndexOf | domain/src/main/java/io/github/onejacklee/library/domain/borrower/EmailAddress.java:9 | the index of the first occurrence, or the length when there is none |
| EmailValue.LastIndexOf | domain/src/main/java/io/github/onejacklee/library/domain/borrower/EmailAddress.java:9 | the index of the last occurrence, or -1 when there is none |
| EmailValue.PatternCutAtFirstAt | domain/src/main/java/io/github/onejacklee/library/domain/borrower/EmailAddress.java:9 | an `@` that ends a valid local part is the first `@` |
| EmailValue.PatternCutAtLastDot | domain/src/main/java/io/github/onejacklee/library/domain/borrower/EmailAddress.java:9 | a `.` followed by a valid top-level label is the last `.` |
| EmailValue.MatchesImpliesPattern | domain/src/main/java/io/github/onejacklee/library/domain/borrower/EmailAddress.java:8-10 | the first-`@`, last-`.` matcher accepts only texts the pattern describes |
| EmailValue.CutMatches | domain/src/main/java/io/github/onejacklee/library/domain/borrower/EmailAddress.java:9 | any cut the pattern accepts makes the matcher accept |
| EmailValue.PatternImpliesMatches | domain/src/main/java/io/github/onejacklee/library/domain/borrower/EmailAddress.java:8-10 | the matcher accepts every text the pattern describes |
| EmailValue.MatchesIffPattern | domain/src/main/java/io/github/onejacklee/library/domain/borrower/EmailAddress.java:8-15 | the matcher accepts exactly the texts of the pattern `local@domain.label` |
| EmailValue.MatchesHasOneAt | domain/src/main/java/io/github/onejacklee/library/domain/borrower/EmailAddress.java:9 | a matching text holds exactly one `@` |
| EmailValue.CreateSucceedsIff | domain/src/main/java/io/github/onejacklee/library/domain/borrower/EmailAddress.java:12-19 | an address is created exactly when the lower-cased, trimmed text matches; it holds that text; otherwise the error quotes the raw input |
| EmailValue.NormalizedIsLowerCase | domain/src/main/java/io/github/onejacklee/library/domain/borrower/EmailAddress.java:14 | the normalised text has no upper-case ASCII letter |
| EmailValue.CreatedValueShape | domain/src/main/java/io/github/onejacklee/library/domain/borrower/EmailAddress.java:14-18 | a created address holds exactly one `@`, no upper-case ASCII letter and no trimmable char at either end |
| EmailValue.NormalizeIdempotent | domain/src/main/java/io/github/onejacklee/library/domain/borrower/EmailAddress.java:14 | normalising twice is normalising once |
| EmailValue.CreateIdempotent | domain/src/main/java/io/github/onejacklee/library/domain/borrower/EmailAddress.java:12-28 | creating an address from a created address's `toString` gives it back |
| EmailValue.CaseInsensitive | domain/src/main/java/io/github/onejacklee/library/domain/borrower/EmailAddress.java:14 | inputs equal ignoring case are accepted together and give equal addresses |
| EmailValue.SurroundingSpaceIgnored | domain/src/main/java/io/github/onejacklee/library/domain/borrower/EmailAddress.java:14 | trimming the input first changes neither acceptance nor the address |
| EmailValue.NormalizeKeepsAts | domain/src/main/java/io/github/onejacklee/library/domain/borrower/EmailAddress.java:14 | every `@` of the normal form comes from an `@` of the input |
| EmailValue.NormalizeShowsAts | domain/src/main/java/io/github/onejacklee/library/domain/borrower/EmailAddress.java:14 | every `@` of the input survives normalisation, shifted past the trimmed prefix |
| EmailValue.RejectedWithoutAt | domain/src/main/java/io/github/onejacklee/library/domain/borrower/EmailAddress.java:9-16 | an input without `@` is rejected with the message quoting it |
| EmailValue.RejectedWithTwoAts | domain/src/main/java/io/github/onejacklee/library/domain/borrower/EmailAddress.java:9-16 | an input with two `@` is rejected |
| EmailValue.RejectedWithoutLocalPart | domain/src/main/java/io/github/onejacklee/library/domain/borrower/EmailAddress.java:9-16 | a normal form that starts with `@` is rejected |
| EmailValue.RejectedWithoutDotAfterAt | domain/src/main/java/io/github/onejacklee/library/domain/borrower/EmailAddress.java:9-16 | a normal form with no `.` after its first `@` is rejected |
| Identifiers.CreateBookIdIff | domain/src/main/java/io/github/onejacklee/library/domain/book/BookId.java:7-21 | a book id is rejected exactly when every char is whitespace, with "BookId cannot be blank"; otherwise it keeps the raw text unchanged |
| Identifiers.CreateBorrowerIdIff | domain/src/main/java/io/github/onejacklee/library/domain/borrower/BorrowerId.java:7-21 | a borrower id is rejected exactly when every char is whitespace, with "BorrowerId cannot be blank"; otherwise it keeps the raw text unchanged |
| Identifiers.BookIdEqualIffSameValue | domain/src/main/java/io/github/onejacklee/library/domain/book/BookId.java:5 | two created book ids are equal exactly when their texts are |
| Identifiers.BorrowerIdEqualIffSameValue | domain/src/main/java/io/github/onejacklee/library/domain/borrower/BorrowerId.java:5 | two created borrower ids are equal exactly when their texts are |
| Identifiers.BookIdExamples | domain/src/main/java/io/github/onejacklee/library/domain/book/BookId.java:9-11 | empty, spaces and tab-newline are rejected; a padded id is kept as given |
| AggregateIdentity.Wrap32 | common/src/main/java/io/github/onejacklee/library/common/domain/AggregateRoot.java:35-37 | the 32-bit two's-complement value congruent to the input |
| AggregateIdentity.StringHash | common/src/main/java/io/github/onejacklee/library/common/domain/AggregateRoot.java:35-37 | the string hash is a 32-bit value |
| AggregateIdentity.HashCode | common/src/main/java/io/github/onejacklee/library/common/domain/AggregateRoot.java:35-37 | `Objects.hash(id)` is a 32-bit value |
| AggregateIdentity.EqualsReflexive | common/src/main/java/io/github/onejacklee/library/common/domain/AggregateRoot.java:27-32 | an aggregate equals itself and never equals null |
| AggregateIdentity.EqualsIsEquivalence | common/src/main/java/io/github/onejacklee/library/common/domain/AggregateRoot.java:27-32 | equality is symmetric and transitive |
| AggregateIdentity.DifferentKindsNeverEqual | common/src/main/java/io/github/onejacklee/library/common/domain/AggregateRoot.java:29 | aggregates of different classes are never equal, whatever their ids |
| AggregateIdentity.EqualsImpliesSameHash | common/src/main/java/io/github/onejacklee/library/common/domain/AggregateRoot.java:26-37 | equal aggregates have equal hash codes |
| AggregateIdentity.HashCodeExamples | common/src/main/java/io/github/onejacklee/library/common/domain/AggregateRoot.java:35-37 | the hash of the empty id is 31 and of `"a"` is 128 |
| BookAggregate.Book.Register | domain/src/main/java/io/github/onejacklee/library/domain/book/Book.java:22-29 | a registered book has the given id and ISBN and is available with no time |
| BookAggregate.Book.Restore | domain/src/main/java/io/github/onejacklee/library/domain/book/Book.java:69-80 | stands for the package-private JPA setters: the object holds exactly the stored record, with no check repeated |
| BookAggregate.ReloadedBookIsStored | infrastructure/src/main/java/io/github/onejacklee/library/infrastructure/persistence/repository/BookRepositoryImpl.java:64-75 | a stored book whose ids and ISBN pass their factories again and which keeps the loan invariant loads back as itself |
| BookAggregate.Book.Borrow | domain/src/main/java/io/github/onejacklee/library/domain/book/Book.java:35-42 | on an available book, records the borrower and the given time; on a lent book, fails with "Book is already borrowed" and changes nothing; keeps the lending invariant |
| BookAggregate.Book.ReturnBook | domain/src/main/java/io/github/onejacklee/library/domain/book/Book.java:44-51 | on a lent book, clears borrower and time; on an available book, fails with "Book is not borrowed" and changes nothing; keeps the lending invariant |
| BookAggregate.BorrowIff | domain/src/main/java/io/github/onejacklee/library/domain/book/Book.java:35-55 | borrowing succeeds exactly on an available book, recording the borrower and time; else the "already borrowed" error |
| BookAggregate.ReturnIff | domain/src/main/java/io/github/onejacklee/library/domain/book/Book.java:44-55 | returning succeeds exactly on a lent book, clearing both fields; else the "not borrowed" error |
| BookAggregate.TransitionsKeepInvariant | domain/src/main/java/io/github/onejacklee/library/domain/book/Book.java:35-51 | both transitions keep "no borrower means no time" |
| BookAggregate.BorrowedBookCannotBeBorrowedAgain | domain/src/main/java/io/github/onejacklee/library/domain/book/Book.java:35-42 | after a successful borrow, any second borrow fails |
| BookAggregate.BorrowThenReturnRestores | domain/src/main/java/io/github/onejacklee/library/domain/book/Book.java:35-51 | borrowing then returning an available book restores its lending state |
| BookAggregate.ReturnThenBorrow | domain/src/main/java/io/github/onejacklee/library/domain/book/Book.java:35-51 | after a return, a borrow by anyone succeeds |
| BookAggregate.BookEqualityIsById | common/src/main/java/io/github/onejacklee/library/common/domain/AggregateRoot.java:27-32 | two books are equal exactly when their ids are, whatever their ISBN and loan |
| BookAggregate.WithCatalogFollowsLending | domain/src/main/java/io/github/onejacklee/library/domain/book/BookWithCatalog.java:18-28 | the joined row of an available book shows no time; after a borrow it shows the book lent to that borrower at that time; after a return, available with no time |
| CatalogEntryAggregate.CatalogEntry.Restore | domain/src/main/java/io/github/onejacklee/library/domain/catalogentry/CatalogEntry.java:68-75 | stands for the package-private JPA setters: the object holds exactly the stored record, with no check repeated |
| CatalogEntryAggregate.ReloadedIff | infrastructure/src/main/java/io/github/onejacklee/library/infrastructure/persistence/repository/CatalogEntryRepositoryImpl.java:43-45 | a stored entry with a canonical ISBN and trimmed texts loads back as itself exactly when neither text is blank; a blank title fails with "Title cannot be blank" |
| CatalogEntryAggregate.ControlCharTitleFailsToReload | infrastructure/src/main/java/io/github/onejacklee/library/infrastructure/persistence/repository/CatalogEntryRepositoryImpl.java:43-45 | an entry created with the title U+0000 is accepted, stored with an empty title, and then fails to load |
| CatalogEntryAggregate.CatalogEntry.UpdateTitle | domain/src/main/java/io/github/onejacklee/library/domain/catalogentry/CatalogEntry.java:30-46 | a non-blank title replaces the old one trimmed; a blank one fails with "Title cannot be blank" and keeps the old; the author never changes |
| CatalogEntryAggregate.CatalogEntry.UpdateAuthor | domain/src/main/java/io/github/onejacklee/library/domain/catalogentry/CatalogEntry.java:35-54 | a non-blank author replaces the old one trimmed; a blank one fails with "Author cannot be blank" and keeps the old; the title never changes |
| CatalogEntryAggregate.Create | domain/src/main/java/io/github/onejacklee/library/domain/catalogentry/CatalogEntry.java:16-24 | creates a fresh entry holding the checked texts, or fails with the first text's error |
| CatalogEntryAggregate.CreateFromRaw | domain/src/main/java/io/github/onejacklee/library/domain/catalogentry/CatalogEntry.java:26-28 | parses the ISBN first, then behaves as `create` |
| CatalogEntryAggregate.CheckedTextIff | domain/src/main/java/io/github/onejacklee/library/domain/catalogentry/CatalogEntry.java:40-54 | a text is accepted exactly when it is not blank, and is then kept trimmed |
| CatalogEntryAggregate.CheckedTextIdempotent | domain/src/main/java/io/github/onejacklee/library/domain/catalogentry/CatalogEntry.java:40-46 | checking an already checked, non-blank text again changes nothing |
| CatalogEntryAggregate.EntryForIff | domain/src/main/java/io/github/onejacklee/library/domain/catalogentry/CatalogEntry.java:16-24 | `create` succeeds exactly when neither text is blank, holding the ISBN and both trimmed texts |
| CatalogEntryAggregate.TitleCheckedFirst | domain/src/main/java/io/github/onejacklee/library/domain/catalogentry/CatalogEntry.java:18-19 | a blank title is reported even when the author is blank too |
| CatalogEntryAggregate.EntryForRawIff | domain/src/main/java/io/github/onejacklee/library/domain/catalogentry/CatalogEntry.java:26-28 | the string overload fails with the ISBN's error first, then behaves as `create` |
| CatalogEntryAggregate.StoredTextNonBlankWhenVisible | domain/src/main/java/io/github/onejacklee/library/domain/catalogentry/CatalogEntry.java:40-54 | a text with a visible char is accepted and stored non-blank |
| CatalogEntryAggregate.ControlCharStoredEmpty | domain/src/main/java/io/github/onejacklee/library/domain/catalogentry/CatalogEntry.java:42-45 | the text U+0000 is accepted and stored as the empty string |
| CatalogEntryAggregate.EntryEqualityIsByIsbn | domain/src/main/java/io/github/onejacklee/library/domain/catalogentry/CatalogEntry.java:56-58 | two entries are equal exactly when their ISBNs are |
| BorrowerAggregate.Borrower.Restore | domain/src/main/java/io/github/onejacklee/library/domain/borrower/Borrower.java:52-59 | stands for the package-private JPA setters: the object holds exactly the stored record, with no check repeated |
| BorrowerAggregate.ReloadedIff | infrastructure/src/main/java/io/github/onejacklee/library/infrastructure/persistence/repository/BorrowerRepositoryImpl.java:58-62 | a stored borrower with a canonical id and address and a trimmed name loads back as itself exactly when the name is not blank; otherwise it fails with "Name cannot be blank" |
| BorrowerAggregate.Borrower.UpdateName | domain/src/main/java/io/github/onejacklee/library/domain/borrower/Borrower.java:26-42 | a non-blank name replaces the old one trimmed; a blank one fails with "Name cannot be blank" and keeps the old; the address never changes |
| BorrowerAggregate.Borrower.UpdateEmailAddress | domain/src/main/java/io/github/onejacklee/library/domain/borrower/Borrower.java:31-34 | the address is replaced and the name is unchanged |
| BorrowerAggregate.Register | domain/src/main/java/io/github/onejacklee/library/domain/borrower/Borrower.java:16-24 | creates a fresh borrower with the trimmed name and the address, or fails on a blank name |
| BorrowerAggregate.RegisteredIff | domain/src/main/java/io/github/onejacklee/library/domain/borrower/Borrower.java:16-42 | registration succeeds exactly when the name is not blank, storing it trimmed |
| BorrowerAggregate.StoredNameNonBlankWhenVisible | domain/src/main/java/io/github/onejacklee/library/domain/borrower/Borrower.java:36-42 | a name with a visible char is accepted and stored non-blank |
| BorrowerAggregate.BorrowerEqualityIsById | common/src/main/java/io/github/onejacklee/library/common/domain/AggregateRoot.java:27-32 | two borrowers are equal exactly when their ids are |
| ReadModels.DetailsOfReflectsBook | application/src/main/java/io/github/onejacklee/library/application/book/BookDetailsDto.java:18-28 | the details carry the book's id and ISBN strings, the entry's title and author, availability exactly when no borrower is recorded, the borrower's id string or null, and the book's lending time unchanged |
| ReadModels.DetailsPathsAgree | application/src/main/java/io/github/onejacklee/library/application/book/BookDetailsDto.java:18-40 | building the details through the joined row gives the same result as from book and entry |
| ReadModels.AvailableDetailsShowNoLoan | application/src/main/java/io/github/onejacklee/library/application/book/BookDetailsDto.java:24-26 | details of an available book show neither borrower nor time |
| ReadModels.EntryDtoInjective | application/src/main/java/io/github/onejacklee/library/application/catalogentry/CatalogEntryDto.java:10-16 | distinct entries give distinct transfer objects |
| ReadModels.BorrowerDtoInjective | application/src/main/java/io/github/onejacklee/library/application/borrower/BorrowerDto.java:10-16 | distinct borrowers give distinct transfer objects |
| Queries.GetCatalogEntryByIsbnIff | application/src/main/java/io/github/onejacklee/library/application/catalogentry/GetCatalogEntryByIsbnQueryHandler.java:17-23 | an invalid ISBN fails with its error; a missing entry fails with NotFound quoting the raw text; otherwise the entry under the normalised ISBN is returned |
| Queries.GetCatalogEntryIgnoresSeparators | application/src/main/java/io/github/onejacklee/library/application/catalogentry/GetCatalogEntryByIsbnQueryHandler.java:18-20 | a separator in the queried ISBN does not change a successful lookup |
| Queries.GetAllBooks | application/src/main/java/io/github/onejacklee/library/application/book/GetAllBooksQueryHandler.java:17-21 | one details object per joined row, in the same order |
| Queries.GetAllBooksAppend | application/src/main/java/io/github/onejacklee/library/application/book/GetAllBooksQueryHandler.java:17-21 | the listing of two row sequences is the concatenation of their listings |
| Queries.GetAllBooksShowsLending | application/src/main/java/io/github/onejacklee/library/application/book/GetAllBooksQueryHandler.java:17-21 | each listed book shows its own id, availability, borrower's id string and lending time unchanged |
| Queries.GetAllBorrowers | application/src/main/java/io/github/onejacklee/library/application/borrower/GetAllBorrowersQueryHandler.java:17-21 | one transfer object per borrower, in the same order |
| Queries.GetAllBorrowersAppend | application/src/main/java/io/github/onejacklee/library/application/borrower/GetAllBorrowersQueryHandler.java:17-21 | the listing of two borrower sequences is the concatenation of their listings |
| Handlers.Library.constructor | application/src/main/java/io/github/onejacklee/library/application/book/RegisterBookCommandHandler.java:19-21 | the library starts with the given stores and id supplier |
| Handlers.Library.NextId | application/src/main/java/io/github/onejacklee/library/application/book/RegisterBookCommandHandler.java:31 | draws the next id from the supplier and changes nothing else |
| Handlers.Library.ResolveEntry | application/src/main/java/io/github/onejacklee/library/application/book/RegisterBookCommandHandler.java:27-50 | reuses a stored entry whose text matches, or saves a new entry built from the command, and otherwise leaves the stores as they were |
| Handlers.Library.RegisterBook | application/src/main/java/io/github/onejacklee/library/application/book/RegisterBookCommandHandler.java:23-50 | performs the register-book step on the stores and keeps the store invariant |
| Handlers.Library.BorrowBook | application/src/main/java/io/github/onejacklee/library/application/book/BorrowBookCommandHandler.java:25-43 | performs the borrow step on the stores and keeps the store invariant |
| Handlers.Library.ReturnBook | application/src/test/java/io/github/onejacklee/library/application/book/ReturnBookCommandHandlerTest.java:57-174 | performs the return step on the stores and keeps the store invariant |
| Handlers.Library.RegisterBorrower | application/src/main/java/io/github/onejacklee/library/application/borrower/RegisterBorrowerCommandHandler.java:20-33 | performs the register-borrower step on the stores and keeps the store invariant |
| Handlers.Library.UpdateCatalogEntry | application/src/main/java/io/github/onejacklee/library/application/catalogentry/UpdateCatalogEntryCommandHandler.java:17-29 | performs the update step on the stores and keeps the store invariant |
| Handlers.RegisterBookKeepsInvariant | application/src/main/java/io/github/onejacklee/library/application/book/RegisterBookCommandHandler.java:24-50 | registering a book keeps every record under its own id, trimmed texts and unique addresses |
| Handlers.BorrowBookKeepsInvariant | application/src/main/java/io/github/onejacklee/library/application/book/BorrowBookCommandHandler.java:26-43 | borrowing keeps the store invariant |
| Handlers.ReturnBookKeepsInvariant | application/src/test/java/io/github/onejacklee/library/application/book/ReturnBookCommandHandlerTest.java:57-101 | returning keeps the store invariant |
| Handlers.RegisterBorrowerKeepsInvariant | application/src/main/java/io/github/onejacklee/library/application/borrower/RegisterBorrowerCommandHandler.java:21-33 | registering a borrower keeps e-mail addresses unique and the rest of the invariant |
| Handlers.UpdateCatalogEntryKeepsInvariant | application/src/main/java/io/github/onejacklee/library/application/catalogentry/UpdateCatalogEntryCommandHandler.java:18-29 | updating an entry keeps it under its ISBN with trimmed texts |
| HandlerProperties.RegisterBookRejectsInvalidIsbn | application/src/main/java/io/github/onejacklee/library/application/book/RegisterBookCommandHandler.java:25 | an invalid ISBN fails with the ISBN error and leaves the stores untouched |
| HandlerProperties.RegisterBookConflictIff | application/src/main/java/io/github/onejacklee/library/application/book/RegisterBookCommandHandler.java:27-44 | with an entry under the ISBN, the conflict error quoting the raw ISBN arises exactly when title or author differ other than in ASCII case, and then nothing changes |
| HandlerProperties.RegisterBookPaddedTitleConflicts | application/src/main/java/io/github/onejacklee/library/application/book/RegisterBookCommandHandler.java:39-41 | the command's title is compared untrimmed: the stored title with a leading space conflicts |
| HandlerProperties.RegisterBookCreatesEntry | application/src/main/java/io/github/onejacklee/library/application/book/RegisterBookCommandHandler.java:29-50 | with no entry, a blank text fails before any id or save; otherwise the trimmed entry is saved and one id drawn |
| HandlerProperties.RegisterBookSuccess | application/src/main/java/io/github/onejacklee/library/application/book/RegisterBookCommandHandler.java:24-36 | a success draws one id, saves an available book with the normalised ISBN, keeps an existing entry, and returns the book with the entry's text |
| HandlerProperties.RegisteredBookIsCatalogued | application/src/main/java/io/github/onejacklee/library/application/book/RegisterBookCommandHandler.java:27-35 | after a registration, querying the same ISBN text finds the entry with the returned title and author |
| HandlerProperties.BorrowBookValidatesIdsFirst | application/src/main/java/io/github/onejacklee/library/application/book/BorrowBookCommandHandler.java:27-28 | a blank book id fails first, then a blank borrower id, before any lookup |
| HandlerProperties.BorrowBookMissingBook | application/src/main/java/io/github/onejacklee/library/application/book/BorrowBookCommandHandler.java:30-31 | a missing book fails with NotFound for the raw id, whatever the borrowers hold |
| HandlerProperties.BorrowBookMissingBorrower | application/src/main/java/io/github/onejacklee/library/application/book/BorrowBookCommandHandler.java:33-34 | a missing borrower fails with NotFound for the raw id and saves nothing |
| HandlerProperties.BorrowBookAlreadyBorrowed | application/src/main/java/io/github/onejacklee/library/application/book/BorrowBookCommandHandler.java:36 | a lent book fails with "Book is already borrowed" and saves nothing |
| HandlerProperties.BorrowBookLends | application/src/main/java/io/github/onejacklee/library/application/book/BorrowBookCommandHandler.java:36-42 | an available book is saved lent to the requester at `now`; the result succeeds exactly when its entry exists and then shows borrower, time and the entry's text |
| HandlerProperties.ReturnBookMissingBook | application/src/test/java/io/github/onejacklee/library/application/book/ReturnBookCommandHandlerTest.java:103-120 | a missing book fails with NotFound for the raw id |
| HandlerProperties.ReturnBookWrongBorrower | application/src/test/java/io/github/onejacklee/library/application/book/ReturnBookCommandHandlerTest.java:122-174 | a book not lent to the requester fails with "Book is not borrowed by borrower" and is not saved |
| HandlerProperties.ReturnBookByBorrower | application/src/test/java/io/github/onejacklee/library/application/book/ReturnBookCommandHandlerTest.java:55-101 | a book lent to the requester is saved available; the result shows it available with no borrower or time and the entry's text |
| HandlerProperties.BorrowThenReturnRestoresStores | application/src/test/java/io/github/onejacklee/library/application/book/ReturnBookCommandHandlerTest.java:55-101 | borrowing and then returning with the same ids restores the stores |
| HandlerProperties.RegisterBorrowerInvalidEmail | application/src/main/java/io/github/onejacklee/library/application/borrower/RegisterBorrowerCommandHandler.java:22 | an invalid address fails quoting the raw text and changes nothing |
| HandlerProperties.RegisterBorrowerCaseVariantCollides | application/src/main/java/io/github/onejacklee/library/application/borrower/RegisterBorrowerCommandHandler.java:22-26 | an address equal ignoring case to a stored one fails with the duplicate error quoting the raw text and changes nothing |
| HandlerProperties.RegisterBorrowerBlankNameConsumesId | application/src/main/java/io/github/onejacklee/library/application/borrower/RegisterBorrowerCommandHandler.java:28-29 | a blank name fails after the id is drawn, so an id is consumed but nothing is saved |
| HandlerProperties.RegisterBorrowerSuccess | application/src/main/java/io/github/onejacklee/library/application/borrower/RegisterBorrowerCommandHandler.java:21-33 | a success saves the trimmed name and normalised address under the drawn id and returns exactly those, and no borrower stored before held that address |
| HandlerProperties.RegisterBorrowerKeepsOthers | application/src/main/java/io/github/onejacklee/library/application/borrower/RegisterBorrowerCommandHandler.java:21-33 | a success keeps every borrower under another id; a fresh id adds exactly one borrower; a drawn id already in use replaces that borrower, as a save by primary key does, with one whose address differs |
| HandlerProperties.UpdateCatalogEntryLookup | application/src/main/java/io/github/onejacklee/library/application/catalogentry/UpdateCatalogEntryCommandHandler.java:19-22 | an invalid ISBN fails first; a missing entry fails with NotFound quoting the raw ISBN; neither saves |
| HandlerProperties.UpdateCatalogEntryRejectsBlank | application/src/main/java/io/github/onejacklee/library/application/catalogentry/UpdateCatalogEntryCommandHandler.java:24-25 | a blank title fails first, even with a blank author, then a blank author fails; neither saves |
| HandlerProperties.UpdateCatalogEntrySaves | application/src/main/java/io/github/onejacklee/library/application/catalogentry/UpdateCatalogEntryCommandHandler.java:24-28 | with two non-blank texts, the trimmed texts are saved under the ISBN and returned with its normal form |
| HandlerProperties.UpdateCatalogEntryIgnoresSeparators | application/src/main/java/io/github/onejacklee/library/application/catalogentry/UpdateCatalogEntryCommandHandler.java:19 | a separator in the ISBN does not change a successful update |

## Left out

- The presentation layer (controllers, request and response objects, the
  exception-to-HTTP mapping) and the persistence layer (JPA entities,
  Spring Data repositories) are not part of this model, except the mapping
  from a stored row back to an aggregate (`Reloaded`). Repositories are
  maps from id to stored record.
- The ULID generator is not modelled. Ids come from an arbitrary function
  of the number of ids drawn so far, so two draws may collide, as nothing
  in the core rules that out.
- `Book.borrow(borrowerId)` reads the UTC clock. The clock is the `now`
  argument of the borrow use case instead. Timestamps are only compared
  for equality.
- Transaction rollback is not modelled. Borrowing or returning saves the
  book before reading its catalog entry. When the entry is missing, the
  model keeps that save, while a rolled-back transaction would undo it.
- Concurrency and isolation between use cases are not modelled. Each use
  case is one atomic step.
- The JPA no-argument constructors are out. The use cases load a record
  with the `Restore` constructors, which stand for the package-private
  setters.
- Loading does not repeat the checks in the use cases. The repositories'
  `toDomain` methods re-run the factories. They are modelled apart as the
  `Reloaded` functions, and the use cases do not call them. So a title,
  author or name of U+0000 passes the blank test and is stored empty.
  After that, Java's `findByIsbn`, `findById` and `findAll` throw "... cannot be
  blank" on that record (`ControlCharTitleFailsToReload`), while the
  model's use cases read it as stored.
- Null arguments and the resulting null-reference exceptions are out, since
  Dafny values are never null. `Optional` and nullable fields are `Option`.
- Case mapping is ASCII only. The no-argument `toUpperCase` and
  `toLowerCase` use the default locale. The model assumes a default locale
  whose case mapping agrees with ASCII's on ASCII letters, so not Turkish or
  Azeri. Under those, `I` lower-cases to the dotless `ı`, and an address such
  as `INFO@EXAMPLE.COM` is rejected. Java also maps letters outside ASCII,
  which the model leaves unchanged.
- RegisterBorrowerSuccess: the drawn id is not promised to be new. An id
  that collides with a stored borrower replaces that borrower
  (`RegisterBorrowerKeepsOthers`), since nothing in the core rules a
  collision out.
- AggregateIdentity.HashCode: the hash of a one-string id record is taken
  to be the hash of its string, as OpenJDK computes it. `Record.hashCode`
  leaves that combination unspecified.
- AggregateIdentity.StringHash: computed over Dafny chars (Unicode scalar
  values). Java hashes UTF-16 code units, so the two differ for
  supplementary characters.
- The return-book use case's source is not available. It is modelled from
  `ReturnBookCommandHandlerTest.java`:
  - Its id validation is taken to be the borrow use case's.
  - Its "not borrowed by" check precedes `returnBook`.
  - Its message is exactly "Book is not borrowed by borrower"; the test
    only checks that the message contains this.
  - A missing catalog entry is taken to fail with NotFound, as in
    borrowing.
- The fluent `return this` of the aggregate methods is dropped. The methods
  return an `Outcome`.
- An update that fails on the author has already changed the loaded
  entry's title in memory. That copy is not saved, so the model's stores do
  not show it.
- The `Entity` interface and `IdGenerator` are not part of this model.
  Only their use through `AggregateRoot` and `generate` is.
