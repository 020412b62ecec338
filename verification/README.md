# Library catalog: validation engine, ledger and catalog view

This project is a Dafny model of the core of a small library catalog. A
browser client lets staff add, edit and delete book records and lets a user
borrow and return copies. An Express server keeps the catalog and the loan
list in memory. Four pieces are modelled:

- **The book-record validation engine** (modules `Strings`,
  `Isbn`, `Dates`, `Validator`, `ServerValidator`). It has three copies:
  the client's context `validate`, the client's standalone `validateBook`
  and the server's `validateBook`.
  - Each copy trims title, author and ISBN and checks the ISBN against
    `^(?:\d{9}[\dXx]|\d{13})$`.
  - Each copy requires a published date that is not in the future. It also
    applies the cross-field rule that a book of genre `Academic` needs at
    least five copies.
  - The messages come in a fixed order, with at most one per rule.
  - The client's standalone `validateBook` and the server's `validateBook`
    share one rule sequence, `Validator.Collect`. The context `validate` is
    modelled separately, check by check, and a lemma shows that it renders
    the same messages in the same order as the standalone copy.
  - The server copy differs from the client's in three observable ways. It
    keeps `publishedDate` as sent, where the client stores its `YYYY-MM-DD`
    rendering. An unparseable date is reported as "in the future" on the
    server but as "required" on the client. And the server compares the
    instant the raw value denotes with the current instant, while the client
    compares the start of that day: a date carrying a time later on the
    current day passes on the client and fails on the server. The model
    compares calendar days on both sides, so it covers the first two
    differences only.
- **The server ledger** (`Ledger`). This is the pair of arrays `books` and
  `userBooks` with the add, update, delete, borrow and return handlers.
  - Each handler is a pure function returning the new arrays and an outcome:
    `Ok`, `NotFound`, `OutOfStock`, `NotBorrowed` or `Invalid(messages)`.
  - The model states each guard, each "nothing else changes" obligation,
    the borrow/return round trip, and a consistency invariant that every
    handler keeps.
- **The dashboard reducer** (`Dashboard`). This is `booksReducer`, the
  client's own state machine over the lists on screen. The dashboard does
  not call the server: it starts from sample books, makes add ids itself
  and dispatches form data directly. Lemmas compare the two state machines:
  given the same inputs, the reducer's transition equals the server
  handler's, or differs in a stated way.
- **The catalog view** (`BookList`). It covers the search-and-genre filter,
  the genre drop-down options and the add/edit dispatch of a saved form.

A JavaScript record is a `Records.Book` whose fields are `Option`s. `None`
stands for a missing key; for `copiesAvailable` it also stands for `NaN`,
which every comparison in scope treats the same way. The Dafny field `isbn`
models the property the source spells `ISBN`.

A return removes *every* loan of the book but puts only one copy back on the
shelf, and the model follows the code. So "copies on the shelf plus
copies on loan is constant" holds for a borrow (`Ledger.BorrowConservesStock`)
but not for a return from a caller holding several loans of the same book
(`Ledger.ReturnLosesExtraLoans`, `Ledger.RepeatBorrowThenReturnDropsEarlierLoans`).
The exact round trip (`Ledger.BorrowThenReturnRestores`) is proved under the
precondition that the caller held no loan of the book.

Parameters stand in for everything outside the program's logic:

- **Dates.** `Dates.Calendar` bundles `parse: string -> Option<Date>` (what
  `new Date(s)` followed by the `isNaN` check yields) and `format`
  (`toISOString().split('T')[0]`). `Coherent(cal)` asks that `parse(format(d)) == Some(d)`
  and that `format(d)` is non-empty.
- **Today.** "Today" is a `Date` parameter.
- **Fresh ids.** The id `Date.now().toString()` would produce is a parameter
  of `Ledger.AddBook`.
- **Borrow time.** The borrow timestamp `new Date().toISOString()` is a
  parameter of `Ledger.BorrowBook`.

## Model

| member | source | states |
|---|---|---|
| Isbn.PatternAcceptsExactlyTwoShapes | client/src/components/Validator.jsx:10 | the regular expression, written as a pattern tree, matches a string exactly when it is nine digits followed by a digit, `X` or `x`, or thirteen digits |
| Isbn.ValidateIsbn | client/src/components/Validator.jsx:9-11 | `validateISBN` accepts exactly those two shapes; no checksum is involved |
| Isbn.IsbnRejectsNonDigitBeforeLast | client/src/components/Validator.jsx:137 | a non-digit anywhere before the last character (a hyphen, a space, a letter) makes the ISBN fail |
| Isbn.IsbnLength | server.js:16-18 | only ISBNs of length 10 or 13 are accepted |
| Isbn.AcceptedIsbnIsTrimmed | client/src/components/Validator.jsx:9-11 | an accepted ISBN contains no whitespace, so trimming it changes nothing |
| Isbn.IsbnExamples | client/src/components/Validator.jsx:9-11 | concrete strings: a 13-digit ISBN and a 10-character one ending in `X` or `x` pass; 3 and 12 digits, a hyphenated form and an inner letter fail |
| Validator.SanitizeString | client/src/components/Validator.jsx:24-26 | a missing value becomes `""`; the result never starts or ends with whitespace and is no longer than the input |
| Validator.SanitizeIdempotent | client/src/components/Validator.jsx:24-26 | sanitising a sanitised value changes nothing |
| Validator.SanitizeOnlyStripsWhitespace | client/src/components/Validator.jsx:24-26 | the input is whitespace, then the sanitised value, then whitespace: nothing inside is altered |
| Validator.SanitizeKeepsTrimmed | client/src/components/Validator.jsx:146 | a value with no whitespace at either end is returned as it is |
| Validator.NormalizeDate | client/src/components/Validator.jsx:29-33 | normalisation gives `""` exactly for a missing, empty or unparseable date, so "malformed" and "missing" collapse into one case; otherwise the result is the `YYYY-MM-DD` rendering of the parsed date, which parses back to the same date |
| Validator.NormalizeDateIdempotent | client/src/components/Validator.jsx:29-33 | normalising a normalised date changes nothing |
| Validator.ValidatePublishedDate | client/src/components/Validator.jsx:13-17 | a date is accepted exactly when it parses to a day that is not after today |
| Validator.PublishedTodayIsAccepted | client/src/components/Validator.jsx:16 | the comparison is "not after": a book published today is accepted |
| Validator.AcceptedDateStaysAccepted | client/src/components/Validator.jsx:13-17 | a date accepted today is accepted on every later day |
| Validator.ValidateAcademicCopies | client/src/components/Validator.jsx:19-21 | every genre except exactly `Academic` passes; `Academic` passes only with a count of at least five, and a missing count fails |
| Validator.Collect | client/src/components/Validator.jsx:163-181 | messages are in checking order with at most one per rule; each message is present exactly when its own check fails, including "Academic needs 5 copies" failing for a missing count |
| Validator.AtMostOnePerRule | client/src/components/Validator.jsx:163-181 | a list in checking order holds at most five messages and never both ISBN messages or both date messages |
| Validator.ChecksInRuleOrder | client/src/components/Validator.jsx:163-181 | the five checks, run in source order, emit their messages in rule order |
| Validator.ChecksReportFailures | client/src/components/Validator.jsx:163-181 | each of the seven messages is emitted exactly when its check fails |
| Validator.ValidateBook | client/src/components/Validator.jsx:134-188 | valid exactly when there are no messages; at most five messages; title, author and ISBN sanitised, the date normalised, id, genre and copies passed through |
| Validator.ClientDateMessages | client/src/components/Validator.jsx:147-151 | on the client the date is "required" when missing, empty or unparseable, and "in the future" only for a parsed date after today |
| Validator.ValidateBookFixesSanitised | client/src/components/Validator.jsx:155-161 | validating the sanitised record again gives the same result |
| Validator.ContextValidate | client/src/components/Validator.jsx:36-105 | `errorElements` is `null` exactly when the record is valid, and is never an empty list |
| Validator.ContextValidateAgreesWithValidateBook | client/src/components/Validator.jsx:36-98 | the context `validate` and the standalone `validateBook` agree on the verdict and the sanitised record, and render the same messages in the same order |
| Records.Overlay | server.js:163-167 | object spread: each field the top record carries wins, each field it lacks comes from the base record |
| Records.OverlayAbsorbs | server.js:163-167 | spreading a record twice equals spreading it once, a record spread over itself is itself, and a record carrying every field replaces the base entirely |
| ServerValidator.ServerValidateBook | server.js:10-63 | the server applies the same checks as the client to title, author and ISBN sanitised and the date exactly as sent; every other field passes through |
| ServerValidator.ServerDateMessages | server.js:48-52 | on the server the date is "required" only when missing or empty, and "in the future" when it is present but unparseable or after today |
| ServerValidator.ServerAgreesWithClientOnParseableDates | server.js:31-36 | for a missing, empty or parseable date, compared by calendar day, server and client agree on verdict and messages, and their records differ at most in the date |
| ServerValidator.UnparseableDateMessagesDiffer | server.js:20-24 | an unparseable non-empty date is "required" on the client but "in the future" on the server |
| ServerValidator.ServerKeepsUnnormalisedDate | server.js:31-36 | a date written in another form than `YYYY-MM-DD` is stored as sent by the server but rewritten by the client |
| Ledger.InitialLedgerIsConsistent | server.js:66-94 | under a calendar that reads the three seed dates, the seed books are stored in validated form (trimmed non-empty title and author, an accepted ISBN, a date that parses) with distinct ids |
| Ledger.AddBook | server.js:109-131 | an invalid body changes nothing and reports the messages; a valid one appends exactly the sanitised record with the fresh id and leaves every earlier entry and the loans alone |
| Ledger.UpdateBook | server.js:133-171 | an unknown id is `NotFound` whatever the body; an invalid body changes nothing; a valid one replaces only the found index by the old record overlaid with the sanitised fields, keeping the id |
| Ledger.UpdateKeepsFieldsNotSent | server.js:163-169 | after an update the sent fields are sanitised, the date is stored as sent, and genre and copies the body leaves out keep their old values |
| Ledger.DeleteBook | server.js:173-192 | `NotFound`, changing nothing, exactly when no book has the id; otherwise every book with the id goes and every other entry stays, duplicates included, in its order; the loans stay |
| Ledger.BorrowBook | server.js:197-238 | `NotFound` and `OutOfStock` change nothing; success happens exactly for a found book with copies left, takes one copy off only that book (never below zero, for the integer counts modelled) and appends one loan holding the book as it was |
| Ledger.ReturnBook | server.js:240-268 | `NotBorrowed`, changing nothing, without a loan; otherwise every loan of the book goes and every other loan stays, duplicates included, in its order; one copy goes back only if the book is still in the catalog |
| Ledger.BorrowTakesOneCopy | server.js:225-235 | a successful borrow keeps every id in place, lowers that book's copies by one and adds exactly one loan of it |
| Ledger.ReturnPutsOneCopyBack | server.js:257-262 | a successful return keeps every id in place and raises the book's copies by one |
| Ledger.ReturnUndoesBorrowOnCatalog | server.js:197-268 | after a successful borrow, a return succeeds and restores the catalog exactly |
| Ledger.BorrowThenReturnRestores | server.js:197-268 | when the caller held no loan of the book, a successful borrow followed by a return restores both arrays exactly |
| Ledger.RepeatBorrowThenReturnDropsEarlierLoans | server.js:264-265 | when the caller already held a loan of the book, the same round trip loses the earlier loans |
| Ledger.BorrowConservesStock | server.js:225-235 | a borrow keeps copies on the shelf plus copies on loan constant |
| Ledger.ReturnLosesExtraLoans | server.js:257-265 | a return from a caller holding `k` loans of a book lowers copies on the shelf plus copies on loan by `k - 1` |
| Ledger.HandlePreservesConsistency | server.js:109-268 | every handler keeps each catalog record in validated form (an id, trimmed non-empty title and author, an accepted ISBN, a non-empty date that parses) with unique ids, given that an added record's id is unused |
| Dashboard.Reduce | client/src/components/BookDashboard.jsx:32-120 | an unknown action returns the state itself; only the fetch actions touch the loading flag; the two error actions set the error and every other known action clears it; a fetch keeps the old loans when none are sent; add appends the payload; update replaces every book with the payload's id and merges it into matching loans, keeping their borrowing time; delete drops the id from both lists; borrow and return replace every book with the id by the first such book with one copy fewer or more, with no stock check, and append one loan holding the book as it was or drop all loans of the book |
| Dashboard.ReplaceWhereUnique | client/src/components/BookDashboard.jsx:56-66 | with unique ids, replacing every book with the id is replacing the one the lookup finds |
| Dashboard.ClientMirrorsServerAdd | client/src/components/BookDashboard.jsx:49-54 | given the record the server's add stores, the reducer's add makes the same lists as the server's |
| Dashboard.ClientMirrorsServerUpdate | client/src/components/BookDashboard.jsx:56-66 | with unique ids, given the record the server's update stores, the reducer's update makes the same catalog as the server's |
| Dashboard.ClientMirrorsServerDelete | client/src/components/BookDashboard.jsx:68-74 | on the same id the reducer's delete and the server's make the same catalog, but the reducer drops the book's loans while the server keeps them |
| Dashboard.ClientMirrorsServerBorrow | client/src/components/BookDashboard.jsx:76-93 | with unique ids, on the same id and the same borrowing time, the reducer's borrow makes the same lists as a successful server borrow |
| Dashboard.ClientMirrorsServerReturn | client/src/components/BookDashboard.jsx:95-109 | with unique ids, on the same id of a book in the catalog, the reducer's return makes the same lists as a successful server return |
| Dashboard.ClientBorrowTakesOneCopy | client/src/components/BookDashboard.jsx:76-93 | a client borrow changes only that book, by one copy, and keeps ids unique and in place |
| Dashboard.ClientBorrowThenReturnRestores | client/src/components/BookDashboard.jsx:76-109 | with unique ids and no earlier loan, borrow then return restores both lists and clears the error, with no stock check |
| BookList.FilteredBooks | client/src/components/BookList.jsx:46-55 | the shown books are an order-preserving subsequence holding every entry that matches the search and the genre, duplicates included, and nothing else; with a genre selected, each has exactly that genre |
| BookList.EmptyFiltersShowAll | client/src/components/BookList.jsx:47-52 | with no search term and no genre every book is shown |
| BookList.SearchMatchIff | client/src/components/BookList.jsx:47-50 | a book matches exactly when the term is empty, the lower-cased term occurs in the lower-cased title or author, or the term occurs in the ISBN as written |
| BookList.UpperCaseFindsCheckDigit | client/src/components/BookList.jsx:50 | searching `X` finds a book by the check character `X` that ends its ISBN |
| BookList.LowerCaseMissesCheckDigit | client/src/components/BookList.jsx:50 | searching `x` finds neither its title, its author nor its ISBN: unlike title and author, the ISBN search respects case |
| BookList.TruthyGenres | client/src/components/BookList.jsx:21 | the genres kept are exactly the present, non-empty ones |
| BookList.GenreOptions | client/src/components/BookList.jsx:21 | the options are `""` followed by each present genre once, in order of first occurrence, with no duplicates |
| Seqs.DistinctKeepsFirstOccurrenceOrder | client/src/components/BookList.jsx:21 | a `Set` lists its elements in the order of their first occurrence |
| BookList.SaveBook | client/src/components/BookList.jsx:36-43 | the edit callback is chosen exactly when a book is selected; the record carries the selected book's id when editing and is otherwise unchanged |

## Left out

- HTTP: status codes, the `errorComponent` response shape, the `GET` routes, CORS, body parsing and `app.listen` are not modelled. Handlers return an outcome and the new arrays.
- JSON `null` and non-numeric values: a field is present with a string (or an integer count) or missing. `null` and type-confused bodies are not modelled; a `NaN` count is modelled as missing.
- An explicitly `undefined` spread value is not distinguished from a missing key, so `{ ...a, ...b }` is `Records.Overlay`, which keeps `a`'s field whenever `b`'s is missing.
- ServerValidator.ServerAgreesWithClientOnParseableDates: holds for dates compared by calendar day. In the source the server compares the raw instant with the current instant, so a value such as `2026-10-10T12:00:00Z` checked at 08:00Z that day is accepted by the client, which checks midnight of the day, and rejected by the server as "in the future"; the model does not represent that third difference.
- Ledger.BorrowBook: counts are integers. The source accepts any numeric `copiesAvailable` for a non-Academic book, so with a fractional count such as `0.5` its borrow passes the `<= 0` guard and leaves `-0.5`; "never below zero" holds only for integer counts.
- JavaScript `Date`: parsing, time zones and `toISOString` are behind `Dates.Calendar`. Validity compares calendar days against a `today` parameter instead of an instant against the current time.
- Ledger.AddBook: the id is a parameter instead of `Date.now().toString()`, so two adds in the same millisecond are not modelled.
- Ledger.BorrowBook: the borrow time is a parameter instead of `new Date().toISOString()`.
- Dashboard.Reduce: the borrow case reads the clock too; its timestamp is the action's parameter `borrowedDate`. The lemmas comparing it with the server pass the same value to both.
- The dashboard component around the reducer is not modelled: its five sample books, the ids it makes for added books with `Date.now()`, and the form data it dispatches.
- Keys outside the seven modelled fields (`id`, `title`, `author`, `ISBN`, `publishedDate`, `genre`, `copiesAvailable`) are not modelled. The server stores every other key of a request body too, through the spreads in `validateBook`, add and update. A borrow's loan record overwrites any stored `borrowedDate` key.
- `toLowerCase` is modelled for ASCII letters only; `trim` strips exactly the ECMAScript white-space and line-terminator characters.
- Dashboard.Reduce: the borrow and return cases read `copiesAvailable` of the book `find` returns and throw when it is not in the list; that crash is the precondition `Dispatchable`.
- BookList.FilteredBooks: the search reads `title`, `author` and `ISBN` and throws on a missing one that the short-circuit reaches; that crash is the precondition `SearchDefined`.
- The rule "Academic needs at least five copies" is checked on add and update only. A borrow can take an Academic book below five, so it is not part of `Ledger.Consistent`. That the stored date is not after today is not part of it either, because "today" moves.
- The server's delete keeps the loans of the deleted book; the client's reducer drops them. Both are modelled as written.
- Timers, system messages, React rendering, styling and tab state are not modelled.
- The form components (`AddBookModal.jsx`, `EditBookForm.jsx`) and their coercions (`parseInt(...) || 0`, `copiesAvailable || 1`) are not modelled.
- Display-only logic in `BookCard.jsx` and `UserManagement.jsx` is not modelled.
- Validator.ContextValidate: its own contract states the verdict and the sanitised title and date only; the rest of the sanitised record and the rendered messages are stated through `Validator.ContextValidateAgreesWithValidateBook`.
- Dashboard.ClientMirrorsServerUpdate: compares the catalogs only, because the client also merges the payload into matching loans while the server leaves its loans alone.
- Concurrency: Node runs each handler to completion on one event loop, so there is no interleaving to model.
