/** The server's catalog and loan list (`books` and `userBooks`) and the
    add, update, delete, borrow and return handlers over them. Each handler
    is a function from the two arrays to the new arrays and an outcome;
    HTTP status codes and response bodies are not part of the model. */
module Ledger {
  import opened Wrappers
  import opened Seqs
  import opened Strings
  import opened Isbn
  import opened Dates
  import opened Records
  import opened Validator
  import opened ServerValidator

  datatype Ledger = Ledger(books: seq<Book>, userBooks: seq<Loan>)

  /** How a handler ends: success, or one of the error responses. */
  datatype Outcome = Ok | NotFound | OutOfStock | NotBorrowed | Invalid(messages: seq<string>)

  datatype Step = Step(ledger: Ledger, outcome: Outcome)

  /** The guard `book.copiesAvailable <= 0`; a missing or `NaN` count does
      not trip it. */
  predicate NoCopiesLeft(copies: Option<int>) {
    copies.Some? && copies.value <= 0
  }

  /** The catalog at start-up. */
  function InitialLedger(): Ledger {
    Ledger(
      [ Book(Some("1"), Some("To Kill a Mockingbird"), Some("Harper Lee"), Some("9780061120084"),
             Some("1960-07-11"), Some("Fiction"), Some(3)),
        Book(Some("2"), Some("Principles of Physics"), Some("David Halliday"), Some("9780470524633"),
             Some("2010-06-14"), Some("Academic"), Some(5)),
        Book(Some("3"), Some("1984"), Some("George Orwell"), Some("9780451524935"),
             Some("1949-06-08"), Some("Fiction"), Some(2)) ],
      [])
  }

  /** `POST /api/books`: an invalid body changes nothing and reports the
      messages; a valid one is appended with the fresh id. */
  function AddBook(l: Ledger, body: Book, freshId: string, cal: Calendar, today: Date): (r: Step)
    ensures var v := ServerValidateBook(cal, today, body);
            && (!v.isValid ==> r == Step(l, Invalid(Texts(v.errors))))
            && (v.isValid ==>
                  && r.outcome == Ok
                  && r.ledger.userBooks == l.userBooks
                  && |r.ledger.books| == |l.books| + 1
                  && r.ledger.books[..|l.books|] == l.books
                  && r.ledger.books[|l.books|] == v.validated.(id := Some(freshId)))
  {
    var v := ServerValidateBook(cal, today, body);
    if !v.isValid then Step(l, Invalid(Texts(v.errors)))
    else Step(l.(books := l.books + [v.validated.(id := Some(freshId))]), Ok)
  }

  /** `PUT /api/books/:id`: the lookup comes first, so an unknown id is
      `NotFound` whatever the body; a valid body overlays the first book
      with that id, keeping the id; nothing else moves. */
  function UpdateBook(l: Ledger, id: string, body: Book, cal: Calendar, today: Date): (r: Step)
    ensures FindBook(l.books, id).None? ==> r == Step(l, NotFound)
    ensures var v := ServerValidateBook(cal, today, body);
            FindBook(l.books, id).Some? && !v.isValid ==> r == Step(l, Invalid(Texts(v.errors)))
    ensures var v := ServerValidateBook(cal, today, body);
            FindBook(l.books, id).Some? && v.isValid ==>
              var i := FindBook(l.books, id).value;
              && r.outcome == Ok
              && r.ledger.userBooks == l.userBooks
              && |r.ledger.books| == |l.books|
              && (forall j :: 0 <= j < |l.books| && j != i ==> r.ledger.books[j] == l.books[j])
              && r.ledger.books[i] == Overlay(l.books[i], v.validated).(id := Some(id))
  {
    match FindBook(l.books, id)
    case None => Step(l, NotFound)
    case Some(i) =>
      var v := ServerValidateBook(cal, today, body);
      if !v.isValid then Step(l, Invalid(Texts(v.errors)))
      else Step(l.(books := l.books[i := Overlay(l.books[i], v.validated).(id := Some(id))]), Ok)
  }

  /** A successful update stores the sanitised title, author and ISBN and the
      date as sent, and keeps every field the body leaves out. */
  lemma UpdateKeepsFieldsNotSent(l: Ledger, id: string, body: Book, cal: Calendar, today: Date)
    requires UpdateBook(l, id, body, cal, today).outcome == Ok
    ensures var i := FindBook(l.books, id).value;
            var after := UpdateBook(l, id, body, cal, today).ledger.books[i];
            && after.id == Some(id)
            && after.title == Some(SanitizeString(body.title))
            && after.author == Some(SanitizeString(body.author))
            && after.isbn == Some(SanitizeString(body.isbn))
            && after.publishedDate == body.publishedDate
            && after.genre == (if body.genre.Some? then body.genre else l.books[i].genre)
            && after.copiesAvailable ==
                 (if body.copiesAvailable.Some? then body.copiesAvailable else l.books[i].copiesAvailable)
  {
    var v := ServerValidateBook(cal, today, body);
    assert v.isValid;
    assert v.validated.publishedDate.GetOr("") != "";
  }

  /** `DELETE /api/books/:id`: removes every book with the id, keeping the
      order of the others; `NotFound`, with nothing changed, when none had
      it. Loans of the book are left in place. */
  function DeleteBook(l: Ledger, id: string): (r: Step)
    ensures r.outcome == NotFound <==> forall i :: 0 <= i < |l.books| ==> l.books[i].id != Some(id)
    ensures r.outcome == NotFound || r.outcome == Ok
    ensures r.outcome == NotFound ==> r.ledger == l
    ensures r.ledger.userBooks == l.userBooks
    ensures forall b :: b in r.ledger.books <==> b in l.books && b.id != Some(id)
    ensures IsSubsequence(r.ledger.books, l.books)
    ensures |r.ledger.books| == Count(l.books, IsNotBook(id))
    ensures r.outcome == Ok ==> |r.ledger.books| < |l.books|
  {
    var remaining := BooksWithout(l.books, id);
    FilterLengthUnchanged(l.books, IsNotBook(id));
    FilterIsSubsequence(l.books, IsNotBook(id));
    if |remaining| == |l.books| then
      FilterKeepsAll(l.books, IsNotBook(id));
      Step(l, NotFound)
    else
      Step(l.(books := remaining), Ok)
  }

  /** `POST /api/books/:id/borrow`: `NotFound` for an unknown id,
      `OutOfStock` when no copies are left, both changing nothing;
      otherwise one copy fewer on the shelf and one loan more, holding the
      book as it was before the borrow. */
  function BorrowBook(l: Ledger, id: string, borrowedDate: string): (r: Step)
    ensures FindBook(l.books, id).None? ==> r == Step(l, NotFound)
    ensures FindBook(l.books, id).Some? && NoCopiesLeft(l.books[FindBook(l.books, id).value].copiesAvailable) ==>
              r == Step(l, OutOfStock)
    ensures r.outcome == Ok <==>
              FindBook(l.books, id).Some? && !NoCopiesLeft(l.books[FindBook(l.books, id).value].copiesAvailable)
    ensures r.outcome == Ok ==>
              var i := FindBook(l.books, id).value;
              var book := l.books[i];
              && |r.ledger.books| == |l.books|
              && r.ledger.books[i] == book.(copiesAvailable := AddCopies(book.copiesAvailable, -1))
              && (forall j :: 0 <= j < |l.books| && j != i ==> r.ledger.books[j] == l.books[j])
              && r.ledger.userBooks == l.userBooks + [Loan(book, borrowedDate)]
              && (book.copiesAvailable.Some? ==> r.ledger.books[i].copiesAvailable.value >= 0)
  {
    match FindBook(l.books, id)
    case None => Step(l, NotFound)
    case Some(i) =>
      var book := l.books[i];
      if NoCopiesLeft(book.copiesAvailable) then Step(l, OutOfStock)
      else
        Step(Ledger(
               l.books[i := book.(copiesAvailable := AddCopies(book.copiesAvailable, -1))],
               l.userBooks + [Loan(book, borrowedDate)]),
             Ok)
  }

  /** `POST /api/books/:id/return`: `NotBorrowed`, changing nothing, when no
      loan has the id; otherwise every loan with the id goes, and the
      catalog gains one copy if the book is still there. */
  function ReturnBook(l: Ledger, id: string): (r: Step)
    ensures FindLoan(l.userBooks, id).None? ==> r == Step(l, NotBorrowed)
    ensures FindLoan(l.userBooks, id).Some? ==> r.outcome == Ok
    ensures r.outcome == Ok ==>
              && LoansOf(r.ledger.userBooks, id) == 0
              && (forall loan :: loan in r.ledger.userBooks <==> loan in l.userBooks && loan.book.id != Some(id))
              && IsSubsequence(r.ledger.userBooks, l.userBooks)
              && |r.ledger.userBooks| == Count(l.userBooks, IsNotLoanOf(id))
              && |r.ledger.books| == |l.books|
    ensures r.outcome == Ok && FindBook(l.books, id).None? ==> r.ledger.books == l.books
    ensures r.outcome == Ok && FindBook(l.books, id).Some? ==>
              var i := FindBook(l.books, id).value;
              && r.ledger.books[i] == l.books[i].(copiesAvailable := AddCopies(l.books[i].copiesAvailable, 1))
              && (forall j :: 0 <= j < |l.books| && j != i ==> r.ledger.books[j] == l.books[j])
  {
    if FindLoan(l.userBooks, id).None? then Step(l, NotBorrowed)
    else
      var books :=
        match FindBook(l.books, id)
        case None => l.books
        case Some(i) => l.books[i := l.books[i].(copiesAvailable := AddCopies(l.books[i].copiesAvailable, 1))];
      NoLoansAfterRemoval(l.userBooks, id);
      FilterIsSubsequence(l.userBooks, IsNotLoanOf(id));
      Step(Ledger(books, LoansWithout(l.userBooks, id)), Ok)
  }

  /** A successful borrow keeps every id in place, takes one copy off the
      shelf and adds one loan of the book. */
  lemma BorrowTakesOneCopy(l: Ledger, id: string, borrowedDate: string)
    requires BorrowBook(l, id, borrowedDate).outcome == Ok
    ensures var after := BorrowBook(l, id, borrowedDate).ledger;
            var i := FindBook(l.books, id).value;
            && SameIds(l.books, after.books)
            && FindBook(after.books, id) == Some(i)
            && after.books[i].copiesAvailable == AddCopies(l.books[i].copiesAvailable, -1)
            && FindLoan(after.userBooks, id).Some?
            && LoansOf(after.userBooks, id) == LoansOf(l.userBooks, id) + 1
  {
    var after := BorrowBook(l, id, borrowedDate).ledger;
    FindBookSameIds(l.books, after.books, id);
    var loan := Loan(l.books[FindBook(l.books, id).value], borrowedDate);
    assert after.userBooks == l.userBooks + [loan];
    assert IsLoanOf(id)(after.userBooks[|l.userBooks|]);
    CountSnoc(l.userBooks, loan, IsLoanOf(id));
  }

  /** A successful return keeps every id in place and puts one copy back
      on the shelf, if the book is still in the catalog. */
  lemma ReturnPutsOneCopyBack(l: Ledger, id: string)
    requires ReturnBook(l, id).outcome == Ok
    ensures var after := ReturnBook(l, id).ledger;
            && SameIds(l.books, after.books)
            && FindBook(after.books, id) == FindBook(l.books, id)
            && (FindBook(l.books, id).Some? ==>
                  var i := FindBook(l.books, id).value;
                  after.books[i].copiesAvailable == AddCopies(l.books[i].copiesAvailable, 1))
  {
    var after := ReturnBook(l, id).ledger;
    FindBookSameIds(l.books, after.books, id);
  }

  /** After a successful borrow, returning the book succeeds and puts the
      catalog back as it was. */
  lemma ReturnUndoesBorrowOnCatalog(l: Ledger, id: string, borrowedDate: string)
    requires BorrowBook(l, id, borrowedDate).outcome == Ok
    ensures var back := ReturnBook(BorrowBook(l, id, borrowedDate).ledger, id);
            back.outcome == Ok && back.ledger.books == l.books
  {
    var i := FindBook(l.books, id).value;
    var book := l.books[i];
    var mid := BorrowBook(l, id, borrowedDate).ledger;
    assert mid.books == l.books[i := book.(copiesAvailable := AddCopies(book.copiesAvailable, -1))];
    assert FindLoan(mid.userBooks, id).Some? && FindBook(mid.books, id) == Some(i) by {
      BorrowTakesOneCopy(l, id, borrowedDate);
    }
    assert AddCopies(AddCopies(book.copiesAvailable, -1), 1) == book.copiesAvailable;
    ReturnRaisesFoundBook(mid, id, i);
    assert ReturnBook(mid, id).ledger.books == l.books[i := book];
  }

  /** A return with a loan outstanding raises the found book's count by one,
      as a single update of the catalog. */
  lemma ReturnRaisesFoundBook(l: Ledger, id: string, i: nat)
    requires FindLoan(l.userBooks, id).Some? && FindBook(l.books, id) == Some(i)
    ensures var r := ReturnBook(l, id);
            && r.outcome == Ok
            && r.ledger.books == l.books[i := l.books[i].(copiesAvailable := AddCopies(l.books[i].copiesAvailable, 1))]
  {
    var r := ReturnBook(l, id);
    assert |r.ledger.books| == |l.books|;
  }

  /** Borrowing a book of which the caller holds no loan and returning it
      restores both arrays exactly. */
  lemma BorrowThenReturnRestores(l: Ledger, id: string, borrowedDate: string)
    requires BorrowBook(l, id, borrowedDate).outcome == Ok
    requires FindLoan(l.userBooks, id).None?
    ensures ReturnBook(BorrowBook(l, id, borrowedDate).ledger, id) == Step(l, Ok)
  {
    var book := l.books[FindBook(l.books, id).value];
    var loan := Loan(book, borrowedDate);
    var mid := BorrowBook(l, id, borrowedDate).ledger;
    assert mid.userBooks == l.userBooks + [loan];
    var back := ReturnBook(mid, id);
    ReturnUndoesBorrowOnCatalog(l, id, borrowedDate);
    RemoveAppendedLoan(l.userBooks, loan, id);
  }

  /** A loan list in which the book has a loan counts at least one. */
  lemma FoundLoanIsCounted(loans: seq<Loan>, id: string)
    requires FindLoan(loans, id).Some?
    ensures LoansOf(loans, id) >= 1
  {
    var k := FindLoan(loans, id).value;
    assert loans[k] in Filter(loans, IsLoanOf(id));
  }

  /** The round trip fails once the caller already holds a loan of the book:
      the catalog is restored but the return removes the earlier loans
      too. */
  lemma RepeatBorrowThenReturnDropsEarlierLoans(l: Ledger, id: string, borrowedDate: string)
    requires BorrowBook(l, id, borrowedDate).outcome == Ok
    requires FindLoan(l.userBooks, id).Some?
    ensures var after := ReturnBook(BorrowBook(l, id, borrowedDate).ledger, id).ledger;
            && after.books == l.books
            && LoansOf(after.userBooks, id) == 0 < LoansOf(l.userBooks, id)
            && after.userBooks != l.userBooks
  {
    ReturnUndoesBorrowOnCatalog(l, id, borrowedDate);
    FoundLoanIsCounted(l.userBooks, id);
  }

  /** Copies on the shelf plus copies on loan, for a catalog book whose count
      is a number. */
  function Stock(l: Ledger, id: string): Option<int> {
    match FindBook(l.books, id)
    case None => None
    case Some(i) =>
      match l.books[i].copiesAvailable
      case None => None
      case Some(c) => Some(c + LoansOf(l.userBooks, id))
  }

  /** A successful borrow moves one copy from the shelf to the loan list. */
  lemma BorrowConservesStock(l: Ledger, id: string, borrowedDate: string)
    requires BorrowBook(l, id, borrowedDate).outcome == Ok
    ensures Stock(BorrowBook(l, id, borrowedDate).ledger, id) == Stock(l, id)
  {
    BorrowTakesOneCopy(l, id, borrowedDate);
  }

  /** A return puts one copy back but removes all `k` loans of the book, so
      the stock shrinks by `k - 1`: it is conserved only when the caller
      held exactly one loan. */
  lemma ReturnLosesExtraLoans(l: Ledger, id: string)
    requires FindLoan(l.userBooks, id).Some?
    requires Stock(l, id).Some?
    ensures LoansOf(l.userBooks, id) >= 1
    ensures Stock(ReturnBook(l, id).ledger, id) == Some(Stock(l, id).value - (LoansOf(l.userBooks, id) - 1))
  {
    FoundLoanIsCounted(l.userBooks, id);
    ReturnPutsOneCopyBack(l, id);
    assert LoansOf(ReturnBook(l, id).ledger.userBooks, id) == 0;
  }

  /** What every record in the catalog satisfies: an id, a trimmed non-empty
      title and author, an ISBN of one of the two accepted shapes and a
      non-empty date that parses. */
  predicate Stored(cal: Calendar, b: Book) {
    && b.id.Some?
    && b.title.Some? && b.title.value != "" && IsTrimmed(b.title.value)
    && b.author.Some? && b.author.value != "" && IsTrimmed(b.author.value)
    && b.isbn.Some? && IsbnShape(b.isbn.value)
    && b.publishedDate.Some? && b.publishedDate.value != "" && cal.parse(b.publishedDate.value).Some?
  }

  /** Every record is stored in validated form and no two share an id. */
  predicate Consistent(cal: Calendar, l: Ledger) {
    && (forall i :: 0 <= i < |l.books| ==> Stored(cal, l.books[i]))
    && UniqueIds(l.books)
  }

  /** The seed catalog is consistent under any calendar that reads its three
      publication dates. */
  lemma InitialLedgerIsConsistent(cal: Calendar)
    requires cal.parse("1960-07-11").Some? && cal.parse("2010-06-14").Some? && cal.parse("1949-06-08").Some?
    ensures Consistent(cal, InitialLedger())
  {
    var books := InitialLedger().books;
    assert Stored(cal, books[0]);
    assert Stored(cal, books[1]);
    assert Stored(cal, books[2]);
  }

  /** The fields validation checks, each in stored form; the id is set
      separately. */
  predicate Storable(cal: Calendar, b: Book) {
    && b.title.Some? && b.title.value != "" && IsTrimmed(b.title.value)
    && b.author.Some? && b.author.value != "" && IsTrimmed(b.author.value)
    && b.isbn.Some? && IsbnShape(b.isbn.value)
    && b.publishedDate.Some? && b.publishedDate.value != "" && cal.parse(b.publishedDate.value).Some?
  }

  /** A body that passes the server's validation is storable. */
  lemma ValidatedIsStorable(cal: Calendar, today: Date, body: Book)
    requires ServerValidateBook(cal, today, body).isValid
    ensures Storable(cal, ServerValidateBook(cal, today, body).validated)
  {
    var v := ServerValidateBook(cal, today, body).validated;
    assert v.isbn.GetOr("") != "" && ValidateIsbn(v.isbn.GetOr(""));
    assert v.publishedDate.GetOr("") != "";
    assert ValidatePublishedDate(cal, today, v.publishedDate.GetOr(""));
  }

  /** Spreading a storable record over any other and setting the id gives a
      stored record. */
  lemma OverlayStorableIsStored(cal: Calendar, base: Book, top: Book, id: string)
    requires Storable(cal, top)
    ensures Stored(cal, Overlay(base, top).(id := Some(id)))
  {
  }

  /** Replacing records by stored ones under the same ids keeps the catalog
      consistent. */
  lemma SameIdsKeepConsistency(cal: Calendar, l: Ledger, books: seq<Book>)
    requires Consistent(cal, l) && SameIds(l.books, books)
    requires forall j :: 0 <= j < |books| ==> Stored(cal, books[j]) || books[j] == l.books[j]
    ensures Consistent(cal, l.(books := books))
  {
  }

  /** Appending a stored record under an unused id keeps the catalog
      consistent. */
  lemma AppendFreshKeepsConsistency(cal: Calendar, l: Ledger, b: Book)
    requires Consistent(cal, l) && Stored(cal, b)
    requires forall i :: 0 <= i < |l.books| ==> l.books[i].id != b.id
    ensures Consistent(cal, l.(books := l.books + [b]))
  {
  }

  lemma AddPreservesConsistency(l: Ledger, body: Book, freshId: string, cal: Calendar, today: Date)
    requires Consistent(cal, l)
    requires forall i :: 0 <= i < |l.books| ==> l.books[i].id != Some(freshId)
    ensures Consistent(cal, AddBook(l, body, freshId, cal, today).ledger)
  {
    var v := ServerValidateBook(cal, today, body);
    if v.isValid {
      ValidatedIsStorable(cal, today, body);
      OverlayStorableIsStored(cal, v.validated, v.validated, freshId);
      assert Overlay(v.validated, v.validated) == v.validated;
      AppendFreshKeepsConsistency(cal, l, v.validated.(id := Some(freshId)));
    }
  }

  lemma UpdatePreservesConsistency(l: Ledger, id: string, body: Book, cal: Calendar, today: Date)
    requires Consistent(cal, l)
    ensures Consistent(cal, UpdateBook(l, id, body, cal, today).ledger)
  {
    var after := UpdateBook(l, id, body, cal, today).ledger;
    if UpdateBook(l, id, body, cal, today).outcome == Ok {
      var i := FindBook(l.books, id).value;
      ValidatedIsStorable(cal, today, body);
      OverlayStorableIsStored(cal, l.books[i], ServerValidateBook(cal, today, body).validated, id);
      SameIdsKeepConsistency(cal, l, after.books);
    }
  }

  lemma DeletePreservesConsistency(cal: Calendar, l: Ledger, id: string)
    requires Consistent(cal, l)
    ensures Consistent(cal, DeleteBook(l, id).ledger)
  {
    var after := DeleteBook(l, id).ledger;
    FilterKeepsIdsUnique(l.books, IsNotBook(id));
    forall j | 0 <= j < |after.books|
      ensures Stored(cal, after.books[j])
    {
      assert after.books[j] in after.books;
    }
  }

  lemma BorrowPreservesConsistency(cal: Calendar, l: Ledger, id: string, borrowedDate: string)
    requires Consistent(cal, l)
    ensures Consistent(cal, BorrowBook(l, id, borrowedDate).ledger)
  {
    if BorrowBook(l, id, borrowedDate).outcome == Ok {
      BorrowTakesOneCopy(l, id, borrowedDate);
      SameIdsKeepConsistency(cal, l, BorrowBook(l, id, borrowedDate).ledger.books);
    }
  }

  lemma ReturnPreservesConsistency(cal: Calendar, l: Ledger, id: string)
    requires Consistent(cal, l)
    ensures Consistent(cal, ReturnBook(l, id).ledger)
  {
    if ReturnBook(l, id).outcome == Ok {
      ReturnPutsOneCopyBack(l, id);
      SameIdsKeepConsistency(cal, l, ReturnBook(l, id).ledger.books);
    }
  }

  /** The requests the server handles. */
  datatype Request =
    | Add(body: Book, freshId: string)
    | Update(id: string, body: Book)
    | Delete(id: string)
    | Borrow(id: string, borrowedDate: string)
    | Return(id: string)

  function Handle(l: Ledger, req: Request, cal: Calendar, today: Date): Step {
    match req
    case Add(body, freshId) => AddBook(l, body, freshId, cal, today)
    case Update(id, body) => UpdateBook(l, id, body, cal, today)
    case Delete(id) => DeleteBook(l, id)
    case Borrow(id, borrowedDate) => BorrowBook(l, id, borrowedDate)
    case Return(id) => ReturnBook(l, id)
  }

  /** The id an add would use is not in the catalog yet. */
  predicate FreshFor(req: Request, l: Ledger) {
    req.Add? ==> forall i :: 0 <= i < |l.books| ==> l.books[i].id != Some(req.freshId)
  }

  /** Every handler keeps the catalog consistent, provided an added record
      gets an id not already in use. */
  lemma HandlePreservesConsistency(l: Ledger, req: Request, cal: Calendar, today: Date)
    requires Consistent(cal, l) && FreshFor(req, l)
    ensures Consistent(cal, Handle(l, req, cal, today).ledger)
  {
    match req
    case Add(body, freshId) => AddPreservesConsistency(l, body, freshId, cal, today);
    case Update(id, body) => UpdatePreservesConsistency(l, id, body, cal, today);
    case Delete(id) => DeletePreservesConsistency(cal, l, id);
    case Borrow(id, borrowedDate) => BorrowPreservesConsistency(cal, l, id, borrowedDate);
    case Return(id) => ReturnPreservesConsistency(cal, l, id);
  }
}
