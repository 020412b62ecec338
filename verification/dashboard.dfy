/** The dashboard's client-side store: the reducer, the client's own state
    machine over the lists on screen, compared with the server's handlers. */
module Dashboard {
  import opened Wrappers
  import opened Dates
  import opened Records
  import opened Ledger

  datatype State = State(books: seq<Book>, userBooks: seq<Loan>, isLoading: bool, error: Option<string>)

  /** Empty lists, not loading, no error. */
  const InitialState := State([], [], false, None)

  /** The actions the reducer recognises, plus any other action type. A
      fetch payload without `userBooks` keeps the current loans. */
  datatype Action =
    | FetchStart
    | FetchSuccess(books: seq<Book>, userBooks: Option<seq<Loan>>)
    | FetchError(err: string)
    | AddSuccess(book: Book)
    | UpdateSuccess(book: Book)
    | DeleteSuccess(id: string)
    | BorrowSuccess(id: string, borrowedDate: string)
    | ReturnSuccess(id: string)
    | SetError(err: string)
    | ClearError
    | Unrecognized(name: string)

  /** Every book whose id equals `id` is replaced by `replacement`; the others
      stay. */
  function ReplaceWhere(books: seq<Book>, id: Option<string>, replacement: Book): (r: seq<Book>)
    ensures |r| == |books|
    ensures forall i :: 0 <= i < |books| ==> r[i] == (if books[i].id == id then replacement else books[i])
  {
    seq(|books|, i requires 0 <= i < |books| => if books[i].id == id then replacement else books[i])
  }

  /** The payload's fields are spread over each loan of the payload's id,
      whose borrowing time stays; other loans are untouched. */
  function MergeIntoLoans(loans: seq<Loan>, payload: Book): (r: seq<Loan>)
    ensures |r| == |loans|
    ensures forall i :: 0 <= i < |loans| ==>
              r[i] == (if loans[i].book.id == payload.id
                       then Loan(Overlay(loans[i].book, payload), loans[i].borrowedDate)
                       else loans[i])
  {
    seq(|loans|, i requires 0 <= i < |loans| =>
      if loans[i].book.id == payload.id
      then Loan(Overlay(loans[i].book, payload), loans[i].borrowedDate)
      else loans[i])
  }

  /** Borrow and return look the book up with `find` and read its
      `copiesAvailable`, which throws when the book is not in the list. */
  predicate Dispatchable(s: State, a: Action) {
    (a.BorrowSuccess? || a.ReturnSuccess?) ==> FindBook(s.books, a.id).Some?
  }

  /** `booksReducer(state, action)` */
  function Reduce(s: State, a: Action): (r: State)
    requires Dispatchable(s, a)
    // An unknown action returns the state itself.
    ensures a.Unrecognized? ==> r == s
    // Only the fetch actions touch the loading flag.
    ensures a.FetchStart? ==> r.isLoading
    ensures a.FetchSuccess? || a.FetchError? ==> !r.isLoading
    ensures !(a.FetchStart? || a.FetchSuccess? || a.FetchError?) ==> r.isLoading == s.isLoading
    // The error actions set their message, every other recognised action clears it.
    ensures a.FetchError? || a.SetError? ==> r.error == Some(a.err)
    ensures !(a.FetchError? || a.SetError? || a.Unrecognized?) ==> r.error.None?
    // Only the fetch success and the four mutations touch the lists.
    ensures a.FetchStart? || a.FetchError? || a.SetError? || a.ClearError? ==>
              r.books == s.books && r.userBooks == s.userBooks
    ensures a.FetchSuccess? ==> r.books == a.books && r.userBooks == a.userBooks.GetOr(s.userBooks)
    ensures a.AddSuccess? ==> r.books == s.books + [a.book] && r.userBooks == s.userBooks
    ensures a.UpdateSuccess? ==>
              && r.books == ReplaceWhere(s.books, a.book.id, a.book)
              && r.userBooks == MergeIntoLoans(s.userBooks, a.book)
    ensures a.DeleteSuccess? ==>
              && r.books == BooksWithout(s.books, a.id)
              && r.userBooks == LoansWithout(s.userBooks, a.id)
    ensures a.BorrowSuccess? ==>
              var book := s.books[FindBook(s.books, a.id).value];
              && r.books == ReplaceWhere(s.books, Some(a.id), book.(copiesAvailable := AddCopies(book.copiesAvailable, -1)))
              && r.userBooks == s.userBooks + [Loan(book, a.borrowedDate)]
    ensures a.ReturnSuccess? ==>
              var book := s.books[FindBook(s.books, a.id).value];
              && r.books == ReplaceWhere(s.books, Some(a.id), book.(copiesAvailable := AddCopies(book.copiesAvailable, 1)))
              && r.userBooks == LoansWithout(s.userBooks, a.id)
  {
    match a
    case FetchStart => s.(isLoading := true, error := None)
    case FetchSuccess(books, userBooks) =>
      s.(books := books, userBooks := userBooks.GetOr(s.userBooks), isLoading := false, error := None)
    case FetchError(err) => s.(isLoading := false, error := Some(err))
    case AddSuccess(book) => s.(books := s.books + [book], error := None)
    case UpdateSuccess(book) =>
      s.(books := ReplaceWhere(s.books, book.id, book),
         userBooks := MergeIntoLoans(s.userBooks, book),
         error := None)
    case DeleteSuccess(id) =>
      s.(books := BooksWithout(s.books, id), userBooks := LoansWithout(s.userBooks, id), error := None)
    case BorrowSuccess(id, borrowedDate) =>
      var book := s.books[FindBook(s.books, id).value];
      s.(books := ReplaceWhere(s.books, Some(id), book.(copiesAvailable := AddCopies(book.copiesAvailable, -1))),
         userBooks := s.userBooks + [Loan(book, borrowedDate)],
         error := None)
    case ReturnSuccess(id) =>
      var book := s.books[FindBook(s.books, id).value];
      s.(books := ReplaceWhere(s.books, Some(id), book.(copiesAvailable := AddCopies(book.copiesAvailable, 1))),
         userBooks := LoansWithout(s.userBooks, id),
         error := None)
    case SetError(err) => s.(error := Some(err))
    case ClearError => s.(error := None)
    case Unrecognized(_) => s
  }

  /** In a catalog without duplicate ids, replacing every book with an id is
      replacing the one `findIndex` finds. */
  lemma ReplaceWhereUnique(books: seq<Book>, id: string, replacement: Book)
    requires UniqueIds(books) && FindBook(books, id).Some?
    ensures ReplaceWhere(books, Some(id), replacement) == books[FindBook(books, id).value := replacement]
  {
    var i := FindBook(books, id).value;
    var r := ReplaceWhere(books, Some(id), replacement);
    forall j | 0 <= j < |books| && j != i
      ensures books[j].id != Some(id)
    {
      if j < i {
        assert !IsBook(id)(books[j]);
      }
    }
  }

  /** The lists a state shows, as a server ledger. */
  function Shown(s: State): Ledger {
    Ledger(s.books, s.userBooks)
  }

  /** Given the record the server stored, an add leaves the client's lists
      equal to the server's. */
  lemma ClientMirrorsServerAdd(s: State, body: Book, freshId: string, cal: Calendar, today: Date)
    requires AddBook(Shown(s), body, freshId, cal, today).outcome == Ok
    ensures var server := AddBook(Shown(s), body, freshId, cal, today).ledger;
            Shown(Reduce(s, AddSuccess(server.books[|s.books|]))) == server
  {
    var server := AddBook(Shown(s), body, freshId, cal, today).ledger;
    assert server.books == s.books + [server.books[|s.books|]];
  }

  /** Given the record the server's update stores, the reducer's update
      makes the same catalog as the server's when ids are unique. */
  lemma ClientMirrorsServerUpdate(s: State, id: string, body: Book, cal: Calendar, today: Date)
    requires UniqueIds(s.books)
    requires UpdateBook(Shown(s), id, body, cal, today).outcome == Ok
    ensures var server := UpdateBook(Shown(s), id, body, cal, today).ledger;
            var i := FindBook(s.books, id).value;
            Reduce(s, UpdateSuccess(server.books[i])).books == server.books
  {
    var server := UpdateBook(Shown(s), id, body, cal, today).ledger;
    var i := FindBook(s.books, id).value;
    ReplaceWhereUnique(s.books, id, server.books[i]);
    assert server.books == s.books[i := server.books[i]];
  }

  /** A delete leaves the client's catalog equal to the server's, but the
      client also drops the loans of the book while the server keeps them. */
  lemma ClientMirrorsServerDelete(s: State, id: string)
    requires DeleteBook(Shown(s), id).outcome == Ok
    ensures var server := DeleteBook(Shown(s), id).ledger;
            var client := Reduce(s, DeleteSuccess(id));
            && client.books == server.books
            && server.userBooks == s.userBooks
            && client.userBooks == LoansWithout(s.userBooks, id)
  {
  }

  /** A borrow leaves the client's lists equal to the server's when ids are
      unique. */
  lemma ClientMirrorsServerBorrow(s: State, id: string, borrowedDate: string)
    requires UniqueIds(s.books)
    requires BorrowBook(Shown(s), id, borrowedDate).outcome == Ok
    ensures Shown(Reduce(s, BorrowSuccess(id, borrowedDate))) == BorrowBook(Shown(s), id, borrowedDate).ledger
  {
    var i := FindBook(s.books, id).value;
    var book := s.books[i];
    var updated := book.(copiesAvailable := AddCopies(book.copiesAvailable, -1));
    ReplaceWhereUnique(s.books, id, updated);
    var server := BorrowBook(Shown(s), id, borrowedDate).ledger;
    assert server.books == s.books[i := updated];
  }

  /** A return of a book still in the catalog leaves the client's lists
      equal to the server's when ids are unique. */
  lemma ClientMirrorsServerReturn(s: State, id: string)
    requires UniqueIds(s.books)
    requires ReturnBook(Shown(s), id).outcome == Ok
    requires FindBook(s.books, id).Some?
    ensures Shown(Reduce(s, ReturnSuccess(id))) == ReturnBook(Shown(s), id).ledger
  {
    var i := FindBook(s.books, id).value;
    var book := s.books[i];
    var updated := book.(copiesAvailable := AddCopies(book.copiesAvailable, 1));
    ReplaceWhereUnique(s.books, id, updated);
    var server := ReturnBook(Shown(s), id).ledger;
    assert server.books == s.books[i := updated];
  }

  /** A client borrow of a catalog book with a unique id changes only that
      book, by one copy, and keeps every id in place. */
  lemma ClientBorrowTakesOneCopy(s: State, id: string, borrowedDate: string)
    requires UniqueIds(s.books) && FindBook(s.books, id).Some?
    ensures var i := FindBook(s.books, id).value;
            var book := s.books[i];
            var mid := Reduce(s, BorrowSuccess(id, borrowedDate));
            && mid.books == s.books[i := book.(copiesAvailable := AddCopies(book.copiesAvailable, -1))]
            && UniqueIds(mid.books)
            && FindBook(mid.books, id) == Some(i)
  {
    var i := FindBook(s.books, id).value;
    var book := s.books[i];
    var mid := Reduce(s, BorrowSuccess(id, borrowedDate));
    ReplaceWhereUnique(s.books, id, book.(copiesAvailable := AddCopies(book.copiesAvailable, -1)));
    assert SameIds(s.books, mid.books);
    FindBookSameIds(s.books, mid.books, id);
  }

  /** On the client, borrowing a book the user holds no loan of and then
      returning it restores the lists and clears the error; unlike the
      server, the client does not check the stock. */
  lemma ClientBorrowThenReturnRestores(s: State, id: string, borrowedDate: string)
    requires UniqueIds(s.books) && FindBook(s.books, id).Some?
    requires FindLoan(s.userBooks, id).None?
    ensures var mid := Reduce(s, BorrowSuccess(id, borrowedDate));
            Dispatchable(mid, ReturnSuccess(id)) && Reduce(mid, ReturnSuccess(id)) == s.(error := None)
  {
    var i := FindBook(s.books, id).value;
    var book := s.books[i];
    var mid := Reduce(s, BorrowSuccess(id, borrowedDate));
    ClientBorrowTakesOneCopy(s, id, borrowedDate);
    var back := Reduce(mid, ReturnSuccess(id));
    assert back.books == s.books by {
      ReplaceWhereUnique(mid.books, id, book);
      assert mid.books[i := book] == s.books;
    }
    RemoveAppendedLoan(s.userBooks, Loan(book, borrowedDate), id);
  }
}
