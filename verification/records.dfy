/** Book and loan records as the server and client hold them. Every field of
    a JavaScript book object may be missing, so each is optional; for
    `copiesAvailable`, `None` stands for a missing value or `NaN`, which
    behave alike under every comparison and arithmetic step used here. */
module Records {
  import opened Wrappers
  import opened Seqs

  datatype Book = Book(
    id: Option<string>,
    title: Option<string>,
    author: Option<string>,
    isbn: Option<string>,
    publishedDate: Option<string>,
    genre: Option<string>,
    copiesAvailable: Option<int>)

  /** A borrowed copy: the book as it was when borrowed plus the time of
      borrowing. Its `id` is the book's. */
  datatype Loan = Loan(book: Book, borrowedDate: string)

  /** Object spread of `top` over `base`: each field `top` carries wins, and
      each field it lacks is taken from `base`. */
  function Overlay(base: Book, top: Book): (r: Book)
    ensures top.id.Some? ==> r.id == top.id
    ensures top.title.Some? ==> r.title == top.title
    ensures top.author.Some? ==> r.author == top.author
    ensures top.isbn.Some? ==> r.isbn == top.isbn
    ensures top.publishedDate.Some? ==> r.publishedDate == top.publishedDate
    ensures top.genre.Some? ==> r.genre == top.genre
    ensures top.copiesAvailable.Some? ==> r.copiesAvailable == top.copiesAvailable
    ensures top.id.None? ==> r.id == base.id
    ensures top.title.None? ==> r.title == base.title
    ensures top.author.None? ==> r.author == base.author
    ensures top.isbn.None? ==> r.isbn == base.isbn
    ensures top.publishedDate.None? ==> r.publishedDate == base.publishedDate
    ensures top.genre.None? ==> r.genre == base.genre
    ensures top.copiesAvailable.None? ==> r.copiesAvailable == base.copiesAvailable
  {
    Book(
      if top.id.Some? then top.id else base.id,
      if top.title.Some? then top.title else base.title,
      if top.author.Some? then top.author else base.author,
      if top.isbn.Some? then top.isbn else base.isbn,
      if top.publishedDate.Some? then top.publishedDate else base.publishedDate,
      if top.genre.Some? then top.genre else base.genre,
      if top.copiesAvailable.Some? then top.copiesAvailable else base.copiesAvailable)
  }

  /** Spreading the same record twice is spreading it once, a record spread
      over itself is itself, and a record carrying every field replaces
      whatever it is spread over. */
  lemma OverlayAbsorbs(base: Book, top: Book)
    ensures Overlay(Overlay(base, top), top) == Overlay(base, top)
    ensures Overlay(top, top) == top
    ensures && top.id.Some? && top.title.Some? && top.author.Some? && top.isbn.Some?
            && top.publishedDate.Some? && top.genre.Some? && top.copiesAvailable.Some?
            ==> Overlay(base, top) == top
  {
  }

  /** Adds `delta` to a count; a missing or `NaN` count stays `NaN`. */
  function AddCopies(copies: Option<int>, delta: int): Option<int> {
    match copies
    case Some(n) => Some(n + delta)
    case None => None
  }

  /** The test "this book has id `id`". */
  function IsBook(id: string): Book -> bool {
    (b: Book) => b.id == Some(id)
  }

  /** The test "this book does not have id `id`". */
  function IsNotBook(id: string): Book -> bool {
    (b: Book) => b.id != Some(id)
  }

  /** A loan of the book `id`. */
  function IsLoanOf(id: string): Loan -> bool {
    (l: Loan) => l.book.id == Some(id)
  }

  function IsNotLoanOf(id: string): Loan -> bool {
    (l: Loan) => l.book.id != Some(id)
  }

  /** Index of the first book with id `id`, as `findIndex` finds it. */
  function FindBook(books: seq<Book>, id: string): Option<nat> {
    FindIndex(books, IsBook(id))
  }

  /** Index of the first loan of the book `id`, as `findIndex` finds it. */
  function FindLoan(loans: seq<Loan>, id: string): Option<nat> {
    FindIndex(loans, IsLoanOf(id))
  }

  /** The books whose id is not `id`, in their order. */
  function BooksWithout(books: seq<Book>, id: string): seq<Book> {
    Filter(books, IsNotBook(id))
  }

  /** The loans of other books than `id`, in their order. */
  function LoansWithout(loans: seq<Loan>, id: string): seq<Loan> {
    Filter(loans, IsNotLoanOf(id))
  }

  /** Number of loans of the book `id`. */
  function LoansOf(loans: seq<Loan>, id: string): nat {
    Count(loans, IsLoanOf(id))
  }

  /** After removing the loans of `id`, none is left. */
  lemma NoLoansAfterRemoval(loans: seq<Loan>, id: string)
    ensures LoansOf(LoansWithout(loans, id), id) == 0
  {
    var kept := LoansWithout(loans, id);
    forall i | 0 <= i < |kept|
      ensures !IsLoanOf(id)(kept[i])
    {
      assert kept[i] in kept;
    }
    FilterKeepsNone(kept, IsLoanOf(id));
  }

  /** Removing the loans of a book the list held none of, after appending
      one, gives the list back. */
  lemma RemoveAppendedLoan(loans: seq<Loan>, loan: Loan, id: string)
    requires FindLoan(loans, id).None? && loan.book.id == Some(id)
    ensures LoansWithout(loans + [loan], id) == loans
  {
    FilterAppend(loans, [loan], IsNotLoanOf(id));
    FilterKeepsAll(loans, IsNotLoanOf(id));
    assert Filter([loan], IsNotLoanOf(id)) == [];
  }

  /** Two catalogs holding the same ids at the same positions. */
  predicate SameIds(a: seq<Book>, b: seq<Book>) {
    |a| == |b| && forall j :: 0 <= j < |a| ==> a[j].id == b[j].id
  }

  /** Two catalogs with the same ids at the same positions find the same
      index. */
  lemma FindBookSameIds(a: seq<Book>, b: seq<Book>, id: string)
    requires SameIds(a, b)
    ensures FindBook(a, id) == FindBook(b, id)
  {
    match FindBook(a, id)
    case None =>
      assert forall j :: 0 <= j < |b| ==> !IsBook(id)(b[j]) by {
        forall j | 0 <= j < |b| ensures !IsBook(id)(b[j]) {
          assert !IsBook(id)(a[j]);
        }
      }
    case Some(i) =>
      assert IsBook(id)(b[i]);
      match FindBook(b, id)
      case None =>
        assert false;
      case Some(k) =>
        if k != i {
          assert false;
        }
  }

  /** No two books share an id. */
  predicate UniqueIds(books: seq<Book>) {
    forall i, j :: 0 <= i < j < |books| ==> books[i].id != books[j].id
  }

  /** Removing books keeps the remaining ids distinct. */
  lemma {:induction false} FilterKeepsIdsUnique(books: seq<Book>, p: Book -> bool)
    requires UniqueIds(books)
    ensures UniqueIds(Filter(books, p))
  {
    if |books| > 0 {
      FilterKeepsIdsUnique(books[1..], p);
      var rest := Filter(books[1..], p);
      if p(books[0]) {
        var r := Filter(books, p);
        assert r == [books[0]] + rest;
        forall i, j | 0 <= i < j < |r|
          ensures r[i].id != r[j].id
        {
          if i == 0 {
            assert r[j] == rest[j - 1] && rest[j - 1] in rest;
            var k :| 0 <= k < |books[1..]| && books[1..][k] == r[j];
            assert books[k + 1] == r[j];
          } else {
            assert r[i] == rest[i - 1] && r[j] == rest[j - 1];
          }
        }
      }
    }
  }
}
