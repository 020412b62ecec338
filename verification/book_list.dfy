/** The catalog view: the search-and-genre filter over the books on screen,
    the options of the genre drop-down, and the dispatch of a saved form to
    the add or the edit callback. */
module BookList {
  import opened Wrappers
  import opened Seqs
  import opened Strings
  import opened Records

  /** The fields the search reads are present, in the order the
      short-circuiting `||` reaches them; a missing one throws. */
  predicate SearchDefined(b: Book, term: string) {
    || term == ""
    || (&& b.title.Some?
        && (|| Includes(Lower(b.title.value), Lower(term))
            || (&& b.author.Some?
                && (Includes(Lower(b.author.value), Lower(term)) || b.isbn.Some?))))
  }

  /** `matchesSearch`: an empty term matches; otherwise the term, ignoring
      case, is part of the title or the author, or, respecting case, part of
      the ISBN. */
  predicate MatchesSearch(b: Book, term: string)
    requires SearchDefined(b, term)
  {
    || term == ""
    || Includes(Lower(b.title.value), Lower(term))
    || Includes(Lower(b.author.value), Lower(term))
    || Includes(b.isbn.value, term)
  }

  /** `matchesGenre`: no genre selected, or exactly the selected one. */
  predicate MatchesGenre(b: Book, genre: string) {
    genre == "" || b.genre == Some(genre)
  }

  /** The predicate passed to `books.filter`. */
  function Shows(term: string, genre: string): Book -> bool {
    (b: Book) => SearchDefined(b, term) && MatchesSearch(b, term) && MatchesGenre(b, genre)
  }

  /** `filteredBooks`: the books that match both the search and the genre,
      in catalog order. */
  function FilteredBooks(books: seq<Book>, term: string, genre: string): (r: seq<Book>)
    requires forall i :: 0 <= i < |books| ==> SearchDefined(books[i], term)
    ensures IsSubsequence(r, books)
    ensures forall b :: b in r <==> b in books && MatchesSearch(b, term) && MatchesGenre(b, genre)
    ensures |r| == Count(books, Shows(term, genre))
    ensures genre != "" ==> forall i :: 0 <= i < |r| ==> r[i].genre == Some(genre)
  {
    FilterIsSubsequence(books, Shows(term, genre));
    var r := Filter(books, Shows(term, genre));
    assert forall i :: 0 <= i < |r| ==> r[i] in r;
    r
  }

  /** With no search term and no genre the whole catalog is shown. */
  lemma EmptyFiltersShowAll(books: seq<Book>)
    ensures FilteredBooks(books, "", "") == books
  {
    FilterKeepsAll(books, Shows("", ""));
  }

  /** The search matches exactly when the lower-cased term occurs at some
      position of the lower-cased title or author, or the term itself at
      some position of the ISBN. */
  lemma SearchMatchIff(b: Book, term: string)
    requires SearchDefined(b, term)
    ensures MatchesSearch(b, term) <==>
              || term == ""
              || (exists i :: OccursAt(Lower(b.title.value), Lower(term), i))
              || (b.author.Some? && exists i :: OccursAt(Lower(b.author.value), Lower(term), i))
              || (b.isbn.Some? && exists i :: OccursAt(b.isbn.value, term, i))
  {
    if term != "" {
      IncludesIffOccurs(Lower(b.title.value), Lower(term));
      if !Includes(Lower(b.title.value), Lower(term)) {
        IncludesIffOccurs(Lower(b.author.value), Lower(term));
        if !Includes(Lower(b.author.value), Lower(term)) {
          IncludesIffOccurs(b.isbn.value, term);
        }
      }
    }
  }

  /** A one-character term is part of a string only if that character
      occurs in it. */
  lemma {:induction false} IncludesOneChar(s: string, c: char)
    requires forall i :: 0 <= i < |s| ==> s[i] != c
    ensures !Includes(s, [c])
    decreases |s|
  {
    if |s| > 0 {
      assert s[..1] == [s[0]];
      IncludesOneChar(s[1..], c);
    }
  }

  /** A record whose ISBN ends in the check character `X`. */
  const CheckDigitBook := Book(Some("1"), Some("Dune"), Some("Frank Herbert"), Some("080442957X"), None, None, None)

  /** The ISBN comparison respects case: `X` finds the record by its check
      character... */
  lemma UpperCaseFindsCheckDigit()
    ensures SearchDefined(CheckDigitBook, "X") && MatchesSearch(CheckDigitBook, "X")
  {
    assert Includes("080442957X"[9..], "X");
  }

  /** ...but `x` does not, although title and author are compared ignoring
      case. */
  lemma LowerCaseMissesCheckDigit()
    ensures SearchDefined(CheckDigitBook, "x") && !MatchesSearch(CheckDigitBook, "x")
  {
    assert Lower("x") == "x";
    IncludesOneChar(Lower("Dune"), 'x');
    IncludesOneChar(Lower("Frank Herbert"), 'x');
    IncludesOneChar("080442957X", 'x');
  }

  /** A genre `filter(Boolean)` keeps: present and non-empty. */
  predicate IsTruthyGenre(genre: Option<string>) {
    genre.Some? && genre.value != ""
  }

  /** The genre of each book, in catalog order, keeping only the truthy ones. */
  function TruthyGenres(books: seq<Book>): (r: seq<string>)
    ensures forall g :: g in r <==> g != "" && exists i :: 0 <= i < |books| && books[i].genre == Some(g)
    decreases |books|
  {
    if |books| == 0 then []
    else
      var init := books[..|books| - 1];
      var last := books[|books| - 1].genre;
      assert forall i :: 0 <= i < |init| ==> init[i] == books[i];
      if IsTruthyGenre(last) then TruthyGenres(init) + [last.value] else TruthyGenres(init)
  }

  /** The genre drop-down: the empty option, then each truthy genre once, in
      the order a `Set` built from them lists it; the set is filled one book
      at a time. */
  method GenreOptions(books: seq<Book>) returns (genres: seq<string>)
    ensures genres == [""] + Distinct(TruthyGenres(books))
    ensures NoDuplicates(genres)
    ensures forall g :: g in genres <==> g == "" || exists i :: 0 <= i < |books| && books[i].genre == Some(g)
  {
    var seen: seq<string> := [];
    var i := 0;
    while i < |books|
      invariant 0 <= i <= |books|
      invariant seen == Distinct(TruthyGenres(books[..i]))
    {
      assert books[..i + 1][..i] == books[..i];
      var g := books[i].genre;
      if IsTruthyGenre(g) {
        assert TruthyGenres(books[..i + 1]) == TruthyGenres(books[..i]) + [g.value];
        if g.value !in seen {
          seen := seen + [g.value];
        }
      }
      i := i + 1;
    }
    assert books[..i] == books;
    genres := [""] + seen;
    forall j, k | 0 <= j < k < |genres|
      ensures genres[j] != genres[k]
    {
      if j == 0 {
        assert genres[k] in seen;
      } else {
        assert genres[j] == seen[j - 1] && genres[k] == seen[k - 1];
      }
    }
  }

  /** What saving the form hands on: `onEditBook` when a book was selected
      for editing, `onAddBook` otherwise. */
  datatype Save = OnEdit(record: Book) | OnAdd(record: Book)

  /** `handleSaveBook(bookData)` */
  function SaveBook(selected: Option<Book>, data: Book): (r: Save)
    ensures r.OnEdit? <==> selected.Some?
    ensures selected.Some? ==> r.record.id == selected.value.id
    ensures selected.None? ==> r.record.id == data.id
    ensures r.record.(id := data.id) == data
  {
    match selected
    case Some(book) => OnEdit(data.(id := book.id))
    case None => OnAdd(data)
  }
}
