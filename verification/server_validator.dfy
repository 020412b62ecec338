/** The server's own copy of `validateBook`. It sanitises title, author and
    ISBN like the client but stores `publishedDate` exactly as given and
    checks the raw value. */
module ServerValidator {
  import opened Wrappers
  import opened Dates
  import opened Records
  import opened Validator

  /** The server's `validateBook(bookData)`. */
  function ServerValidateBook(cal: Calendar, today: Date, b: Book): (r: Validation)
    ensures r.isValid <==> r.errors == []
    ensures r.errors == Collect(cal, today, r.validated)
    ensures |r.errors| <= 5
    ensures r.validated.title == Some(SanitizeString(b.title))
    ensures r.validated.author == Some(SanitizeString(b.author))
    ensures r.validated.isbn == Some(SanitizeString(b.isbn))
    ensures r.validated.publishedDate == b.publishedDate
    ensures r.validated.id == b.id
    ensures r.validated.genre == b.genre && r.validated.copiesAvailable == b.copiesAvailable
  {
    var v := b.(
      title := Some(SanitizeString(b.title)),
      author := Some(SanitizeString(b.author)),
      isbn := Some(SanitizeString(b.isbn)));
    var errors := Collect(cal, today, v);
    AtMostOnePerRule(errors);
    Validation(|errors| == 0, v, errors)
  }

  /** The server reads the raw date: "required" only when it is missing or
      empty, and "in the future" when it is present but unparseable or
      after today. */
  lemma ServerDateMessages(cal: Calendar, today: Date, b: Book)
    ensures DateRequired in ServerValidateBook(cal, today, b).errors <==>
              b.publishedDate.None? || b.publishedDate.value == ""
    ensures DateInFuture in ServerValidateBook(cal, today, b).errors <==>
              && b.publishedDate.Some? && b.publishedDate.value != ""
              && (|| cal.parse(b.publishedDate.value).None?
                  || !OnOrBefore(cal.parse(b.publishedDate.value).value, today))
  {
    var r := ServerValidateBook(cal, today, b);
    assert r.validated.publishedDate.GetOr("") == b.publishedDate.GetOr("");
  }

  /** When the raw date is missing, empty or parseable, the server and the
      client reach the same verdict with the same messages, and their
      sanitised records differ at most in `publishedDate`. Both sides
      compare calendar days here; a time of day is not modelled. */
  lemma ServerAgreesWithClientOnParseableDates(cal: Calendar, today: Date, b: Book)
    requires Coherent(cal)
    requires b.publishedDate.None? || b.publishedDate.value == "" || cal.parse(b.publishedDate.value).Some?
    ensures var s := ServerValidateBook(cal, today, b);
            var c := ValidateBook(cal, today, b);
            && s.isValid == c.isValid
            && s.errors == c.errors
            && s.validated.(publishedDate := c.validated.publishedDate) == c.validated
  {
    var s := ServerValidateBook(cal, today, b);
    var c := ValidateBook(cal, today, b);
    ServerDateMessages(cal, today, b);
    ClientDateMessages(cal, today, b);
    var sv, cv := s.validated, c.validated;
    assert TitleErrors(sv) == TitleErrors(cv);
    assert AuthorErrors(sv) == AuthorErrors(cv);
    assert IsbnErrors(sv) == IsbnErrors(cv);
    assert AcademicErrors(sv) == AcademicErrors(cv);
    assert DateRequired in DateErrors(cal, today, sv) <==> DateRequired in DateErrors(cal, today, cv);
    assert DateInFuture in DateErrors(cal, today, sv) <==> DateInFuture in DateErrors(cal, today, cv);
    assert DateErrors(cal, today, sv) == DateErrors(cal, today, cv);
  }

  /** An unparseable, non-empty date gets different messages: the client
      reports it missing, the server reports it as in the future. */
  lemma UnparseableDateMessagesDiffer(cal: Calendar, today: Date, b: Book)
    requires Coherent(cal)
    requires b.publishedDate.Some? && b.publishedDate.value != "" && cal.parse(b.publishedDate.value).None?
    ensures DateRequired in ValidateBook(cal, today, b).errors
    ensures DateInFuture !in ValidateBook(cal, today, b).errors
    ensures DateInFuture in ServerValidateBook(cal, today, b).errors
    ensures DateRequired !in ServerValidateBook(cal, today, b).errors
  {
    ServerDateMessages(cal, today, b);
    ClientDateMessages(cal, today, b);
  }

  /** The server keeps a date in the form it was sent; the client stores
      its `YYYY-MM-DD` rendering, so the two sanitised records differ
      whenever the input was written in another form. */
  lemma ServerKeepsUnnormalisedDate(cal: Calendar, today: Date, b: Book, d: Date)
    requires b.publishedDate.Some? && b.publishedDate.value != ""
    requires cal.parse(b.publishedDate.value) == Some(d) && cal.format(d) != b.publishedDate.value
    ensures ServerValidateBook(cal, today, b).validated.publishedDate == b.publishedDate
    ensures ValidateBook(cal, today, b).validated.publishedDate == Some(cal.format(d))
    ensures ServerValidateBook(cal, today, b).validated != ValidateBook(cal, today, b).validated
  {
  }
}
