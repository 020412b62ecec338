/** The client's book-record validation engine: the field primitives, the
    rule checks in their fixed order, the standalone `validateBook` and the
    context `validate` that renders keyed error elements. */
module Validator {
  import opened Wrappers
  import opened Strings
  import opened Isbn
  import opened Dates
  import opened Records

  /** `sanitizeString(str)`: a missing or empty value becomes `""`, anything
      else is trimmed. */
  function SanitizeString(s: Option<string>): (r: string)
    ensures IsTrimmed(r)
    ensures s.None? ==> r == ""
    ensures s.Some? ==> |r| <= |s.value|
  {
    match s
    case None => ""
    case Some(v) => Trim(v)
  }

  /** Sanitising a sanitised value changes nothing. */
  lemma SanitizeIdempotent(s: Option<string>)
    ensures SanitizeString(Some(SanitizeString(s))) == SanitizeString(s)
  {
    if s.Some? {
      TrimIdempotent(s.value);
    } else {
      assert SanitizeString(Some("")) == Trim("");
      TrimCharacterization([], [], []);
    }
  }

  /** Sanitising only strips whitespace from the two ends. */
  lemma SanitizeOnlyStripsWhitespace(v: string) returns (before: string, after: string)
    ensures v == before + SanitizeString(Some(v)) + after
    ensures AllWhitespace(before) && AllWhitespace(after)
  {
    before, after := TrimSplits(v);
  }

  /** A value without whitespace at either end is left as it is. */
  lemma SanitizeKeepsTrimmed(v: string)
    requires IsTrimmed(v)
    ensures SanitizeString(Some(v)) == v
  {
    TrimCharacterization([], v, []);
    assert [] + v + [] == v;
  }

  /** `normalizeDate(dateStr)`: under the calendar law, `""` exactly for a
      missing, empty or unparseable value (so "malformed" and "missing"
      collapse into one case), and otherwise the `YYYY-MM-DD` rendering of
      the parsed date, which parses back to that date. */
  function NormalizeDate(cal: Calendar, s: Option<string>): (r: string)
    ensures Coherent(cal) ==> (r == "" <==> s.None? || s.value == "" || cal.parse(s.value).None?)
    ensures Coherent(cal) && r != "" ==> s.Some? && cal.parse(r) == cal.parse(s.value)
    ensures s.Some? && s.value != "" && cal.parse(s.value).Some? ==> r == cal.format(cal.parse(s.value).value)
  {
    match s
    case None => ""
    case Some(v) =>
      if v == "" then ""
      else
        match cal.parse(v)
        case None => ""
        case Some(d) =>
          assert Coherent(cal) ==> cal.parse(cal.format(d)) == Some(d) && cal.format(d) != "";
          cal.format(d)
  }

  /** Normalising a normalised date changes nothing. */
  lemma NormalizeDateIdempotent(cal: Calendar, s: Option<string>)
    requires Coherent(cal)
    ensures NormalizeDate(cal, Some(NormalizeDate(cal, s))) == NormalizeDate(cal, s)
  {
    if NormalizeDate(cal, s) != "" {
      var d := cal.parse(s.value).value;
      assert cal.parse(cal.format(d)) == Some(d);
    }
  }

  /** `validatePublishedDate(date)`: accepted exactly when the value parses
      to a day that is not after today. */
  function ValidatePublishedDate(cal: Calendar, today: Date, date: string): (r: bool)
    ensures r <==> cal.parse(date).Some? && OnOrBefore(cal.parse(date).value, today)
  {
    match cal.parse(date)
    case None => false
    case Some(d) => OnOrBefore(d, today)
  }

  /** The comparison is "not after": a book published today is accepted. */
  lemma PublishedTodayIsAccepted(cal: Calendar, today: Date)
    requires Coherent(cal)
    ensures ValidatePublishedDate(cal, today, cal.format(today))
  {
    assert cal.parse(cal.format(today)) == Some(today);
  }

  /** A date accepted today stays accepted on every later day. */
  lemma AcceptedDateStaysAccepted(cal: Calendar, today: Date, later: Date, date: string)
    requires ValidatePublishedDate(cal, today, date) && OnOrBefore(today, later)
    ensures ValidatePublishedDate(cal, later, date)
  {
  }

  /** `validateAcademicCopies(genre, copies)`: every genre but the one spelled
      exactly `Academic` passes; that one passes only with a count of at
      least five, and a missing or non-numeric count does not reach five. */
  function ValidateAcademicCopies(genre: Option<string>, copies: Option<int>): (r: bool)
    ensures genre != Some("Academic") ==> r
    ensures genre == Some("Academic") ==> (r <==> copies.Some? && copies.value >= 5)
  {
    genre != Some("Academic") || (copies.Some? && copies.value >= 5)
  }

  /** The error messages, one constructor per message text. */
  datatype Message =
    | TitleRequired
    | AuthorRequired
    | IsbnRequired
    | IsbnFormat
    | DateRequired
    | DateInFuture
    | AcademicCopies
  {
    function Text(): string {
      match this
      case TitleRequired => "Title is required"
      case AuthorRequired => "Author is required"
      case IsbnRequired => "ISBN is required"
      case IsbnFormat => "Invalid ISBN format (must be 10 or 13 digits)"
      case DateRequired => "Published date is required"
      case DateInFuture => "Published date cannot be in the future"
      case AcademicCopies => "Academic books must have at least 5 copies available"
    }

    /** Position of the rule that emits the message in the checking order:
        title, author, ISBN, date, academic copies. */
    function Rule(): nat {
      match this
      case TitleRequired => 0
      case AuthorRequired => 1
      case IsbnRequired => 2
      case IsbnFormat => 2
      case DateRequired => 3
      case DateInFuture => 3
      case AcademicCopies => 4
    }
  }

  /** The texts of a list of messages, as the server sends them. */
  function Texts(errors: seq<Message>): (r: seq<string>)
    ensures |r| == |errors|
    ensures forall i :: 0 <= i < |errors| ==> r[i] == errors[i].Text()
  {
    seq(|errors|, i requires 0 <= i < |errors| => errors[i].Text())
  }

  /** Messages appear in checking order, at most one per rule. */
  predicate InRuleOrder(errors: seq<Message>) {
    forall i, j :: 0 <= i < j < |errors| ==> errors[i].Rule() < errors[j].Rule()
  }

  lemma {:induction false} RuleAtLeastPosition(errors: seq<Message>, k: nat)
    requires InRuleOrder(errors) && k < |errors|
    ensures errors[k].Rule() >= k
  {
    if k > 0 {
      RuleAtLeastPosition(errors, k - 1);
    }
  }

  /** An error list in rule order has at most five messages, never both ISBN
      messages and never both date messages. */
  lemma AtMostOnePerRule(errors: seq<Message>)
    requires InRuleOrder(errors)
    ensures |errors| <= 5
    ensures !(IsbnRequired in errors && IsbnFormat in errors)
    ensures !(DateRequired in errors && DateInFuture in errors)
  {
    if |errors| > 0 {
      RuleAtLeastPosition(errors, |errors| - 1);
    }
    if IsbnRequired in errors && IsbnFormat in errors {
      var i :| 0 <= i < |errors| && errors[i] == IsbnRequired;
      assert false;
    }
    if DateRequired in errors && DateInFuture in errors {
      var i :| 0 <= i < |errors| && errors[i] == DateRequired;
      assert false;
    }
  }

  /** Every message of `a` belongs to a rule before `bound`. */
  predicate RulesBelow(a: seq<Message>, bound: nat) {
    forall i :: 0 <= i < |a| ==> a[i].Rule() < bound
  }

  /** At most one message, of rule `rule`. */
  predicate OneOfRule(e: seq<Message>, rule: nat) {
    |e| <= 1 && (|e| == 1 ==> e[0].Rule() == rule)
  }

  /** Appending at most one message of rule `rule` to messages of earlier
      rules keeps the list in rule order. */
  lemma AppendInRuleOrder(a: seq<Message>, e: seq<Message>, rule: nat)
    requires InRuleOrder(a) && RulesBelow(a, rule)
    requires OneOfRule(e, rule)
    ensures InRuleOrder(a + e) && RulesBelow(a + e, rule + 1)
  {
  }

  function TitleErrors(v: Book): (e: seq<Message>)
    ensures OneOfRule(e, 0)
    ensures TitleRequired in e <==> v.title.GetOr("") == ""
  {
    if v.title.GetOr("") == "" then [TitleRequired] else []
  }

  function AuthorErrors(v: Book): (e: seq<Message>)
    ensures OneOfRule(e, 1)
    ensures AuthorRequired in e <==> v.author.GetOr("") == ""
  {
    if v.author.GetOr("") == "" then [AuthorRequired] else []
  }

  /** "required" for a missing ISBN, else "format" for one the pattern
      rejects. */
  function IsbnErrors(v: Book): (e: seq<Message>)
    ensures OneOfRule(e, 2)
    ensures IsbnRequired in e <==> v.isbn.GetOr("") == ""
    ensures IsbnFormat in e <==> v.isbn.GetOr("") != "" && !ValidateIsbn(v.isbn.GetOr(""))
  {
    var isbn := v.isbn.GetOr("");
    if isbn == "" then [IsbnRequired]
    else if !ValidateIsbn(isbn) then [IsbnFormat]
    else []
  }

  /** "required" for a missing date, else "in the future" for one that does
      not pass `validatePublishedDate`. */
  function DateErrors(cal: Calendar, today: Date, v: Book): (e: seq<Message>)
    ensures OneOfRule(e, 3)
    ensures DateRequired in e <==> v.publishedDate.GetOr("") == ""
    ensures DateInFuture in e <==>
              v.publishedDate.GetOr("") != "" && !ValidatePublishedDate(cal, today, v.publishedDate.GetOr(""))
  {
    var date := v.publishedDate.GetOr("");
    if date == "" then [DateRequired]
    else if !ValidatePublishedDate(cal, today, date) then [DateInFuture]
    else []
  }

  function AcademicErrors(v: Book): (e: seq<Message>)
    ensures OneOfRule(e, 4)
    ensures AcademicCopies in e <==> !ValidateAcademicCopies(v.genre, v.copiesAvailable)
  {
    if !ValidateAcademicCopies(v.genre, v.copiesAvailable) then [AcademicCopies] else []
  }

  /** The rule checks, in their fixed order, over a record whose fields have
      already been sanitised. A missing field reads as empty, as `!value`
      does. Both the client and the server apply exactly these checks. */
  function Collect(cal: Calendar, today: Date, v: Book): (errors: seq<Message>)
    ensures InRuleOrder(errors)
    ensures TitleRequired in errors <==> v.title.GetOr("") == ""
    ensures AuthorRequired in errors <==> v.author.GetOr("") == ""
    ensures IsbnRequired in errors <==> v.isbn.GetOr("") == ""
    ensures IsbnFormat in errors <==> v.isbn.GetOr("") != "" && !ValidateIsbn(v.isbn.GetOr(""))
    ensures DateRequired in errors <==> v.publishedDate.GetOr("") == ""
    ensures DateInFuture in errors <==>
              v.publishedDate.GetOr("") != "" && !ValidatePublishedDate(cal, today, v.publishedDate.GetOr(""))
    ensures AcademicCopies in errors <==> !ValidateAcademicCopies(v.genre, v.copiesAvailable)
  {
    ChecksInRuleOrder(cal, today, v);
    ChecksReportFailures(cal, today, v);
    TitleErrors(v) + AuthorErrors(v) + IsbnErrors(v) + DateErrors(cal, today, v) + AcademicErrors(v)
  }

  /** The five checks, concatenated in source order, emit messages in rule
      order. */
  lemma ChecksInRuleOrder(cal: Calendar, today: Date, v: Book)
    ensures InRuleOrder(TitleErrors(v) + AuthorErrors(v) + IsbnErrors(v) + DateErrors(cal, today, v) + AcademicErrors(v))
  {
    var a := TitleErrors(v);
    var b := a + AuthorErrors(v);
    var c := b + IsbnErrors(v);
    var d := c + DateErrors(cal, today, v);
    assert InRuleOrder(a) && RulesBelow(a, 1);
    AppendInRuleOrder(a, AuthorErrors(v), 1);
    AppendInRuleOrder(b, IsbnErrors(v), 2);
    AppendInRuleOrder(c, DateErrors(cal, today, v), 3);
    AppendInRuleOrder(d, AcademicErrors(v), 4);
  }

  /** A list holding at most one message of rule `rule` holds no message of
      another rule. */
  lemma NotInOtherRule(m: Message, e: seq<Message>, rule: nat)
    requires OneOfRule(e, rule) && m.Rule() != rule
    ensures m !in e
  {
  }

  /** In five lists each holding at most one message of its own rule, a
      message occurs in the concatenation exactly when it occurs in the
      list of its rule. */
  lemma InOwnRuleList(m: Message, a: seq<Message>, b: seq<Message>, c: seq<Message>, d: seq<Message>, e: seq<Message>)
    requires OneOfRule(a, 0) && OneOfRule(b, 1) && OneOfRule(c, 2) && OneOfRule(d, 3) && OneOfRule(e, 4)
    ensures m.Rule() == 0 ==> (m in a + b + c + d + e <==> m in a)
    ensures m.Rule() == 1 ==> (m in a + b + c + d + e <==> m in b)
    ensures m.Rule() == 2 ==> (m in a + b + c + d + e <==> m in c)
    ensures m.Rule() == 3 ==> (m in a + b + c + d + e <==> m in d)
    ensures m.Rule() == 4 ==> (m in a + b + c + d + e <==> m in e)
  {
    if m.Rule() != 0 { NotInOtherRule(m, a, 0); }
    if m.Rule() != 1 { NotInOtherRule(m, b, 1); }
    if m.Rule() != 2 { NotInOtherRule(m, c, 2); }
    if m.Rule() != 3 { NotInOtherRule(m, d, 3); }
    if m.Rule() != 4 { NotInOtherRule(m, e, 4); }
  }

  /** Each message is in the concatenated checks exactly when its own check
      fails. */
  lemma ChecksReportFailures(cal: Calendar, today: Date, v: Book)
    ensures var errors := TitleErrors(v) + AuthorErrors(v) + IsbnErrors(v) + DateErrors(cal, today, v) + AcademicErrors(v);
            && (TitleRequired in errors <==> v.title.GetOr("") == "")
            && (AuthorRequired in errors <==> v.author.GetOr("") == "")
            && (IsbnRequired in errors <==> v.isbn.GetOr("") == "")
            && (IsbnFormat in errors <==> v.isbn.GetOr("") != "" && !ValidateIsbn(v.isbn.GetOr("")))
            && (DateRequired in errors <==> v.publishedDate.GetOr("") == "")
            && (DateInFuture in errors <==>
                  v.publishedDate.GetOr("") != "" && !ValidatePublishedDate(cal, today, v.publishedDate.GetOr("")))
            && (AcademicCopies in errors <==> !ValidateAcademicCopies(v.genre, v.copiesAvailable))
  {
    var a, b, c, d, e := TitleErrors(v), AuthorErrors(v), IsbnErrors(v), DateErrors(cal, today, v), AcademicErrors(v);
    InOwnRuleList(TitleRequired, a, b, c, d, e);
    InOwnRuleList(AuthorRequired, a, b, c, d, e);
    InOwnRuleList(IsbnRequired, a, b, c, d, e);
    InOwnRuleList(IsbnFormat, a, b, c, d, e);
    InOwnRuleList(DateRequired, a, b, c, d, e);
    InOwnRuleList(DateInFuture, a, b, c, d, e);
    InOwnRuleList(AcademicCopies, a, b, c, d, e);
  }

  /** The result of validating one record: the verdict, the sanitised
      record (returned even when invalid) and the ordered messages. */
  datatype Validation = Validation(isValid: bool, validated: Book, errors: seq<Message>)

  /** The client's standalone `validateBook(bookData)`: title, author and
      ISBN are sanitised, the date normalised, the rest passed through, and
      the rule checks run on the result. */
  function ValidateBook(cal: Calendar, today: Date, b: Book): (r: Validation)
    ensures r.isValid <==> r.errors == []
    ensures r.errors == Collect(cal, today, r.validated)
    ensures |r.errors| <= 5
    ensures r.validated.title == Some(SanitizeString(b.title))
    ensures r.validated.author == Some(SanitizeString(b.author))
    ensures r.validated.isbn == Some(SanitizeString(b.isbn))
    ensures r.validated.publishedDate == Some(NormalizeDate(cal, b.publishedDate))
    ensures r.validated.id == b.id
    ensures r.validated.genre == b.genre && r.validated.copiesAvailable == b.copiesAvailable
  {
    var v := b.(
      title := Some(SanitizeString(b.title)),
      author := Some(SanitizeString(b.author)),
      isbn := Some(SanitizeString(b.isbn)),
      publishedDate := Some(NormalizeDate(cal, b.publishedDate)));
    var errors := Collect(cal, today, v);
    AtMostOnePerRule(errors);
    Validation(|errors| == 0, v, errors)
  }

  /** On the client the date messages depend on the raw input only through
      its parse: "required" for a missing, empty or unparseable value,
      "in the future" for a parsed date after today. */
  lemma ClientDateMessages(cal: Calendar, today: Date, b: Book)
    requires Coherent(cal)
    ensures DateRequired in ValidateBook(cal, today, b).errors <==>
              b.publishedDate.None? || b.publishedDate.value == "" || cal.parse(b.publishedDate.value).None?
    ensures DateInFuture in ValidateBook(cal, today, b).errors <==>
              && b.publishedDate.Some? && b.publishedDate.value != ""
              && cal.parse(b.publishedDate.value).Some?
              && !OnOrBefore(cal.parse(b.publishedDate.value).value, today)
  {
  }

  /** A record whose fields are already sanitised and valid validates to
      itself (with the date in its rendered form). */
  lemma ValidateBookFixesSanitised(cal: Calendar, today: Date, b: Book)
    requires Coherent(cal)
    ensures var r := ValidateBook(cal, today, b);
            ValidateBook(cal, today, r.validated) == r
  {
    var r := ValidateBook(cal, today, b);
    SanitizeIdempotent(b.title);
    SanitizeIdempotent(b.author);
    SanitizeIdempotent(b.isbn);
    NormalizeDateIdempotent(cal, b.publishedDate);
  }

  /** One `<li>` of the context validator's error list: its React key and
      its text. */
  datatype ErrorElement = ErrorElement(key: string, text: string)

  /** What the context `validate` returns: `errorElements` is `null` (here
      `None`) when there is nothing to show. */
  datatype ContextValidation =
    ContextValidation(isValid: bool, validated: Book, errorElements: Option<seq<ErrorElement>>)

  function ElementTexts(elements: seq<ErrorElement>): (r: seq<string>)
    ensures |r| == |elements|
    ensures forall i :: 0 <= i < |elements| ==> r[i] == elements[i].text
  {
    seq(|elements|, i requires 0 <= i < |elements| => elements[i].text)
  }

  function TitleElements(v: Book): seq<ErrorElement> {
    if v.title.GetOr("") == "" then [ErrorElement("title", TitleRequired.Text())] else []
  }

  function AuthorElements(v: Book): seq<ErrorElement> {
    if v.author.GetOr("") == "" then [ErrorElement("author", AuthorRequired.Text())] else []
  }

  function IsbnElements(v: Book): seq<ErrorElement> {
    var isbn := v.isbn.GetOr("");
    if isbn == "" then [ErrorElement("isbn-required", IsbnRequired.Text())]
    else if !ValidateIsbn(isbn) then
      [ErrorElement("isbn-format", IsbnFormat.Text())]
    else []
  }

  function DateElements(cal: Calendar, today: Date, v: Book): seq<ErrorElement> {
    var date := v.publishedDate.GetOr("");
    if date == "" then [ErrorElement("date-required", DateRequired.Text())]
    else if !ValidatePublishedDate(cal, today, date) then
      [ErrorElement("date-invalid", DateInFuture.Text())]
    else []
  }

  function AcademicElements(v: Book): seq<ErrorElement> {
    if !ValidateAcademicCopies(v.genre, v.copiesAvailable) then
      [ErrorElement("academic-copies", AcademicCopies.Text())]
    else []
  }

  /** The context `validate(bookData)`: the same sanitisation and checks,
      each failing check rendered as a keyed list item; `errorElements` is
      `null` exactly when the record is valid. */
  function ContextValidate(cal: Calendar, today: Date, b: Book): (r: ContextValidation)
    ensures r.isValid <==> r.errorElements.None?
    ensures r.errorElements.Some? ==> |r.errorElements.value| > 0
    ensures r.validated.title == Some(SanitizeString(b.title))
    ensures r.validated.publishedDate == Some(NormalizeDate(cal, b.publishedDate))
  {
    var v := b.(
      title := Some(SanitizeString(b.title)),
      author := Some(SanitizeString(b.author)),
      isbn := Some(SanitizeString(b.isbn)),
      publishedDate := Some(NormalizeDate(cal, b.publishedDate)));
    var elements :=
      TitleElements(v) + AuthorElements(v) + IsbnElements(v) + DateElements(cal, today, v) + AcademicElements(v);
    ContextValidation(|elements| == 0, v, if |elements| > 0 then Some(elements) else None)
  }

  lemma TextsAppend(a: seq<Message>, b: seq<Message>)
    ensures Texts(a + b) == Texts(a) + Texts(b)
  {
  }

  lemma ElementTextsAppend(a: seq<ErrorElement>, b: seq<ErrorElement>)
    ensures ElementTexts(a + b) == ElementTexts(a) + ElementTexts(b)
  {
  }

  /** Each check renders the text of the message it emits. */
  lemma ChecksRenderSameTexts(cal: Calendar, today: Date, v: Book)
    ensures ElementTexts(TitleElements(v)) == Texts(TitleErrors(v))
    ensures ElementTexts(AuthorElements(v)) == Texts(AuthorErrors(v))
    ensures ElementTexts(IsbnElements(v)) == Texts(IsbnErrors(v))
    ensures ElementTexts(DateElements(cal, today, v)) == Texts(DateErrors(cal, today, v))
    ensures ElementTexts(AcademicElements(v)) == Texts(AcademicErrors(v))
  {
  }

  lemma ConcatRendersSameTexts(
    e1: seq<ErrorElement>, e2: seq<ErrorElement>, e3: seq<ErrorElement>, e4: seq<ErrorElement>, e5: seq<ErrorElement>,
    m1: seq<Message>, m2: seq<Message>, m3: seq<Message>, m4: seq<Message>, m5: seq<Message>)
    requires ElementTexts(e1) == Texts(m1) && ElementTexts(e2) == Texts(m2) && ElementTexts(e3) == Texts(m3)
    requires ElementTexts(e4) == Texts(m4) && ElementTexts(e5) == Texts(m5)
    ensures ElementTexts(e1 + e2 + e3 + e4 + e5) == Texts(m1 + m2 + m3 + m4 + m5)
  {
    ElementTextsAppend(e1, e2);
    ElementTextsAppend(e1 + e2, e3);
    ElementTextsAppend(e1 + e2 + e3, e4);
    ElementTextsAppend(e1 + e2 + e3 + e4, e5);
    TextsAppend(m1, m2);
    TextsAppend(m1 + m2, m3);
    TextsAppend(m1 + m2 + m3, m4);
    TextsAppend(m1 + m2 + m3 + m4, m5);
  }

  /** The two client copies of the engine agree: same verdict, same
      sanitised record, and the rendered list shows the standalone
      function's messages in the same order. */
  lemma ContextValidateAgreesWithValidateBook(cal: Calendar, today: Date, b: Book)
    ensures var c := ContextValidate(cal, today, b);
            var r := ValidateBook(cal, today, b);
            && c.isValid == r.isValid
            && c.validated == r.validated
            && (c.errorElements.None? <==> r.errors == [])
            && (c.errorElements.Some? ==> ElementTexts(c.errorElements.value) == Texts(r.errors))
  {
    var c := ContextValidate(cal, today, b);
    var r := ValidateBook(cal, today, b);
    var v := c.validated;
    assert v == r.validated;
    var elements := TitleElements(v) + AuthorElements(v) + IsbnElements(v) + DateElements(cal, today, v) + AcademicElements(v);
    assert c.errorElements == if |elements| > 0 then Some(elements) else None;
    ChecksRenderSameTexts(cal, today, v);
    ConcatRendersSameTexts(
      TitleElements(v), AuthorElements(v), IsbnElements(v), DateElements(cal, today, v), AcademicElements(v),
      TitleErrors(v), AuthorErrors(v), IsbnErrors(v), DateErrors(cal, today, v), AcademicErrors(v));
    assert ElementTexts(elements) == Texts(r.errors);
    assert |elements| == |r.errors|;
  }
}
