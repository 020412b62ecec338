/** The ISBN check: the regular expression `^(?:\d{9}[\dXx]|\d{13})$`,
    written as a value of a small pattern language, and what it accepts. */
module Isbn {
  import opened Strings

  /** The character classes the pattern uses: `\d` and `[\dXx]`. */
  datatype CharClass = Digit | DigitOrX

  predicate InClass(c: char, k: CharClass) {
    match k
    case Digit => IsDigit(c)
    case DigitOrX => IsDigit(c) || c == 'X' || c == 'x'
  }

  /** Anchored patterns: `k{n}`, concatenation and alternation. */
  datatype Pattern =
    | Repeat(k: CharClass, n: nat)
    | Concat(left: Pattern, right: Pattern)
    | Alt(left: Pattern, right: Pattern)

  /** `p` matches the whole of `s`. */
  predicate FullMatch(p: Pattern, s: string) {
    match p
    case Repeat(k, n) => |s| == n && forall i :: 0 <= i < |s| ==> InClass(s[i], k)
    case Concat(a, b) => exists cut | 0 <= cut <= |s| :: FullMatch(a, s[..cut]) && FullMatch(b, s[cut..])
    case Alt(a, b) => FullMatch(a, s) || FullMatch(b, s)
  }

  /** `^(?:\d{9}[\dXx]|\d{13})$` */
  const IsbnPattern: Pattern :=
    Alt(Concat(Repeat(Digit, 9), Repeat(DigitOrX, 1)), Repeat(Digit, 13))

  /** The two shapes of ISBN the catalog accepts: ten characters of which
      the first nine are digits and the last a digit, `X` or `x`; or
      thirteen digits. No checksum is involved. */
  predicate IsbnShape(s: string) {
    || (|s| == 10 && (forall i :: 0 <= i < 9 ==> IsDigit(s[i]))
        && (IsDigit(s[9]) || s[9] == 'X' || s[9] == 'x'))
    || (|s| == 13 && forall i :: 0 <= i < 13 ==> IsDigit(s[i]))
  }

  /** The pattern matches exactly the strings of the two shapes. */
  lemma PatternAcceptsExactlyTwoShapes(s: string)
    ensures FullMatch(IsbnPattern, s) <==> IsbnShape(s)
  {
    var ten := Concat(Repeat(Digit, 9), Repeat(DigitOrX, 1));
    assert FullMatch(IsbnPattern, s) <==> FullMatch(ten, s) || FullMatch(Repeat(Digit, 13), s);
    if FullMatch(ten, s) {
      var cut :| 0 <= cut <= |s| && FullMatch(Repeat(Digit, 9), s[..cut]) && FullMatch(Repeat(DigitOrX, 1), s[cut..]);
      assert cut == 9;
      assert forall i :: 0 <= i < 9 ==> s[i] == s[..cut][i];
      assert s[9] == s[cut..][0];
    }
    if |s| == 10 && (forall i :: 0 <= i < 9 ==> IsDigit(s[i])) && (IsDigit(s[9]) || s[9] == 'X' || s[9] == 'x') {
      assert FullMatch(Repeat(Digit, 9), s[..9]);
      assert FullMatch(Repeat(DigitOrX, 1), s[9..]);
      assert FullMatch(ten, s);
    }
  }

  /** `validateISBN(isbn)`: the regular expression's `test`, which accepts
      exactly the two shapes. */
  function ValidateIsbn(isbn: string): (r: bool)
    ensures r <==> IsbnShape(isbn)
  {
    PatternAcceptsExactlyTwoShapes(isbn);
    FullMatch(IsbnPattern, isbn)
  }

  /** A character that is not a digit anywhere before the last position is
      rejected: hyphens, spaces and letters other than a final `X`/`x`. */
  lemma IsbnRejectsNonDigitBeforeLast(s: string, i: nat)
    requires i + 1 < |s| && !IsDigit(s[i])
    ensures !ValidateIsbn(s)
  {
  }

  /** Only lengths 10 and 13 are accepted. */
  lemma IsbnLength(s: string)
    requires ValidateIsbn(s)
    ensures |s| == 10 || |s| == 13
  {
  }

  /** An accepted ISBN has no whitespace, so trimming leaves it alone. */
  lemma AcceptedIsbnIsTrimmed(s: string)
    requires ValidateIsbn(s)
    ensures Trim(s) == s
  {
    TrimCharacterization([], s, []);
    assert [] + s + [] == s;
  }

  /** Sample strings: two accepted shapes, and rejected lengths, hyphens and letters. */
  lemma IsbnExamples()
    ensures ValidateIsbn("9780451524935")
    ensures ValidateIsbn("080442957X")
    ensures ValidateIsbn("080442957x")
    ensures !ValidateIsbn("123")
    ensures !ValidateIsbn("978045152493")
    ensures !ValidateIsbn("0-8044-2957-X")
    ensures !ValidateIsbn("08044A957X")
  {
    IsbnRejectsNonDigitBeforeLast("0-8044-2957-X", 1);
    IsbnRejectsNonDigitBeforeLast("08044A957X", 5);
  }
}
