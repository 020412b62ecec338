/** Calendar dates, kept abstract: the JavaScript `Date` parser and
    `toISOString` rendering are parameters, related by one law. */
module Dates {
  import opened Wrappers

  datatype Date = Date(year: int, month: int, day: int)

  /** `a` is not after `b`, comparing calendar dates. */
  predicate OnOrBefore(a: Date, b: Date) {
    || a.year < b.year
    || (a.year == b.year && a.month < b.month)
    || (a.year == b.year && a.month == b.month && a.day <= b.day)
  }

  /** `parse` stands for `new Date(s)` (`None` for an invalid date) and
      `format` for `date.toISOString().split('T')[0]`, the `YYYY-MM-DD`
      rendering. */
  datatype Calendar = Calendar(parse: string -> Option<Date>, format: Date -> string)

  /** The law the model relies on: a rendered date is never empty and parses
      back to the same date. */
  ghost predicate Coherent(cal: Calendar) {
    forall d: Date :: cal.parse(cal.format(d)) == Some(d) && cal.format(d) != ""
  }
}
