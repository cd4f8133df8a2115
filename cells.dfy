/** The values a spreadsheet cell or a stored field can hold, and the
    Gregorian calendar the date normaliser checks against. */
module Cells {

  datatype Option<T> = None | Some(value: T)

  predicate IsLeap(year: int)
  {
    year % 4 == 0 && (year % 100 != 0 || year % 400 == 0)
  }

  function DaysInMonth(year: int, month: int): (n: int)
    requires 1 <= month <= 12
    ensures 28 <= n <= 31
    ensures n == 29 <==> month == 2 && IsLeap(year)
  {
    if month == 2 then (if IsLeap(year) then 29 else 28)
    else if month == 4 || month == 6 || month == 9 || month == 11 then 30
    else 31
  }

  /** A calendar day that Python's `datetime` accepts (years 1 to 9999). */
  predicate ValidDay(year: int, month: int, day: int)
  {
    1 <= year <= 9999 && 1 <= month <= 12 && 1 <= day <= DaysInMonth(year, month)
  }

  datatype Stamp = Stamp(year: int, month: int, day: int, hour: int, minute: int, second: int)

  /** A `datetime.datetime` as the spreadsheet reader yields it for a date cell. */
  type DateTime = t: Stamp
    | ValidDay(t.year, t.month, t.day) && 0 <= t.hour < 24 && 0 <= t.minute < 60 && 0 <= t.second < 60
    witness Stamp(2024, 2, 24, 0, 0, 0)

  /** A cell or field value. Python `int`, `float` and `bool` cells are all
      `Num`: the script only ever compares them by numeric value (as Python's
      tuple and set equality do, `True == 1`) and never finds a `y` at the
      start of their `str()`. `ObjId` is the identity the store gives each
      inserted document. */
  datatype Value =
    | Str(s: string)
    | Num(x: real)
    | Date(at: DateTime)
    | Null
    | ObjId(id: nat)

  /** `str(v).lower().startswith("y")`. For a string this is its first
      character being `y` or `Y` (no other character lower-cases to a string
      starting with `y`); `str()` of a number, a `datetime`, `None` or an
      ObjectId (24 hexadecimal digits) never starts with `y`. */
  predicate StartsWithY(v: Value)
  {
    v.Str? && |v.s| > 0 && (v.s[0] == 'y' || v.s[0] == 'Y')
  }

  lemma StartsWithYIff(v: Value)
    ensures StartsWithY(v) <==> exists rest :: v == Str(['y'] + rest) || v == Str(['Y'] + rest)
  {
    if StartsWithY(v) {
      assert v == Str([v.s[0]] + v.s[1..]);
    }
  }
}
