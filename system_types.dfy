/** The framework value types the records use: `Guid` and the date part of
    `DateTime`. */
module SystemTypes {

  /** An opaque identifier; `Guid.NewGuid()` is a fresh one supplied by the caller. */
  datatype Guid = Guid(bits: nat)

  /** A calendar date; the records never look at a time of day. */
  datatype Date = Date(year: int, month: int, day: int)

  predicate IsLeapYear(y: int)
  {
    y % 4 == 0 && (y % 100 != 0 || y % 400 == 0)
  }

  /** `d.AddYears(n)`: same month and day `n` years on, with 29 February
      becoming 28 February in a common year. */
  function AddYears(d: Date, n: int): (r: Date)
    ensures r.year == d.year + n && r.month == d.month
    ensures d.month == 2 && d.day == 29 && !IsLeapYear(r.year) ==> r.day == 28
    ensures !(d.month == 2 && d.day == 29 && !IsLeapYear(r.year)) ==> r.day == d.day
  {
    var y := d.year + n;
    Date(y, d.month, if d.month == 2 && d.day == 29 && !IsLeapYear(y) then 28 else d.day)
  }

  /** `a > b` on dates. */
  predicate IsLater(a: Date, b: Date)
  {
    a.year > b.year || (a.year == b.year && (a.month > b.month || (a.month == b.month && a.day > b.day)))
  }
}
