/** Points in time as the database stores them, and the date-only strings JavaScript's
    `new Date(...)` reads. */
module Dates {
  import opened Wrappers
  import opened Text

  /** A UTC instant broken into calendar fields; `millis` is the time of day in milliseconds. */
  datatype Instant = Instant(year: int, month: nat, day: nat, millis: nat)

  /** `a <= b` on instants: chronological order. */
  predicate NotAfter(a: Instant, b: Instant) {
    || a.year < b.year
    || (a.year == b.year && a.month < b.month)
    || (a.year == b.year && a.month == b.month && a.day < b.day)
    || (a.year == b.year && a.month == b.month && a.day == b.day && a.millis <= b.millis)
  }

  /** `new Date(s)` for the ECMAScript date-only form `YYYY-MM-DD`, which is read as UTC
      midnight; any other string is an Invalid Date here. */
  function ParseDateOnly(s: string): (r: Option<Instant>)
    ensures r.Some? ==> |s| == 10 && s[4] == '-' && s[7] == '-'
    ensures r.Some? ==> 1 <= r.value.month <= 12 && 1 <= r.value.day <= 31 && r.value.millis == 0
  {
    if |s| == 10 && AllDigits(s[..4]) && s[4] == '-' && AllDigits(s[5..7]) && s[7] == '-'
       && AllDigits(s[8..])
    then
      var y, m, d := ParseDigits(s[..4]), ParseDigits(s[5..7]), ParseDigits(s[8..]);
      if 1 <= m <= 12 && 1 <= d <= 31 then Some(Instant(y, m, d, 0)) else None
    else None
  }
}
