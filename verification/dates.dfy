/** Calendar dates and clock readings. A service date is parsed from month/day/year text into
    the midnight that starts that day; the clock (`datetime.now()`, `datetime.today()`) gives a
    date plus the time of day, so an item due today compares as already due once the day has begun. */
module Dates {

  /** A date as the month/day/year parser returns it: a year, a month and a day. The parser is a
      parameter of the model, so any three integers can occur; `DateLe` is chronological order
      when they name a real calendar day. */
  datatype Date = Date(year: int, month: int, day: int)

  /** A moment in time: a calendar date and the microseconds elapsed since its midnight. */
  datatype Instant = Instant(date: Date, micros: nat)

  /** Chronological order of dates: by year, then month, then day. */
  predicate DateLe(a: Date, b: Date) {
    || a.year < b.year
    || (a.year == b.year && (a.month < b.month || (a.month == b.month && a.day <= b.day)))
  }

  predicate DateLt(a: Date, b: Date) {
    DateLe(a, b) && a != b
  }

  lemma DateLeTotalOrder()
    ensures forall a, b :: DateLe(a, b) || DateLe(b, a)
    ensures forall a, b, c :: DateLe(a, b) && DateLe(b, c) ==> DateLe(a, c)
    ensures forall a, b :: DateLe(a, b) && DateLe(b, a) ==> a == b
  {
  }

  /** The moment a parsed service date stands for: the midnight starting that day. */
  function Midnight(d: Date): Instant {
    Instant(d, 0)
  }

  /** `datetime` order: by date, then by time of day. */
  predicate InstantLt(a: Instant, b: Instant) {
    DateLt(a.date, b.date) || (a.date == b.date && a.micros < b.micros)
  }

  /** `service_date >= now` for a service date parsed at midnight: true on later days, and on
      the same day only if the clock reads exactly midnight. */
  predicate InService(d: Date, now: Instant) {
    !InstantLt(Midnight(d), now)
  }

  /** `service_date < today`: the service date's midnight has already passed. */
  predicate PastDue(d: Date, today: Instant) {
    InstantLt(Midnight(d), today)
  }

  /** The two clock checks in terms of calendar days: a date strictly before the clock's day is
      due, a later date is in service, and the clock's own day is due from the first microsecond on. */
  lemma ClockChecksByDay(d: Date, now: Instant)
    ensures PastDue(d, now) <==> DateLt(d, now.date) || (d == now.date && now.micros > 0)
    ensures InService(d, now) <==> DateLt(now.date, d) || (d == now.date && now.micros == 0)
    ensures InService(d, now) <==> !PastDue(d, now)
  {
  }
}
