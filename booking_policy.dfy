/**
 * The restaurant's booking-time rules, stated once as the list of violations
 * a date and time produce. Both reservation screens (create and edit) compute
 * this list step by step; their methods are proved equal to it.
 */
module BookingPolicy {
  import opened Calendar

  /** One rule a requested date and time can break. */
  datatype Msg =
    | NotInFuture
    | ClosedOnTuesday
    | BeforeOpening
    | TooCloseToClosing
    | AfterClosing

  /** The text of the `Error` each rule pushes. */
  function MessageText(m: Msg): string {
    match m
    case NotInFuture => "Reservation must be set in the future"
    case ClosedOnTuesday => "No reservations available on Tuesday."
    case BeforeOpening => "Restaurant is only open after 10:30am"
    case TooCloseToClosing => "Reservation must be made at least 1 hour before closing time (10:30pm)"
    case AfterClosing => "Restaurant closes at 10:30pm"
  }

  /** The messages of the opening-hours check. */
  predicate IsHoursMsg(m: Msg) {
    m.BeforeOpening? || m.TooCloseToClosing? || m.AfterClosing?
  }

  /** The order in which the checks run: future, then Tuesday, then opening hours. */
  function CheckRank(m: Msg): nat {
    match m
    case NotInFuture => 0
    case ClosedOnTuesday => 1
    case _ => 2
  }

  /** Opening time, the latest bookable time and the hour after which nothing is bookable, in minutes of the day. */
  const Opening: int := 10 * 60 + 30
  const LastBooking: int := 21 * 60 + 30
  const LateEvening: int := 22 * 60

  /** The Tuesday weekday number of `getUTCDay()`. */
  const Tuesday: int := 2

  /**
   * Milliseconds on the local wall clock since 1970-01-01 00:00 of the moment
   * `new Date(date + "T" + time)` denotes; `now` is measured the same way.
   */
  function LocalMillis(date: Date, time: Time): int {
    MillisAt(DaysFromCivil(date), MinuteOfDay(time))
  }

  /** Milliseconds since the epoch at minute `minute` of day number `day`. */
  function MillisAt(day: int, minute: int): int {
    (day * 24 * 60 + minute) * 60 * 1000
  }

  /** The requested moment lies strictly before now. */
  predicate InPast(date: Date, time: Time, now: int) {
    LocalMillis(date, time) < now
  }

  /** The restaurant is closed on the date's UTC weekday. */
  predicate ClosedOn(date: Date) {
    Weekday(date) == Tuesday
  }

  /**
   * The opening-hours rule on the time of day: bookable from 10:30 up to and
   * including 21:30; after 21:30 and before 22:00 the one-hour buffer before
   * closing applies, from 22:00 on the restaurant is closing.
   */
  function HoursViolation(t: Time): (r: seq<Msg>)
    ensures |r| <= 1
    ensures r == [] <==> Opening <= MinuteOfDay(t) <= LastBooking
  {
    var m := MinuteOfDay(t);
    if m < Opening then [BeforeOpening]
    else if LastBooking < m < LateEvening then [TooCloseToClosing]
    else if m >= LateEvening then [AfterClosing]
    else []
  }

  /** Every rule the requested slot breaks, in the order the checks run. */
  function Violations(date: Date, time: Time, now: int): (r: seq<Msg>)
    ensures |r| <= 3
    ensures r == [] <==> !InPast(date, time, now) && !ClosedOn(date) && Opening <= MinuteOfDay(time) <= LastBooking
  {
    (if InPast(date, time, now) then [NotInFuture] else [])
    + (if ClosedOn(date) then [ClosedOnTuesday] else [])
    + HoursViolation(time)
  }

  /** A time earlier than 10:30 is refused as before opening, and only such a time. */
  lemma BeforeOpeningExactly(date: Date, time: Time, now: int)
    requires ValidTime(time)
    ensures BeforeOpening in Violations(date, time, now)
        <==> time.hour < 10 || (time.hour == 10 && time.minute < 30)
  {
  }

  /** 21:31 to 21:59 is refused by the one-hour buffer before closing, and only those times. */
  lemma ClosingBufferExactly(date: Date, time: Time, now: int)
    requires ValidTime(time)
    ensures TooCloseToClosing in Violations(date, time, now)
        <==> time.hour == 21 && 31 <= time.minute <= 59
  {
  }

  /** Every hour from 22 on is refused as closing time; the 22:30 case adds nothing. */
  lemma AfterClosingExactly(date: Date, time: Time, now: int)
    requires ValidTime(time)
    ensures AfterClosing in Violations(date, time, now) <==> time.hour >= 22
  {
  }

  /** 10:30 to 21:30 inclusive is exactly the window with no opening-hours message. */
  lemma OpenWindow(date: Date, time: Time, now: int)
    requires ValidTime(time)
    ensures (forall m :: m in Violations(date, time, now) ==> !IsHoursMsg(m))
        <==> !TimeBefore(time, Time(10, 30)) && !TimeBefore(Time(21, 30), time)
  {
    var early := (if InPast(date, time, now) then [NotInFuture] else [])
      + (if ClosedOn(date) then [ClosedOnTuesday] else []);
    assert forall m :: m in early ==> !IsHoursMsg(m);
    assert Violations(date, time, now) == early + HoursViolation(time);
    if HoursViolation(time) != [] {
      assert HoursViolation(time)[0] in Violations(date, time, now);
    }
  }

  /** At most one opening-hours message, and at most three messages in all. */
  lemma AtMostOneHoursMessage(date: Date, time: Time, now: int)
    ensures |Violations(date, time, now)| <= 3
    ensures forall i, j :: 0 <= i < j < |Violations(date, time, now)| ==>
              !(IsHoursMsg(Violations(date, time, now)[i]) && IsHoursMsg(Violations(date, time, now)[j]))
  {
  }

  /** The messages come in check order, each check at most once. */
  lemma ChecksInOrder(date: Date, time: Time, now: int)
    ensures forall i, j :: 0 <= i < j < |Violations(date, time, now)| ==>
              CheckRank(Violations(date, time, now)[i]) < CheckRank(Violations(date, time, now)[j])
  {
  }

  /** A Tuesday is refused whatever the time; no other day is refused as closed. */
  lemma TuesdayAlwaysRefused(date: Date, time: Time, now: int)
    ensures ClosedOnTuesday in Violations(date, time, now) <==> Weekday(date) == 2
  {
  }

  /** The future check is strict: a slot at exactly now passes it. */
  lemma FutureCheckIsStrict(date: Date, time: Time, now: int)
    ensures NotInFuture in Violations(date, time, now) <==> LocalMillis(date, time) < now
    ensures LocalMillis(date, time) == now ==> NotInFuture !in Violations(date, time, now)
  {
  }

  /** 2024-01-02 (a Tuesday) at 18:00 is refused for the closed day alone, within opening hours. */
  lemma TuesdayEveningExample(now: int)
    requires now <= LocalMillis(Date(2024, 1, 2), Time(18, 0))
    ensures Violations(Date(2024, 1, 2), Time(18, 0), now) == [ClosedOnTuesday]
  {
    January2024Weekdays();
  }

  /** A reservation later on the same day is a later moment. */
  lemma LaterSameDay(date: Date, time: Time)
    requires ValidTime(time)
    ensures LocalMillis(date, Time(0, 0)) <= LocalMillis(date, time)
  {
    var day := DaysFromCivil(date);
    assert MillisAt(day, 0) <= MillisAt(day, MinuteOfDay(time));
  }

  /** Midnight starting 2024-01-03, in the milliseconds of LocalMillis. */
  const Midnight20240103: int := 19725 * 24 * 60 * 60 * 1000

  /** 2024-01-03 is day 19725 of the count and not a closed day. */
  lemma Wednesday20240103()
    ensures DaysFromCivil(Date(2024, 1, 3)) == 19725
    ensures !ClosedOn(Date(2024, 1, 3))
  {
    January2024Weekdays();
  }

  /** The moment 2024-01-03 00:00 is Midnight20240103. */
  lemma MidnightOf20240103()
    ensures LocalMillis(Date(2024, 1, 3), Time(0, 0)) == Midnight20240103
  {
    Wednesday20240103();
    assert MinuteOfDay(Time(0, 0)) == 0;
  }

  /** A slot that is not in the past nor on a closed day is judged by its time of day alone. */
  lemma OnlyHoursApply(date: Date, time: Time, now: int)
    requires !InPast(date, time, now) && !ClosedOn(date)
    ensures Violations(date, time, now) == HoursViolation(time)
  {
  }

  /** Seen from any moment up to its midnight, no time on 2024-01-03 is in the past. */
  lemma NotPastOnWednesday20240103(time: Time, now: int)
    requires ValidTime(time)
    requires now <= Midnight20240103
    ensures !InPast(Date(2024, 1, 3), time, now)
  {
    MidnightOf20240103();
    LaterSameDay(Date(2024, 1, 3), time);
  }

  /** On Wednesday 2024-01-03, seen from any earlier moment, only the opening-hours rule can apply. */
  lemma OnWednesday20240103(time: Time, now: int)
    requires ValidTime(time)
    requires now <= Midnight20240103
    ensures Violations(Date(2024, 1, 3), time, now) == HoursViolation(time)
  {
    Wednesday20240103();
    NotPastOnWednesday20240103(time, now);
    OnlyHoursApply(Date(2024, 1, 3), time, now);
  }

  /** On Wednesday 2024-01-03, 10:29 is before opening and 10:30 is bookable. */
  lemma WednesdayMorningExamples(now: int)
    requires now <= Midnight20240103
    ensures Violations(Date(2024, 1, 3), Time(10, 29), now) == [BeforeOpening]
    ensures Violations(Date(2024, 1, 3), Time(10, 30), now) == []
  {
    OnWednesday20240103(Time(10, 29), now);
    OnWednesday20240103(Time(10, 30), now);
  }

  /**
   * On Wednesday 2024-01-03, 21:30 is the latest bookable time, 21:45 is inside
   * the buffer before closing and 22:30 is after closing.
   */
  lemma WednesdayEveningExamples(now: int)
    requires now <= Midnight20240103
    ensures Violations(Date(2024, 1, 3), Time(21, 30), now) == []
    ensures Violations(Date(2024, 1, 3), Time(21, 45), now) == [TooCloseToClosing]
    ensures Violations(Date(2024, 1, 3), Time(22, 30), now) == [AfterClosing]
  {
    OnWednesday20240103(Time(21, 30), now);
    OnWednesday20240103(Time(21, 45), now);
    OnWednesday20240103(Time(22, 30), now);
  }

  /** The five rules have five different messages; in particular the two closing-time messages differ. */
  lemma MessagesDistinct(a: Msg, b: Msg)
    requires a != b
    ensures MessageText(a) != MessageText(b)
  {
  }
}
