/** The data shapes the scheduler works on: roster entries, bookings and
    requests, with instants as .NET `DateTime` tick counts. */
module Models {
  import opened Wrappers

  /** A `DateTime` as its tick count: 100-nanosecond intervals since
      0001-01-01 00:00. Ticks are never negative, and `DateTime`'s
      comparison operators compare ticks only. */
  type Instant = nat

  const TicksPerSecond: nat := 10_000_000
  const TicksPerHour: nat := 3600 * TicksPerSecond
  const TicksPerDay: nat := 24 * TicksPerHour

  /** `System.DayOfWeek`, in the order of its numeric values (Sunday = 0). */
  datatype DayOfWeek = Sunday | Monday | Tuesday | Wednesday | Thursday | Friday | Saturday

  function DayOfWeekFromIndex(i: int): (d: DayOfWeek)
    requires 0 <= i < 7
    ensures DayOfWeekIndex(d) == i
  {
    match i
    case 0 => Sunday
    case 1 => Monday
    case 2 => Tuesday
    case 3 => Wednesday
    case 4 => Thursday
    case 5 => Friday
    case _ => Saturday
  }

  function DayOfWeekIndex(d: DayOfWeek): (i: int)
    ensures 0 <= i < 7
  {
    match d
    case Sunday => 0
    case Monday => 1
    case Tuesday => 2
    case Wednesday => 3
    case Thursday => 4
    case Friday => 5
    case Saturday => 6
  }

  /** `DateTime.DayOfWeek`: day 0 (0001-01-01) was a Monday. */
  function Weekday(t: Instant): (d: DayOfWeek)
    ensures t < TicksPerDay ==> d == Monday
    ensures DayOfWeekIndex(d) == (t / TicksPerDay + 1) % 7
  {
    DayOfWeekFromIndex(((t / TicksPerDay) + 1) % 7)
  }

  /** `DateTime.Date`: midnight at the start of the instant's day. */
  function DateOf(t: Instant): (d: Instant)
    ensures d <= t < d + TicksPerDay && d % TicksPerDay == 0
  {
    t - t % TicksPerDay
  }

  /** The day number of an instant: its midnight has the same one, and the
      same instant a day later has the next one. */
  lemma DayNumber(t: Instant)
    ensures DateOf(t) / TicksPerDay == t / TicksPerDay
    ensures (t + TicksPerDay) / TicksPerDay == t / TicksPerDay + 1
  {
    var q := t / TicksPerDay;
    assert t == q * TicksPerDay + t % TicksPerDay;
    assert DateOf(t) == q * TicksPerDay;
  }

  /** Midnight and every instant of the same day share a weekday, and the
      weekday advances by one each day. */
  lemma WeekdayOfDay(t: Instant)
    ensures Weekday(DateOf(t)) == Weekday(t)
    ensures DayOfWeekIndex(Weekday(t + TicksPerDay)) == (DayOfWeekIndex(Weekday(t)) + 1) % 7
  {
    DayNumber(t);
    var q := t / TicksPerDay;
    assert ((q + 1) % 7 + 1) % 7 == (q + 2) % 7;
  }

  /** The home bases. The enum's declaration is not part of this model;
      these are the members the tests name, and the resolver only ever
      compares bases for equality. */
  datatype Base = Berlin | Munich

  /** `PilotWorkSchedule`: a roster entry. */
  datatype WorkSchedule = WorkSchedule(
    pilotId: int,
    name: string,
    base: Base,
    workDays: seq<DayOfWeek>)

  /** `PilotScheduleInfo` (domain model): one booked trip or reservation. */
  datatype Booking = Booking(
    pilotId: int,
    departureDateTime: Instant,
    returnDateTime: Instant,
    reservationKey: Option<string>,
    reservationTime: Instant,
    isConfirmed: bool)

  /** `PilotScheduleRequest`: the trip a pilot is wanted for. */
  datatype ScheduleRequest = ScheduleRequest(
    location: Base,
    departureDateTime: Instant,
    returnDateTime: Instant)

  /** `PilotScheduleConfirmationRequest`. */
  datatype ConfirmationRequest = ConfirmationRequest(
    location: Option<string>,
    departureDateTime: Instant,
    returnDateTime: Instant,
    pilotId: int,
    reservationKey: Option<string>)

  /** `PilotScheduleConfirmationResult`. */
  datatype ConfirmationResult = ConfirmationResult(isConfirmed: bool)
}
