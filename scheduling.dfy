/**
 * Time arithmetic and the collaborators shared by both drafts of the Apps Script backend.
 * Instants are JavaScript time values: integer milliseconds since the epoch, with no leap seconds.
 */
module Scheduling {
  import opened Wrappers

  const MsPerMinute := 60000
  const MsPerDay := 86400000
  /** The largest magnitude a `Date` can hold; beyond it the time value is `NaN` (ECMAScript TimeClip). */
  const MaxTimeValue := 8_640_000_000_000_000

  predicate ValidTime(t: int) { -MaxTimeValue <= t <= MaxTimeValue }

  /** A time range `[start, end)`: a free/busy entry or a slot. */
  datatype Interval = Interval(start: int, end: int)

  /** `WORKHOURS` / `workhours`: local hours `start` (inclusive) to `end` (exclusive). */
  datatype WorkHours = WorkHours(start: int, end: int)

  /** What `getHours()` and `getDay()` read from a slot start re-parsed in the target time zone. */
  datatype LocalTime = LocalTime(hour: int, weekday: int)

  /** The availability loops' conflict test: `event.start < end && event.end > start`. */
  predicate OverlapsHalfOpen(busy: Interval, slot: Interval) {
    busy.start < slot.end && busy.end > slot.start
  }

  /** The configured draft's booking conflict test: `eventStart <= endTime && eventEnd >= startTime`. */
  predicate OverlapsInclusive(busy: Interval, slot: Interval) {
    busy.start <= slot.end && busy.end >= slot.start
  }

  /** The inclusive test is the half-open one plus intervals that only touch the slot at an end point. */
  lemma InclusiveIsHalfOpenOrTouching(busy: Interval, slot: Interval)
    requires busy.start <= busy.end && slot.start <= slot.end
    ensures OverlapsInclusive(busy, slot) <==>
              OverlapsHalfOpen(busy, slot) || busy.end == slot.start || busy.start == slot.end
  {
  }

  lemma MulNonNegative(a: int, b: int)
    requires a >= 0 && b >= 0
    ensures a * b >= 0
  {
  }

  /** Euclidean division undoes multiplication by a positive width. */
  lemma MultipleOf(q: int, width: int)
    requires width > 0
    ensures (q * width) / width == q && (q * width) % width == 0
  {
    var x := q * width;
    var d, m := x / width, x % width;
    assert x == d * width + m;
    assert (q - d) * width == m;
    if q - d >= 1 {
      MulNonNegative(q - d - 1, width);
    } else if q - d <= -1 {
      MulNonNegative(d - q - 1, width);
    }
  }

  /** The quotient is the bucket that holds `x`. */
  lemma QuotientOfBucket(x: int, q: int, width: int)
    requires width > 0
    requires q * width <= x < q * width + width
    ensures x / width == q
  {
    var d := x / width;
    assert x == d * width + x % width;
    if d >= q + 1 {
      MulNonNegative(d - q - 1, width);
    } else if d <= q - 1 {
      MulNonNegative(q - d - 1, width);
    }
  }

  /** `Math.floor(t / width) * width`: the start of the width-sized bucket holding `t`. */
  function RoundDown(t: int, width: int): (r: int)
    requires width > 0
    ensures r <= t < r + width
    ensures r % width == 0
  {
    MultipleOf(t / width, width);
    (t / width) * width
  }

  /** Two instants in one bucket round to the same slot boundary. */
  lemma SameBucketSameStart(t1: int, t2: int, width: int)
    requires width > 0
    requires RoundDown(t1, width) <= t2 < RoundDown(t1, width) + width
    ensures RoundDown(t2, width) == RoundDown(t1, width)
  {
    QuotientOfBucket(t2, t1 / width, width);
  }

  /**
   * `Date.UTC(t.getUTCFullYear(), t.getUTCMonth(), t.getUTCDate() + days)`: UTC midnight `days` days
   * after the UTC day holding `t`.  With no leap seconds a day is always MsPerDay long.
   */
  function HorizonEnd(t: int, days: int): (r: int)
    ensures r % MsPerDay == 0
    ensures r - days * MsPerDay <= t < r - days * MsPerDay + MsPerDay
  {
    (t / MsPerDay + days) * MsPerDay
  }

  /** `end.setUTCMinutes(start.getUTCMinutes() + minutes)` on a copy of `start`. */
  function AddMinutes(t: int, minutes: int): (r: int)
    ensures r - t == minutes * MsPerMinute
  {
    t + minutes * MsPerMinute
  }

  /** A `Calendar.Freebusy.query` request. */
  datatype FreeBusyQuery = FreeBusyQuery(timeMin: int, timeMax: int, items: seq<string>)

  /** The `calendars` member of a free/busy answer: each calendar id's `busy` list. */
  type FreeBusyResponse = map<string, seq<Interval>>

  /** The options and target handed to `CalendarApp.getCalendarById(..).createEvent(..)`; `calendarId` is `None` for `undefined`. */
  datatype EventRequest = EventRequest(
    calendarId: Option<string>,
    title: string,
    start: int,
    end: int,
    description: string,
    guests: string,
    sendInvites: bool,
    status: string)

  /**
   * The host services both drafts call:
   * `parseDate` is `new Date(s)` (`None` for an unparseable string),
   * `toLocal` is the `Utilities.formatDate` / re-parse / `getHours`, `getDay` round trip for a zone,
   * `freeBusy` is `Calendar.Freebusy.query` (`Failure` carries the thrown message),
   * `createEvent` is event creation (`Some` carries the thrown message).
   */
  datatype Host = Host(
    parseDate: string -> Option<int>,
    toLocal: (string, int) -> LocalTime,
    freeBusy: FreeBusyQuery -> Result<FreeBusyResponse, string>,
    createEvent: EventRequest -> Option<string>)

  datatype Attendee = Attendee(name: string, email: string, phone: string, note: string)

  /** The two errors `bookTimeslot` throws: the first outside its try block, the second from its catch. */
  datatype BookingError = InvalidStartTime | FailedToCreateEvent(cause: string)

  function ErrorMessage(e: BookingError): (m: string)
    ensures e.FailedToCreateEvent? ==> m == "Failed to create event: " + e.cause
  {
    match e
    case InvalidStartTime => "Invalid start time"
    case FailedToCreateEvent(cause) => "Failed to create event: " + cause
  }

  const TimeslotNotAvailable := "Timeslot not available"
  /** The RangeError message of `toISOString` on a `NaN` date. */
  const InvalidTimeValue := "Invalid time value"
  /** The TypeError message of reading `.busy` from a calendar missing in the free/busy answer. */
  const MissingBusy := "Cannot read properties of undefined (reading 'busy')"

  /** `new Date(timeslot)` with `isNaN(getTime())` as `None`. */
  function StartInstant(host: Host, timeslot: string): (r: Option<int>)
    ensures r.Some? ==> ValidTime(r.value) && host.parseDate(timeslot) == r
    ensures r.None? <==> host.parseDate(timeslot).None? || !ValidTime(host.parseDate(timeslot).value)
  {
    match host.parseDate(timeslot)
    case Some(t) => if ValidTime(t) then Some(t) else None
    case None => None
  }

  function AppointmentTitle(name: string): string { "Appointment with " + name }

  function AppointmentDescription(phone: string, note: string): string { "Phone: " + phone + "\nNote: " + note }

  /** The request both drafts send once the conflict check passes. */
  function AppointmentRequest(calendarId: Option<string>, attendee: Attendee, start: int, end: int): (req: EventRequest)
    ensures req.calendarId == calendarId && req.start == start && req.end == end
    ensures req.guests == attendee.email
  {
    EventRequest(calendarId, AppointmentTitle(attendee.name), start, end,
                 AppointmentDescription(attendee.phone, attendee.note), attendee.email, true, "confirmed")
  }
}
