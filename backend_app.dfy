/**
 * The multi-calendar draft of the Apps Script backend: a list of monitored calendars read from a script
 * property, fixed scheduling constants, `fetchAvailability` and `bookTimeslot`.
 */
module MultiCalendarApp {
  import opened Wrappers
  import opened Scheduling
  import opened Timeslots

  const TimeZone := "America/Los_Angeles"
  const Workdays: seq<int> := [1, 2, 3, 4, 5]
  const Hours := WorkHours(9, 16)
  const DaysInAdvance := 28
  const TimeslotDuration := 30
  /** `TSDURMS`: the slot width in milliseconds. */
  const SlotWidth := TimeslotDuration * MsPerMinute

  /** The shapes `JSON.parse` can give the `CALENDARS` property that matter here. */
  datatype JsonValue = StringArray(items: seq<string>) | OtherJson

  /**
   * `CALENDARS`: the parsed property when it is set, non-empty and parses to an array, else `["primary"]`.
   * `parseJson` is `JSON.parse`, with `None` for a string it throws on.
   */
  function ReadCalendars(property: Option<string>, parseJson: string -> Option<JsonValue>): (calendars: seq<string>)
    ensures calendars != ["primary"] ==>
              property.Some? && property.value != "" && parseJson(property.value) == Some(StringArray(calendars))
    ensures (property.Some? && property.value != "" && parseJson(property.value).Some? &&
             parseJson(property.value).value.StringArray?) ==> calendars == parseJson(property.value).value.items
    ensures property.None? || property == Some("") ==> calendars == ["primary"]
  {
    match property
    case None => ["primary"]
    case Some(text) =>
      if text == "" then ["primary"]
      else match parseJson(text)
        case Some(StringArray(ids)) => ids
        case _ => ["primary"]
  }

  /** This draft's own `{ timeslots, durationMinutes }` return literal, kept apart from the other draft's. */
  datatype Availability = Availability(timeslots: seq<int>, durationMinutes: int)

  /** The free/busy query `fetchAvailability` sends: from the rounded present to the horizon, for every calendar. */
  function AvailabilityQuery(now: int, calendars: seq<string>): (q: FreeBusyQuery)
    ensures q.timeMin <= now < q.timeMin + SlotWidth && q.timeMin % SlotWidth == 0
    ensures q.timeMax == HorizonEnd(q.timeMin, DaysInAdvance)
    ensures q.items == calendars
  {
    var first := RoundDown(now, SlotWidth);
    FreeBusyQuery(first, HorizonEnd(first, DaysInAdvance), calendars)
  }

  /** The rounding makes the query, and so everything `fetchAvailability` computes, constant on a 30-minute bucket. */
  lemma SameBucketSameQuery(now1: int, now2: int, calendars: seq<string>)
    requires AvailabilityQuery(now1, calendars).timeMin <= now2 < AvailabilityQuery(now1, calendars).timeMin + SlotWidth
    ensures AvailabilityQuery(now2, calendars) == AvailabilityQuery(now1, calendars)
  {
    SameBucketSameStart(now1, now2, SlotWidth);
  }

  /**
   * `CALENDARS.map(id => response.calendars[id].busy ...).reduce(concat)`: every calendar's busy
   * intervals in calendar order; reading a calendar missing from the answer throws.
   */
  function CollectBusy(calendars: seq<string>, response: FreeBusyResponse): (r: Result<seq<Interval>, string>)
    ensures r.Failure? <==> exists k | 0 <= k < |calendars| :: calendars[k] !in response
    ensures r.Failure? ==> r.error == MissingBusy
    ensures r.Success? ==> forall slot: Interval :: Free(r.value, slot) <==>
              forall k | 0 <= k < |calendars| :: Free(response[calendars[k]], slot)
  {
    if calendars == [] then Success([])
    else if calendars[0] !in response then Failure(MissingBusy)
    else match CollectBusy(calendars[1..], response)
      case Failure(e) => Failure(e)
      case Success(rest) =>
        var all := response[calendars[0]] + rest;
        assert forall slot: Interval :: Free(all, slot) <==> Free(response[calendars[0]], slot) && Free(rest, slot) by {
          forall slot: Interval { FreeConcat(response[calendars[0]], rest, slot); }
        }
        assert forall k | 1 <= k < |calendars| :: calendars[k] == calendars[1..][k - 1];
        Success(all)
  }

  function Rules(busy: seq<Interval>): SlotRules {
    SlotRules(TimeZone, Workdays, Hours, SlotWidth, busy)
  }

  /**
   * `fetchAvailability`: query free/busy for the window, flatten the busy lists, then run the slot loop.
   * A window bound outside the `Date` range makes `toISOString` throw before the query; errors from the
   * query or from a missing calendar propagate uncaught.
   */
  method FetchAvailability(now: int, calendars: seq<string>, host: Host) returns (r: Result<Availability, string>)
    ensures var q := AvailabilityQuery(now, calendars);
      if !ValidTime(q.timeMin) || !ValidTime(q.timeMax) then r == Failure(InvalidTimeValue)
      else if host.freeBusy(q).Failure? then r == Failure(host.freeBusy(q).error)
      else if CollectBusy(calendars, host.freeBusy(q).value).Failure? then
        r == Failure(CollectBusy(calendars, host.freeBusy(q).value).error)
      else
        var busy := CollectBusy(calendars, host.freeBusy(q).value).value;
        r == Success(Availability(SlotsFrom(q.timeMin, q.timeMax, Rules(busy), host.toLocal), TimeslotDuration))
    ensures r.Success? ==> Spaced(r.value.timeslots, SlotWidth)
    ensures r.Success? ==> forall s | s in r.value.timeslots ::
              var q := AvailabilityQuery(now, calendars);
              var local := host.toLocal(TimeZone, s);
              q.timeMin <= s && (s - q.timeMin) % SlotWidth == 0 && s + SlotWidth <= q.timeMax &&
              Hours.start <= local.hour < Hours.end && local.weekday in Workdays &&
              forall k | 0 <= k < |calendars| :: Free(host.freeBusy(q).value[calendars[k]], Interval(s, s + SlotWidth))
  {
    var q := AvailabilityQuery(now, calendars);
    if !ValidTime(q.timeMin) || !ValidTime(q.timeMax) {
      return Failure(InvalidTimeValue);
    }
    var answer := host.freeBusy(q);
    if answer.Failure? {
      return Failure(answer.error);
    }
    var busy := CollectBusy(calendars, answer.value);
    if busy.Failure? {
      return Failure(busy.error);
    }
    var slots := CollectTimeslots(q.timeMin, q.timeMax, Rules(busy.value), host.toLocal);
    SlotsFromOrdered(q.timeMin, q.timeMax, Rules(busy.value), host.toLocal);
    forall s | s in slots
      ensures q.timeMin <= s && (s - q.timeMin) % SlotWidth == 0 && s + SlotWidth <= q.timeMax &&
              Offered(Rules(busy.value), host.toLocal, s)
    {
      SlotsFromMembers(q.timeMin, q.timeMax, Rules(busy.value), host.toLocal, s);
    }
    r := Success(Availability(slots, TimeslotDuration));
  }

  /** Every calendar is in the answer with an empty busy list. */
  predicate AllClear(calendars: seq<string>, response: FreeBusyResponse) {
    forall k | 0 <= k < |calendars| :: calendars[k] in response && response[calendars[k]] == []
  }

  /** Calendar `k` is the first one `some` finds busy: all before it are present and clear. */
  predicate FirstBusyAt(calendars: seq<string>, response: FreeBusyResponse, k: int) {
    0 <= k < |calendars| && calendars[k] in response && response[calendars[k]] != [] &&
    AllClear(calendars[..k], response)
  }

  /** `CALENDARS.some(id => response.calendars[id].busy.length > 0)`, which throws on the first missing calendar it reaches. */
  function AnyBusy(calendars: seq<string>, response: FreeBusyResponse): (r: Result<bool, string>)
    ensures r == Success(false) <==> AllClear(calendars, response)
    ensures r == Success(true) <==> (exists k :: FirstBusyAt(calendars, response, k))
    ensures r.Failure? ==> r.error == MissingBusy
  {
    if calendars == [] then Success(false)
    else if calendars[0] !in response then
      assert forall k :: !FirstBusyAt(calendars, response, k) by {
        forall k | 0 < k < |calendars| ensures !AllClear(calendars[..k], response) {
          assert calendars[..k][0] == calendars[0];
        }
      }
      Failure(MissingBusy)
    else if response[calendars[0]] != [] then
      assert FirstBusyAt(calendars, response, 0);
      Success(true)
    else
      var r := AnyBusy(calendars[1..], response);
      assert AllClear(calendars, response) <==> AllClear(calendars[1..], response) by {
        assert forall k | 1 <= k < |calendars| :: calendars[k] == calendars[1..][k - 1];
      }
      assert forall k :: FirstBusyAt(calendars, response, k + 1) <==> FirstBusyAt(calendars[1..], response, k) by {
        forall k ensures FirstBusyAt(calendars, response, k + 1) <==> FirstBusyAt(calendars[1..], response, k) {
          if 0 <= k < |calendars| - 1 {
            assert calendars[..k + 1] == [calendars[0]] + calendars[1..][..k];
          }
        }
      }
      assert !FirstBusyAt(calendars, response, 0);
      assert (exists k :: FirstBusyAt(calendars, response, k)) ==> exists k :: FirstBusyAt(calendars[1..], response, k) by {
        if k :| FirstBusyAt(calendars, response, k) {
          assert FirstBusyAt(calendars[1..], response, k - 1);
        }
      }
      r
  }

  /** `some` stops with `true` at a busy calendar when every calendar before it is in the answer. */
  lemma {:induction false} AnyBusyFindsBusy(calendars: seq<string>, response: FreeBusyResponse, k: nat)
    requires k < |calendars| && (forall j | 0 <= j <= k :: calendars[j] in response)
    requires response[calendars[k]] != []
    ensures AnyBusy(calendars, response) == Success(true)
  {
    if k > 0 && response[calendars[0]] == [] {
      AnyBusyFindsBusy(calendars[1..], response, k - 1);
    }
  }

  /** The free/busy query `bookTimeslot` sends: exactly the requested slot, for every calendar. */
  function BookingQuery(start: int, end: int, calendars: seq<string>): FreeBusyQuery {
    FreeBusyQuery(start, end, calendars)
  }

  /**
   * `bookTimeslot`: an invalid start throws before any query; otherwise every failure in the
   * query/check/create block, the conflict included, comes back wrapped by the catch.
   */
  function BookTimeslot(timeslot: string, attendee: Attendee, calendars: seq<string>, host: Host): (r: Result<EventRequest, BookingError>)
    ensures r == Failure(InvalidStartTime) <==> StartInstant(host, timeslot).None?
    ensures StartInstant(host, timeslot).Some? ==>
      var start := StartInstant(host, timeslot).value;
      var end := AddMinutes(start, TimeslotDuration);
      var answer := host.freeBusy(BookingQuery(start, end, calendars));
      var request := AppointmentRequest(if calendars == [] then None else Some(calendars[0]), attendee, start, end);
      (!ValidTime(end) ==> r == Failure(FailedToCreateEvent(InvalidTimeValue))) &&
      (ValidTime(end) && answer.Failure? ==> r == Failure(FailedToCreateEvent(answer.error))) &&
      (ValidTime(end) && answer.Success? && AnyBusy(calendars, answer.value).Failure? ==>
         r == Failure(FailedToCreateEvent(MissingBusy))) &&
      (ValidTime(end) && answer.Success? && (exists k :: FirstBusyAt(calendars, answer.value, k)) ==>
         r == Failure(FailedToCreateEvent(TimeslotNotAvailable))) &&
      (ValidTime(end) && answer.Success? && AllClear(calendars, answer.value) ==>
         if host.createEvent(request).None? then r == Success(request)
         else r == Failure(FailedToCreateEvent(host.createEvent(request).value)))
    ensures r.Success? ==>
              StartInstant(host, timeslot) == Some(r.value.start) &&
              r.value.end == r.value.start + TimeslotDuration * MsPerMinute &&
              r.value.calendarId == (if calendars == [] then None else Some(calendars[0])) &&
              r.value == AppointmentRequest(r.value.calendarId, attendee, r.value.start, r.value.end) &&
              host.freeBusy(BookingQuery(r.value.start, r.value.end, calendars)).Success? &&
              host.createEvent(r.value).None? &&
              forall k | 0 <= k < |calendars| ::
                calendars[k] in host.freeBusy(BookingQuery(r.value.start, r.value.end, calendars)).value &&
                host.freeBusy(BookingQuery(r.value.start, r.value.end, calendars)).value[calendars[k]] == []
  {
    match StartInstant(host, timeslot)
    case None => Failure(InvalidStartTime)
    case Some(start) =>
      var end := AddMinutes(start, TimeslotDuration);
      if !ValidTime(end) then Failure(FailedToCreateEvent(InvalidTimeValue))
      else match host.freeBusy(BookingQuery(start, end, calendars))
        case Failure(e) => Failure(FailedToCreateEvent(e))
        case Success(response) =>
          match AnyBusy(calendars, response)
          case Failure(e) => Failure(FailedToCreateEvent(e))
          case Success(true) => Failure(FailedToCreateEvent(TimeslotNotAvailable))
          case Success(false) =>
            var request := AppointmentRequest(if calendars == [] then None else Some(calendars[0]), attendee, start, end);
            match host.createEvent(request)
            case Some(e) => Failure(FailedToCreateEvent(e))
            case None => Success(request)
  }

  /** Some monitored calendar busy in the booking window: the wrapped "Timeslot not available". */
  lemma BookingConflictRejected(timeslot: string, attendee: Attendee, calendars: seq<string>, host: Host,
                                start: int, response: FreeBusyResponse, k: nat)
    requires StartInstant(host, timeslot) == Some(start)
    requires ValidTime(AddMinutes(start, TimeslotDuration))
    requires host.freeBusy(BookingQuery(start, AddMinutes(start, TimeslotDuration), calendars)) == Success(response)
    requires k < |calendars| && (forall j | 0 <= j <= k :: calendars[j] in response)
    requires response[calendars[k]] != []
    ensures BookTimeslot(timeslot, attendee, calendars, host) == Failure(FailedToCreateEvent(TimeslotNotAvailable))
    ensures ErrorMessage(BookTimeslot(timeslot, attendee, calendars, host).error) == "Failed to create event: Timeslot not available"
  {
    AnyBusyFindsBusy(calendars, response, k);
  }

  /** The busy intervals of one calendar that a free/busy answer for `window` reports. */
  function OverlappingOnly(busy: seq<Interval>, window: Interval): (r: seq<Interval>)
    ensures r == [] <==> Free(busy, window)
  {
    if busy == [] then []
    else
      var rest := OverlappingOnly(busy[1..], window);
      assert Free(busy, window) <==> !OverlapsHalfOpen(busy[0], window) && Free(busy[1..], window) by {
        assert busy == [busy[0]] + busy[1..];
        FreeConcat([busy[0]], busy[1..], window);
      }
      if OverlapsHalfOpen(busy[0], window) then [busy[0]] + rest else rest
  }

  /**
   * When the booking query reports, for each calendar, exactly the busy intervals overlapping the slot,
   * booking's conflict check rejects exactly the slots the availability filter leaves out.
   */
  lemma {:induction false} BookingAgreesWithAvailability(calendars: seq<string>, busyNow: FreeBusyResponse, answer: FreeBusyResponse, window: Interval)
    requires forall k | 0 <= k < |calendars| :: calendars[k] in busyNow && calendars[k] in answer &&
               answer[calendars[k]] == OverlappingOnly(busyNow[calendars[k]], window)
    ensures CollectBusy(calendars, busyNow).Success?
    ensures AnyBusy(calendars, answer) == Success(!Free(CollectBusy(calendars, busyNow).value, window))
  {
    if calendars != [] {
      var c := calendars[0];
      BookingAgreesWithAvailability(calendars[1..], busyNow, answer, window);
      var rest := CollectBusy(calendars[1..], busyNow).value;
      assert CollectBusy(calendars, busyNow) == Success(busyNow[c] + rest);
      FreeConcat(busyNow[c], rest, window);
    }
  }
}
