/**
 * The configurable draft of the Apps Script backend: a single calendar and the scheduling values read
 * from `getConfiguration()` instead of constants.
 */
module ConfiguredApp {
  import opened Wrappers
  import opened Scheduling
  import opened Timeslots

  /** What `getConfiguration()` returns (the CLI writes it from its configuration file). */
  datatype Configuration = Configuration(
    calendar: string,
    timeZone: string,
    workdays: seq<int>,
    workHours: WorkHours,
    daysInAdvance: int,
    timeslotDuration: int)

  /** This draft's own `{ timeslots, durationMinutes }` return literal, kept apart from the other draft's. */
  datatype Availability = Availability(timeslots: seq<int>, durationMinutes: int)

  function SlotWidth(config: Configuration): int { config.timeslotDuration * MsPerMinute }

  /** The free/busy query `fetchAvailability` sends: rounded present to horizon, for the one calendar. */
  function AvailabilityQuery(now: int, config: Configuration): (q: FreeBusyQuery)
    requires config.timeslotDuration > 0
    ensures q.timeMin <= now < q.timeMin + SlotWidth(config) && q.timeMin % SlotWidth(config) == 0
    ensures q.timeMax == HorizonEnd(q.timeMin, config.daysInAdvance)
    ensures q.items == [config.calendar]
  {
    var first := RoundDown(now, SlotWidth(config));
    FreeBusyQuery(first, HorizonEnd(first, config.daysInAdvance), [config.calendar])
  }

  lemma SameBucketSameQuery(now1: int, now2: int, config: Configuration)
    requires config.timeslotDuration > 0
    requires AvailabilityQuery(now1, config).timeMin <= now2 < AvailabilityQuery(now1, config).timeMin + SlotWidth(config)
    ensures AvailabilityQuery(now2, config) == AvailabilityQuery(now1, config)
  {
    SameBucketSameStart(now1, now2, SlotWidth(config));
  }

  function Rules(config: Configuration, busy: seq<Interval>): SlotRules {
    SlotRules(config.timeZone, config.workdays, config.workHours, SlotWidth(config), busy)
  }

  /**
   * `fetchAvailability`.  A zero duration makes the rounded start `NaN`, and a horizon past the `Date`
   * range makes `Date.UTC` give `NaN`; either way `toISOString` throws before the query.
   * Errors of the query and a calendar missing from its answer propagate uncaught.
   */
  method FetchAvailability(now: int, config: Configuration, host: Host) returns (r: Result<Availability, string>)
    requires config.timeslotDuration >= 0
    ensures config.timeslotDuration == 0 ==> r == Failure(InvalidTimeValue)
    ensures config.timeslotDuration > 0 ==>
      var q := AvailabilityQuery(now, config);
      if !ValidTime(q.timeMin) || !ValidTime(q.timeMax) then r == Failure(InvalidTimeValue)
      else if host.freeBusy(q).Failure? then r == Failure(host.freeBusy(q).error)
      else
        var response := host.freeBusy(q).value;
        if config.calendar !in response then r == Failure(MissingBusy)
        else r == Success(Availability(SlotsFrom(q.timeMin, q.timeMax, Rules(config, response[config.calendar]), host.toLocal),
                                       config.timeslotDuration))
    ensures r.Success? ==> r.value.durationMinutes == config.timeslotDuration && Spaced(r.value.timeslots, SlotWidth(config))
    ensures r.Success? ==> forall s | s in r.value.timeslots ::
              var q := AvailabilityQuery(now, config);
              var local := host.toLocal(config.timeZone, s);
              q.timeMin <= s && (s - q.timeMin) % SlotWidth(config) == 0 && s + SlotWidth(config) <= q.timeMax &&
              config.workHours.start <= local.hour < config.workHours.end && local.weekday in config.workdays &&
              Free(host.freeBusy(q).value[config.calendar], Interval(s, s + SlotWidth(config)))
  {
    if config.timeslotDuration == 0 {
      return Failure(InvalidTimeValue);
    }
    var q := AvailabilityQuery(now, config);
    if !ValidTime(q.timeMin) || !ValidTime(q.timeMax) {
      return Failure(InvalidTimeValue);
    }
    var answer := host.freeBusy(q);
    if answer.Failure? {
      return Failure(answer.error);
    }
    if config.calendar !in answer.value {
      return Failure(MissingBusy);
    }
    var rules := Rules(config, answer.value[config.calendar]);
    var slots := CollectTimeslots(q.timeMin, q.timeMax, rules, host.toLocal);
    SlotsFromOrdered(q.timeMin, q.timeMax, rules, host.toLocal);
    forall s | s in slots
      ensures q.timeMin <= s && (s - q.timeMin) % SlotWidth(config) == 0 && s + SlotWidth(config) <= q.timeMax &&
              Offered(rules, host.toLocal, s)
    {
      SlotsFromMembers(q.timeMin, q.timeMax, rules, host.toLocal, s);
    }
    r := Success(Availability(slots, config.timeslotDuration));
  }

  /** `busy.some(event => eventStart <= endTime && eventEnd >= startTime)`. */
  predicate Conflicts(busy: seq<Interval>, slot: Interval) {
    exists i | 0 <= i < |busy| :: OverlapsInclusive(busy[i], slot)
  }

  /**
   * On well-formed intervals the booking test rejects what the availability filter rejects, and also
   * a busy interval that only touches the slot at one of its end points.
   */
  lemma ConflictsIffOverlapsOrTouches(busy: seq<Interval>, slot: Interval)
    requires slot.start <= slot.end && forall i | 0 <= i < |busy| :: busy[i].start <= busy[i].end
    ensures Conflicts(busy, slot) <==>
              !Free(busy, slot) || exists i | 0 <= i < |busy| :: busy[i].end == slot.start || busy[i].start == slot.end
  {
    forall i | 0 <= i < |busy|
      ensures OverlapsInclusive(busy[i], slot) <==>
                OverlapsHalfOpen(busy[i], slot) || busy[i].end == slot.start || busy[i].start == slot.end
    {
      InclusiveIsHalfOpenOrTouching(busy[i], slot);
    }
  }

  /** The free/busy query `bookTimeslot` sends: exactly the requested slot, for the one calendar. */
  function BookingQuery(start: int, end: int, config: Configuration): FreeBusyQuery {
    FreeBusyQuery(start, end, [config.calendar])
  }

  /**
   * `bookTimeslot`: an invalid start throws before any query; every failure in the try block,
   * the conflict included, is rethrown with the "Failed to create event: " prefix.
   */
  function BookTimeslot(timeslot: string, attendee: Attendee, config: Configuration, host: Host): (r: Result<EventRequest, BookingError>)
    ensures r == Failure(InvalidStartTime) <==> StartInstant(host, timeslot).None?
    ensures StartInstant(host, timeslot).Some? ==>
      var start := StartInstant(host, timeslot).value;
      var end := AddMinutes(start, config.timeslotDuration);
      var answer := host.freeBusy(BookingQuery(start, end, config));
      var request := AppointmentRequest(Some(config.calendar), attendee, start, end);
      (!ValidTime(end) ==> r == Failure(FailedToCreateEvent(InvalidTimeValue))) &&
      (ValidTime(end) && answer.Failure? ==> r == Failure(FailedToCreateEvent(answer.error))) &&
      (ValidTime(end) && answer.Success? && config.calendar !in answer.value ==>
         r == Failure(FailedToCreateEvent(MissingBusy))) &&
      (ValidTime(end) && answer.Success? && config.calendar in answer.value &&
       Conflicts(answer.value[config.calendar], Interval(start, end)) ==>
         r == Failure(FailedToCreateEvent(TimeslotNotAvailable))) &&
      (ValidTime(end) && answer.Success? && config.calendar in answer.value &&
       !Conflicts(answer.value[config.calendar], Interval(start, end)) ==>
         if host.createEvent(request).None? then r == Success(request)
         else r == Failure(FailedToCreateEvent(host.createEvent(request).value)))
    ensures r.Success? ==>
              StartInstant(host, timeslot) == Some(r.value.start) &&
              r.value.end == r.value.start + config.timeslotDuration * MsPerMinute &&
              r.value == AppointmentRequest(Some(config.calendar), attendee, r.value.start, r.value.end) &&
              host.createEvent(r.value).None? &&
              host.freeBusy(BookingQuery(r.value.start, r.value.end, config)).Success? &&
              config.calendar in host.freeBusy(BookingQuery(r.value.start, r.value.end, config)).value &&
              !Conflicts(host.freeBusy(BookingQuery(r.value.start, r.value.end, config)).value[config.calendar],
                         Interval(r.value.start, r.value.end))
  {
    match StartInstant(host, timeslot)
    case None => Failure(InvalidStartTime)
    case Some(start) =>
      var end := AddMinutes(start, config.timeslotDuration);
      if !ValidTime(end) then Failure(FailedToCreateEvent(InvalidTimeValue))
      else match host.freeBusy(BookingQuery(start, end, config))
        case Failure(e) => Failure(FailedToCreateEvent(e))
        case Success(response) =>
          if config.calendar !in response then Failure(FailedToCreateEvent(MissingBusy))
          else if Conflicts(response[config.calendar], Interval(start, end)) then
            Failure(FailedToCreateEvent(TimeslotNotAvailable))
          else
            var request := AppointmentRequest(Some(config.calendar), attendee, start, end);
            match host.createEvent(request)
            case Some(e) => Failure(FailedToCreateEvent(e))
            case None => Success(request)
  }

  /** Every error other than an unparseable start carries the catch block's prefix. */
  lemma BookingErrorsWrapped(timeslot: string, attendee: Attendee, config: Configuration, host: Host)
    requires BookTimeslot(timeslot, attendee, config, host).Failure?
    requires StartInstant(host, timeslot).Some?
    ensures var m := ErrorMessage(BookTimeslot(timeslot, attendee, config, host).error);
      |m| >= 24 && m[..24] == "Failed to create event: "
  {
  }

  /**
   * A busy interval that ends exactly when the slot starts leaves the slot in the availability list
   * but makes booking it fail with the wrapped "Timeslot not available".
   */
  lemma TouchingIntervalBlocksBooking(timeslot: string, attendee: Attendee, config: Configuration, host: Host,
                                                         start: int, busyFrom: int)
    requires config.timeslotDuration > 0 && busyFrom <= start
    requires StartInstant(host, timeslot) == Some(start)
    requires ValidTime(AddMinutes(start, config.timeslotDuration))
    requires host.freeBusy(BookingQuery(start, AddMinutes(start, config.timeslotDuration), config)) ==
             Success(map[config.calendar := [Interval(busyFrom, start)]])
    ensures Free([Interval(busyFrom, start)], Interval(start, start + SlotWidth(config)))
    ensures BookTimeslot(timeslot, attendee, config, host) == Failure(FailedToCreateEvent(TimeslotNotAvailable))
  {
    var slot := Interval(start, AddMinutes(start, config.timeslotDuration));
    assert OverlapsInclusive([Interval(busyFrom, start)][0], slot);
  }
}
