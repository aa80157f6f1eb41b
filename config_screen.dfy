/**
 * The settings screen: the edits it makes to the configuration before it is stored, and the checks
 * that decide whether it may be stored.
 */
module ConfigScreen {
  import opened Wrappers
  import opened Scheduling
  import opened EventTypeModel
  import opened SeqUtil
  import opened IntSort
  import opened JsText
  import CalendarMultiSelect

  // ---------------------------------------------------------------- duplicate slugs

  /** `config.eventTypes.map(et => et.id)`. */
  function EventTypeIds(ets: seq<EventType>): (r: seq<string>)
    ensures |r| == |ets| && forall i | 0 <= i < |ets| :: r[i] == ets[i].id
  {
    seq(|ets|, i requires 0 <= i < |ets| => ets[i].id)
  }

  predicate OccursTwice(ids: seq<string>, x: string) {
    exists i, j | 0 <= i < j < |ids| :: ids[i] == x && ids[j] == x
  }

  /** `ids.filter((id, index) => ids.indexOf(id) !== index)`, over the positions from `from` on. */
  function Repeats(ids: seq<string>, from: nat): (r: seq<string>)
    requires from <= |ids|
    decreases |ids| - from
  {
    if from == |ids| then []
    else (if IndexOf(ids, ids[from]) != from then [ids[from]] else []) + Repeats(ids, from + 1)
  }

  lemma {:induction false} RepeatsMembers(ids: seq<string>, from: nat, x: string)
    requires from <= |ids|
    ensures x in Repeats(ids, from) <==> exists i | from <= i < |ids| :: ids[i] == x && IndexOf(ids, x) != i
    decreases |ids| - from
  {
    if from < |ids| {
      RepeatsMembers(ids, from + 1, x);
      var head := if IndexOf(ids, ids[from]) != from then [ids[from]] else [];
      assert Repeats(ids, from) == head + Repeats(ids, from + 1);
      assert x in head <==> ids[from] == x && IndexOf(ids, x) != from;
      if exists i | from <= i < |ids| :: ids[i] == x && IndexOf(ids, x) != i {
        var i :| from <= i < |ids| && ids[i] == x && IndexOf(ids, x) != i;
        if i > from {
          assert x in Repeats(ids, from + 1);
        }
      }
    }
  }

  /** An id sits at a position other than its first exactly when it occurs twice. */
  lemma RepeatedIffOccursTwice(ids: seq<string>, x: string)
    ensures (exists i | 0 <= i < |ids| :: ids[i] == x && IndexOf(ids, x) != i) <==> OccursTwice(ids, x)
  {
    if exists i | 0 <= i < |ids| :: ids[i] == x && IndexOf(ids, x) != i {
      var i :| 0 <= i < |ids| && ids[i] == x && IndexOf(ids, x) != i;
      assert 0 <= IndexOf(ids, x) < i;
    }
    if OccursTwice(ids, x) {
      var i, j :| 0 <= i < j < |ids| && ids[i] == x && ids[j] == x;
      assert IndexOf(ids, x) <= i;
    }
  }

  /** `[...new Set(s)]` once `seen` has been inserted: first occurrences, in order. */
  function SetOrder(s: seq<string>, seen: set<string>): (r: seq<string>)
    ensures Distinct(r)
    ensures forall k | 0 <= k < |r| :: r[k] in s && r[k] !in seen
    ensures forall i | 0 <= i < |s| && s[i] !in seen :: s[i] in r
  {
    if s == [] then []
    else if s[0] in seen then SetOrder(s[1..], seen)
    else [s[0]] + SetOrder(s[1..], seen + {s[0]})
  }

  /** `duplicateIds`: every id used by more than one event type, each once. */
  function DuplicateIds(ets: seq<EventType>): (r: seq<string>)
    ensures Distinct(r)
    ensures forall x :: x in r <==> OccursTwice(EventTypeIds(ets), x)
  {
    var ids := EventTypeIds(ets);
    var r := SetOrder(Repeats(ids, 0), {});
    assert forall x :: x in r <==> OccursTwice(ids, x) by {
      forall x ensures x in r <==> OccursTwice(ids, x) {
        RepeatsMembers(ids, 0, x);
        RepeatedIffOccursTwice(ids, x);
      }
    }
    r
  }

  lemma NoDuplicatesIffDistinct(ets: seq<EventType>)
    ensures DuplicateIds(ets) == [] <==> Distinct(EventTypeIds(ets))
  {
    var ids := EventTypeIds(ets);
    if DuplicateIds(ets) != [] {
      assert OccursTwice(ids, DuplicateIds(ets)[0]);
    }
    if !Distinct(ids) {
      var i, j :| 0 <= i < j < |ids| && ids[i] == ids[j];
      assert OccursTwice(ids, ids[i]);
    }
  }

  /** The save button: enabled unless a save is in flight or two event types share a slug. */
  function SaveButtonEnabled(saving: bool, config: Config): (r: bool)
    ensures r <==> !saving && Distinct(EventTypeIds(config.eventTypes))
  {
    NoDuplicatesIffDistinct(config.eventTypes);
    !(saving || |DuplicateIds(config.eventTypes)| > 0)
  }

  // ---------------------------------------------------------------- save validation

  datatype SaveRefusal = WindowTooLong | DurationTooLong(name: string) | MissingSlug

  /** The alert shown for a refusal. */
  function RefusalAlert(r: SaveRefusal): string {
    match r
    case WindowTooLong => "Scheduling window cannot exceed 90 days."
    case DurationTooLong(name) => "Duration for " + name + " cannot exceed 1440 minutes."
    case MissingSlug => "All event types must have a slug/id."
  }

  /** `Proceed`: the screen goes on to store the configuration. */
  datatype SaveDecision = Proceed | Refuse(reason: SaveRefusal)

  const MaxDaysInAdvance := 90
  const MaxDurationMinutes := 1440

  predicate Storable(et: EventType) {
    et.duration <= MaxDurationMinutes && et.id != []
  }

  /** The entry at `k` is the first that cannot be stored. */
  predicate FirstUnstorable(ets: seq<EventType>, k: int) {
    0 <= k < |ets| && !Storable(ets[k]) && forall j | 0 <= j < k :: Storable(ets[j])
  }

  /** The refusal for an entry that cannot be stored: the duration is checked before the slug. */
  function RefusalFor(et: EventType): SaveRefusal {
    if et.duration > MaxDurationMinutes then DurationTooLong(et.name) else MissingSlug
  }

  /** `handleSave`, up to the point where it hands the configuration to the server. */
  method HandleSave(config: Config) returns (d: SaveDecision)
    ensures config.daysInAdvance > MaxDaysInAdvance ==> d == Refuse(WindowTooLong)
    ensures config.daysInAdvance <= MaxDaysInAdvance ==>
      (d == Proceed <==> forall k | 0 <= k < |config.eventTypes| :: Storable(config.eventTypes[k]))
    ensures config.daysInAdvance <= MaxDaysInAdvance ==>
      forall k | FirstUnstorable(config.eventTypes, k) :: d == Refuse(RefusalFor(config.eventTypes[k]))
  {
    if config.daysInAdvance > MaxDaysInAdvance {
      return Refuse(WindowTooLong);
    }
    var ets := config.eventTypes;
    for i := 0 to |ets|
      invariant forall j | 0 <= j < i :: Storable(ets[j])
    {
      var et := ets[i];
      if et.duration > MaxDurationMinutes {
        assert FirstUnstorable(ets, i);
        return Refuse(DurationTooLong(et.name));
      }
      if et.id == [] {
        assert FirstUnstorable(ets, i);
        return Refuse(MissingSlug);
      }
    }
    return Proceed;
  }

  // ---------------------------------------------------------------- workdays

  /** The workday toggle: a selected day is removed, any other day is added and the list sorted. */
  function ToggleDay(days: seq<int>, d: int): (r: seq<int>)
    ensures d in r <==> d !in days
    ensures forall i | 0 <= i < |days| && days[i] != d :: days[i] in r
    ensures forall i | 0 <= i < |r| && r[i] != d :: r[i] in days
    ensures d in days ==> r == Without(days, d) && multiset(r) == multiset(days)[d := 0]
    ensures d !in days ==> Sorted(r) && multiset(r) == multiset(days) + multiset{d}
  {
    if d in days then Without(days, d)
    else
      var r := Sort(days + [d]);
      SameMembers(days + [d], r);
      assert (days + [d])[|days|] == d;
      assert forall i | 0 <= i < |days| :: (days + [d])[i] == days[i];
      r
  }

  lemma SameMembers(a: seq<int>, b: seq<int>)
    requires multiset(a) == multiset(b)
    ensures forall i | 0 <= i < |a| :: a[i] in b
    ensures forall i | 0 <= i < |b| :: b[i] in a
  {
    forall i | 0 <= i < |a| ensures a[i] in b {
      assert a[i] in multiset(a);
    }
    forall i | 0 <= i < |b| ensures b[i] in a {
      assert b[i] in multiset(b);
    }
  }

  lemma ToggleDayKeepsSortedDistinct(days: seq<int>, d: int)
    requires Sorted(days) && Distinct(days)
    ensures Sorted(ToggleDay(days, d)) && Distinct(ToggleDay(days, d))
  {
    if d in days {
      WithoutKeepsSorted(days, d);
      WithoutKeepsDistinct(days, d);
    } else {
      DistinctPermutation(days + [d], ToggleDay(days, d));
    }
  }

  /** On a sorted list without repeats, toggling the same day twice gives the list back. */
  lemma ToggleDayTwice(days: seq<int>, d: int)
    requires Sorted(days) && Distinct(days)
    ensures ToggleDay(ToggleDay(days, d), d) == days
  {
    var once := ToggleDay(days, d);
    var twice := ToggleDay(once, d);
    ToggleDayKeepsSortedDistinct(days, d);
    ToggleDayKeepsSortedDistinct(once, d);
    if d in days {
      DistinctCount(days, d);
      assert multiset(twice) == multiset(days);
    } else {
      assert multiset(days)[d] == 0;
      assert multiset(twice) == multiset(days);
    }
    SortedUnique(twice, days);
  }

  /** `toggleWorkday` on the global workdays. */
  function ToggleWorkday(config: Config, d: int): (r: Config)
    ensures r.(workdays := config.workdays) == config
    ensures d in r.workdays <==> d !in config.workdays
    ensures forall x | x != d :: x in r.workdays <==> x in config.workdays
    ensures r.workdays == ToggleDay(config.workdays, d)
  {
    config.(workdays := ToggleDay(config.workdays, d))
  }

  lemma ToggleWorkdayTwice(config: Config, d: int)
    requires Sorted(config.workdays) && Distinct(config.workdays)
    ensures ToggleWorkday(ToggleWorkday(config, d), d) == config
  {
    ToggleDayTwice(config.workdays, d);
  }

  // ---------------------------------------------------------------- event types

  const NewEventTypePrefix := "type-"

  /** The entry `addEventType` creates at time `nowMs`; its optional fields are absent, so it inherits. */
  function NewEventType(nowMs: int): EventType {
    EventType(NewEventTypePrefix + IntToString(nowMs), "New Event Type", 30, true,
              None, None, None, None, None, None)
  }

  /** The new entry's slug is the prefix followed by the creation time, which can be read back from it. */
  lemma NewEventTypeSlug(nowMs: int)
    ensures NewEventType(nowMs).id[..|NewEventTypePrefix|] == NewEventTypePrefix
    ensures ParseInt(NewEventType(nowMs).id[|NewEventTypePrefix|..], Ten) == Some(nowMs)
    ensures Storable(NewEventType(nowMs))
  {
    assert NewEventType(nowMs).id[|NewEventTypePrefix|..] == IntToString(nowMs);
    ParseIntOfIntToString(nowMs, Ten);
  }

  /** `addEventType`: appends the new entry. */
  function AddEventType(config: Config, nowMs: int): (r: Config)
    ensures r.(eventTypes := config.eventTypes) == config
    ensures |r.eventTypes| == |config.eventTypes| + 1
    ensures r.eventTypes[..|config.eventTypes|] == config.eventTypes
    ensures r.eventTypes[|config.eventTypes|] == NewEventType(nowMs)
  {
    config.(eventTypes := config.eventTypes + [NewEventType(nowMs)])
  }

  /** Adding keeps the slugs unique when the new slug is not yet taken. */
  lemma AddEventTypeKeepsSlugsUnique(config: Config, nowMs: int)
    requires Distinct(EventTypeIds(config.eventTypes))
    requires NewEventType(nowMs).id !in EventTypeIds(config.eventTypes)
    ensures Distinct(EventTypeIds(AddEventType(config, nowMs).eventTypes))
  {
    var ids := EventTypeIds(AddEventType(config, nowMs).eventTypes);
    assert ids == EventTypeIds(config.eventTypes) + [NewEventType(nowMs).id];
  }

  const LastEventTypeAlert := "You must have at least one event type."

  /** `removeEventType`: refuses to remove the last entry, otherwise drops the entry at `index`. */
  function RemoveEventType(config: Config, index: int): (r: Result<Config, string>)
    ensures |config.eventTypes| <= 1 <==> r == Failure(LastEventTypeAlert)
    ensures r.Success? ==> r.value.(eventTypes := config.eventTypes) == config && |r.value.eventTypes| >= 1
    ensures r.Success? && 0 <= index < |config.eventTypes| ==>
      r.value.eventTypes == config.eventTypes[..index] + config.eventTypes[index + 1..]
    ensures r.Success? && !(0 <= index < |config.eventTypes|) ==> r.value == config
  {
    if |config.eventTypes| <= 1 then Failure(LastEventTypeAlert)
    else Success(config.(eventTypes := ExceptAt(config.eventTypes, index)))
  }

  /** Removing the entry just added gives the configuration back. */
  lemma AddThenRemove(config: Config, nowMs: int)
    requires |config.eventTypes| >= 1
    ensures RemoveEventType(AddEventType(config, nowMs), |config.eventTypes|) == Success(config)
  {
    var ets := AddEventType(config, nowMs).eventTypes;
    assert ets[..|config.eventTypes|] + ets[|config.eventTypes| + 1..] == config.eventTypes;
  }

  /**
   * `Partial<EventType>`: `None` leaves a field alone; for an optional field, `Some(None)` is an
   * explicit `undefined`, which clears the override.
   */
  datatype EventTypePatch = EventTypePatch(
    id: Option<string>,
    name: Option<string>,
    duration: Option<int>,
    selectable: Option<bool>,
    description: Option<Option<string>>,
    workdays: Option<Option<seq<int>>>,
    workHours: Option<Option<WorkHours>>,
    daysInAdvance: Option<Option<int>>,
    calendars: Option<Option<seq<string>>>,
    schedulingStrategy: Option<Option<Strategy>>)

  const NoChange := EventTypePatch(None, None, None, None, None, None, None, None, None, None)

  /** `{ ...et, ...patch }`. */
  function Merge(et: EventType, p: EventTypePatch): (r: EventType)
    ensures r.id == p.id.GetOr(et.id) && r.name == p.name.GetOr(et.name)
    ensures r.duration == p.duration.GetOr(et.duration) && r.selectable == p.selectable.GetOr(et.selectable)
    ensures r.description == p.description.GetOr(et.description)
    ensures r.workdays == p.workdays.GetOr(et.workdays) && r.workHours == p.workHours.GetOr(et.workHours)
    ensures r.daysInAdvance == p.daysInAdvance.GetOr(et.daysInAdvance)
    ensures r.calendars == p.calendars.GetOr(et.calendars)
    ensures r.schedulingStrategy == p.schedulingStrategy.GetOr(et.schedulingStrategy)
  {
    EventType(p.id.GetOr(et.id), p.name.GetOr(et.name), p.duration.GetOr(et.duration),
              p.selectable.GetOr(et.selectable), p.description.GetOr(et.description),
              p.workdays.GetOr(et.workdays), p.workHours.GetOr(et.workHours),
              p.daysInAdvance.GetOr(et.daysInAdvance), p.calendars.GetOr(et.calendars),
              p.schedulingStrategy.GetOr(et.schedulingStrategy))
  }

  lemma MergeTwice(et: EventType, p: EventTypePatch)
    ensures Merge(Merge(et, p), p) == Merge(et, p)
  {
  }

  /** The configuration after `updateEventType(index, patch)`. */
  function Updated(config: Config, index: nat, p: EventTypePatch): (r: Config)
    requires index < |config.eventTypes|
    ensures r.(eventTypes := config.eventTypes) == config
    ensures |r.eventTypes| == |config.eventTypes|
    ensures r.eventTypes[index] == Merge(config.eventTypes[index], p)
    ensures forall k | 0 <= k < |r.eventTypes| && k != index :: r.eventTypes[k] == config.eventTypes[k]
  {
    config.(eventTypes := config.eventTypes[index := Merge(config.eventTypes[index], p)])
  }

  /** Applying the same update twice is applying it once. */
  lemma UpdatedTwice(config: Config, index: nat, p: EventTypePatch)
    requires index < |config.eventTypes|
    ensures Updated(Updated(config, index, p), index, p) == Updated(config, index, p)
  {
    MergeTwice(config.eventTypes[index], p);
  }

  /** `updateEventType`: copies the list into a fresh array and overwrites the entry at `index`. */
  method UpdateEventType(config: Config, index: nat, p: EventTypePatch) returns (r: Config)
    requires index < |config.eventTypes|
    ensures r == Updated(config, index, p)
  {
    var copy := new EventType[|config.eventTypes|](k requires 0 <= k < |config.eventTypes| => config.eventTypes[k]);
    copy[index] := Merge(copy[index], p);
    r := config.(eventTypes := copy[..]);
  }

  // ---------------------------------------------------------------- number inputs

  /** The global days-in-advance input: `parseInt(text, 10)`, at least 1, and 1 for a non-number. */
  function DaysInAdvanceInput(text: string): (d: int)
    ensures d >= 1
    ensures ParseInt(text, Ten).None? ==> d == 1
    ensures ParseInt(text, Ten).Some? ==> d == if ParseInt(text, Ten).value < 1 then 1 else ParseInt(text, Ten).value
  {
    match ParseInt(text, Ten)
    case None => 1
    case Some(v) => if 1 > v then 1 else v
  }

  /** Re-entering the value the input shows leaves it alone. */
  lemma DaysInAdvanceInputOfShown(n: int)
    requires n >= 1
    ensures DaysInAdvanceInput(IntToString(n)) == n
  {
    ParseIntOfIntToString(n, Ten);
  }

  /** The duration input: `parseInt(text) || 1`, clamped to `[1, 1440]`. */
  function DurationInput(text: string): (d: int)
    ensures 1 <= d <= MaxDurationMinutes
    ensures ParseInt(text, Unspecified).None? ==> d == 1
    ensures ParseInt(text, Unspecified).Some? && 1 <= ParseInt(text, Unspecified).value <= MaxDurationMinutes ==>
      d == ParseInt(text, Unspecified).value
    ensures ParseInt(text, Unspecified).Some? && ParseInt(text, Unspecified).value > MaxDurationMinutes ==>
      d == MaxDurationMinutes
    ensures ParseInt(text, Unspecified).Some? && ParseInt(text, Unspecified).value < 1 ==> d == 1
  {
    var v := match ParseInt(text, Unspecified) case Some(v) => if v == 0 then 1 else v case None => 1;
    if v < 1 then 1 else if v > MaxDurationMinutes then MaxDurationMinutes else v
  }

  lemma DurationInputOfShown(n: int)
    requires 1 <= n <= MaxDurationMinutes
    ensures DurationInput(IntToString(n)) == n
  {
    ParseIntOfIntToString(n, Unspecified);
  }

  /** The override days input: `parseInt(text) || undefined`, so blank, a non-number and 0 all clear it. */
  function OverrideDaysInput(text: string): (r: Option<int>)
    ensures r.None? <==> ParseInt(text, Unspecified) == None || ParseInt(text, Unspecified) == Some(0)
    ensures r.Some? ==> r == ParseInt(text, Unspecified) && r.value != 0
  {
    match ParseInt(text, Unspecified)
    case Some(v) => if v == 0 then None else Some(v)
    case None => None
  }

  /** What the override days input shows: `et.DAYS_IN_ADVANCE || ""`. */
  function OverrideDaysShown(o: Option<int>): string {
    match o
    case Some(v) => if v == 0 then "" else IntToString(v)
    case None => ""
  }

  /** Re-entering the shown text gives back any override but 0, and 0 shows blank and clears. */
  lemma OverrideDaysInputOfShown(o: Option<int>)
    ensures OverrideDaysInput(OverrideDaysShown(o)) == if o == Some(0) then None else o
  {
    if o.Some? && o.value != 0 {
      ParseIntOfIntToString(o.value, Unspecified);
    } else {
      assert OverrideDaysShown(o) == "";
      ParseIntOfEmpty(Unspecified);
    }
  }

  // ---------------------------------------------------------------- slugs

  /** `text.replace(/\s+/g, '-')`. */
  function CollapseWhitespace(s: string): (r: string)
    ensures |r| <= |s|
  {
    if s == [] then []
    else if IsWhitespace(s[0]) then "-" + CollapseWhitespace(TrimStart(s[1..]))
    else [s[0]] + CollapseWhitespace(s[1..])
  }

  /** No white space survives the replacement. */
  lemma {:induction false} CollapseLeavesNoWhitespace(s: string)
    ensures forall i | 0 <= i < |CollapseWhitespace(s)| :: !IsWhitespace(CollapseWhitespace(s)[i])
    decreases |s|
  {
    if s != [] {
      if IsWhitespace(s[0]) {
        var rest := TrimStart(s[1..]);
        CollapseLeavesNoWhitespace(rest);
        assert !IsWhitespace('-');
        assert CollapseWhitespace(s) == "-" + CollapseWhitespace(rest);
      } else {
        CollapseLeavesNoWhitespace(s[1..]);
        assert CollapseWhitespace(s) == [s[0]] + CollapseWhitespace(s[1..]);
      }
    }
  }

  /** The slug input's normalisation: white space runs become `-`, then lower case. */
  function Slug(text: string): (r: string)
    ensures |r| <= |text|
    ensures forall i | 0 <= i < |r| :: !IsWhitespace(r[i]) && !IsUpperAscii(r[i])
  {
    CollapseLeavesNoWhitespace(text);
    LowerCase(CollapseWhitespace(text))
  }

  lemma {:induction false} TrimStartOfRun(w: string, b: string)
    requires forall i | 0 <= i < |w| :: IsWhitespace(w[i])
    requires b == [] || !IsWhitespace(b[0])
    ensures TrimStart(w + b) == b
  {
    if w != [] {
      assert (w + b)[0] == w[0] && IsWhitespace(w[0]);
      assert (w + b)[1..] == w[1..] + b;
      assert TrimStart(w + b) == TrimStart(w[1..] + b);
      TrimStartOfRun(w[1..], b);
    } else {
      assert w + b == b;
    }
  }

  /** A whole run of white space between two words becomes one `-`. */
  lemma {:induction false} CollapseRun(a: string, w: string, b: string)
    requires forall i | 0 <= i < |a| :: !IsWhitespace(a[i])
    requires w != [] && forall i | 0 <= i < |w| :: IsWhitespace(w[i])
    requires b == [] || !IsWhitespace(b[0])
    ensures CollapseWhitespace(a + w + b) == a + "-" + CollapseWhitespace(b)
  {
    if a == [] {
      assert a + w + b == w + b && (w + b)[1..] == w[1..] + b;
      TrimStartOfRun(w[1..], b);
    } else {
      assert (a + w + b)[0] == a[0] && (a + w + b)[1..] == a[1..] + w + b;
      CollapseRun(a[1..], w, b);
    }
  }

  lemma {:induction false} CollapseOfClean(s: string)
    requires forall i | 0 <= i < |s| :: !IsWhitespace(s[i])
    ensures CollapseWhitespace(s) == s
  {
    if s != [] {
      CollapseOfClean(s[1..]);
    }
  }

  /** Normalising a slug again does not change it. */
  lemma SlugTwice(text: string)
    ensures Slug(Slug(text)) == Slug(text)
  {
    var s := Slug(text);
    CollapseOfClean(s);
    assert LowerCase(s) == s;
  }

  // ---------------------------------------------------------------- per-event-type overrides

  /** The workdays a checkbox shows: `et.WORKDAYS ?? config.WORKDAYS`. */
  function EffectiveWorkdays(config: Config, et: EventType): (r: seq<int>)
    ensures et.workdays.None? ==> r == config.workdays
    ensures et.workdays.Some? ==> r == et.workdays.value
  {
    et.workdays.GetOr(config.workdays)
  }

  /** `et.WORKHOURS ?? config.WORKHOURS`, the starting point of a work-hours edit. */
  function EffectiveWorkHours(config: Config, et: EventType): (r: WorkHours)
    ensures et.workHours.None? ==> r == config.workHours
    ensures et.workHours.Some? ==> r == et.workHours.value
  {
    et.workHours.GetOr(config.workHours)
  }

  /** The selection shown in the calendar picker: `et.CALENDARS ?? config.CALENDARS`. */
  function EffectiveCalendars(config: Config, et: EventType): (r: seq<string>)
    ensures et.calendars.None? ==> r == config.calendars
    ensures et.calendars.Some? ==> r == et.calendars.value
  {
    et.calendars.GetOr(config.calendars)
  }

  /** Choosing a start hour for an event type's work hours. */
  function SetOverrideStart(config: Config, index: nat, hour: int): (r: Config)
    requires index < |config.eventTypes|
    ensures r.(eventTypes := config.eventTypes) == config && |r.eventTypes| == |config.eventTypes|
    ensures forall k | 0 <= k < |r.eventTypes| && k != index :: r.eventTypes[k] == config.eventTypes[k]
    ensures r.eventTypes[index].(workHours := config.eventTypes[index].workHours) == config.eventTypes[index]
    ensures r.eventTypes[index].workHours == Some(WorkHours(hour, EffectiveWorkHours(config, config.eventTypes[index]).end))
    ensures config.eventTypes[index].workHours.None? ==>
      r.eventTypes[index].workHours == Some(WorkHours(hour, config.workHours.end))
  {
    var current := EffectiveWorkHours(config, config.eventTypes[index]);
    Updated(config, index, NoChange.(workHours := Some(Some(current.(start := hour)))))
  }

  /** Choosing an end hour for an event type's work hours. */
  function SetOverrideEnd(config: Config, index: nat, hour: int): (r: Config)
    requires index < |config.eventTypes|
    ensures r.(eventTypes := config.eventTypes) == config && |r.eventTypes| == |config.eventTypes|
    ensures forall k | 0 <= k < |r.eventTypes| && k != index :: r.eventTypes[k] == config.eventTypes[k]
    ensures r.eventTypes[index].(workHours := config.eventTypes[index].workHours) == config.eventTypes[index]
    ensures r.eventTypes[index].workHours == Some(WorkHours(EffectiveWorkHours(config, config.eventTypes[index]).start, hour))
    ensures config.eventTypes[index].workHours.None? ==>
      r.eventTypes[index].workHours == Some(WorkHours(config.workHours.start, hour))
  {
    var current := EffectiveWorkHours(config, config.eventTypes[index]);
    Updated(config, index, NoChange.(workHours := Some(Some(current.(end := hour)))))
  }

  /** Ticking or unticking a day in an event type's available days. */
  function ToggleOverrideWorkday(config: Config, index: nat, d: int): (r: Config)
    requires index < |config.eventTypes|
    ensures r.(eventTypes := config.eventTypes) == config && |r.eventTypes| == |config.eventTypes|
    ensures forall k | 0 <= k < |r.eventTypes| && k != index :: r.eventTypes[k] == config.eventTypes[k]
    ensures r.eventTypes[index].(workdays := config.eventTypes[index].workdays) == config.eventTypes[index]
    ensures r.eventTypes[index].workdays.Some?
    ensures d in EffectiveWorkdays(r, r.eventTypes[index]) <==> d !in EffectiveWorkdays(config, config.eventTypes[index])
    ensures forall x | x != d ::
      x in EffectiveWorkdays(r, r.eventTypes[index]) <==> x in EffectiveWorkdays(config, config.eventTypes[index])
    ensures r.eventTypes[index].workdays == Some(ToggleDay(EffectiveWorkdays(config, config.eventTypes[index]), d))
    ensures config.eventTypes[index].workdays.None? ==>
      r.eventTypes[index].workdays == Some(ToggleDay(config.workdays, d))
  {
    var current := EffectiveWorkdays(config, config.eventTypes[index]);
    Updated(config, index, NoChange.(workdays := Some(Some(ToggleDay(current, d)))))
  }

  /** Typing into an event type's scheduling-window input. */
  function SetOverrideDays(config: Config, index: nat, text: string): (r: Config)
    requires index < |config.eventTypes|
    ensures r.(eventTypes := config.eventTypes) == config && |r.eventTypes| == |config.eventTypes|
    ensures forall k | 0 <= k < |r.eventTypes| && k != index :: r.eventTypes[k] == config.eventTypes[k]
    ensures r.eventTypes[index].(daysInAdvance := config.eventTypes[index].daysInAdvance) == config.eventTypes[index]
    ensures r.eventTypes[index].daysInAdvance == OverrideDaysInput(text)
  {
    Updated(config, index, NoChange.(daysInAdvance := Some(OverrideDaysInput(text))))
  }

  /** Clicking a calendar in an event type's picker. */
  function ToggleOverrideCalendar(config: Config, index: nat, id: string): (r: Config)
    requires index < |config.eventTypes|
    ensures r.(eventTypes := config.eventTypes) == config && |r.eventTypes| == |config.eventTypes|
    ensures forall k | 0 <= k < |r.eventTypes| && k != index :: r.eventTypes[k] == config.eventTypes[k]
    ensures r.eventTypes[index].(calendars := config.eventTypes[index].calendars) == config.eventTypes[index]
    ensures r.eventTypes[index].calendars ==
      Some(CalendarMultiSelect.HandleSelect(EffectiveCalendars(config, config.eventTypes[index]), id))
    ensures config.eventTypes[index].calendars.None? ==>
      r.eventTypes[index].calendars == Some(CalendarMultiSelect.HandleSelect(config.calendars, id))
  {
    var current := EffectiveCalendars(config, config.eventTypes[index]);
    Updated(config, index, NoChange.(calendars := Some(Some(CalendarMultiSelect.HandleSelect(current, id)))))
  }

  /** The override fields a "Reset to Global" control clears. */
  datatype OverrideField = WorkdaysField | WorkHoursField | CalendarsField

  /** "Reset to Global": the override becomes absent, so the global value shows again. */
  function ResetOverride(config: Config, index: nat, field: OverrideField): (r: Config)
    requires index < |config.eventTypes|
    ensures r.(eventTypes := config.eventTypes) == config && |r.eventTypes| == |config.eventTypes|
    ensures forall k | 0 <= k < |r.eventTypes| && k != index :: r.eventTypes[k] == config.eventTypes[k]
    ensures field == WorkdaysField ==>
      r.eventTypes[index] == config.eventTypes[index].(workdays := None) &&
      EffectiveWorkdays(r, r.eventTypes[index]) == config.workdays
    ensures field == WorkHoursField ==>
      r.eventTypes[index] == config.eventTypes[index].(workHours := None) &&
      EffectiveWorkHours(r, r.eventTypes[index]) == config.workHours
    ensures field == CalendarsField ==>
      r.eventTypes[index] == config.eventTypes[index].(calendars := None) &&
      EffectiveCalendars(r, r.eventTypes[index]) == config.calendars
  {
    var p := match field
      case WorkdaysField => NoChange.(workdays := Some(None))
      case WorkHoursField => NoChange.(workHours := Some(None))
      case CalendarsField => NoChange.(calendars := Some(None));
    Updated(config, index, p)
  }

  /** Resetting after an edit of the same field forgets the edit. */
  lemma ResetUndoesWorkdayEdit(config: Config, index: nat, d: int)
    requires index < |config.eventTypes| && config.eventTypes[index].workdays.None?
    ensures ResetOverride(ToggleOverrideWorkday(config, index, d), index, WorkdaysField) == config
  {
    var r := ResetOverride(ToggleOverrideWorkday(config, index, d), index, WorkdaysField);
    assert r.eventTypes == config.eventTypes;
  }
}
