# Booking backend and settings screen, modelled in Dafny

This project models the core of a Google Apps Script appointment-booking app. The app runs as a web app on a Google account. It offers half-hour (or configured) slots in the owner's working hours that no monitored calendar marks busy, and it books a slot by creating a calendar event.

The model covers four parts of the app.

- **The multi-calendar backend** (`backend/src/app.ts`, module `MultiCalendarApp`). It reads the `CALENDARS` script property, with `["primary"]` as the fallback. `fetchAvailability` rounds the present down to a slot boundary and asks Calendar free/busy for the window up to the UTC midnight `DAYS_IN_ADVANCE` days ahead. It flattens every calendar's busy list and walks the slot grid. A slot is kept when its local start hour is in `WORKHOURS`, its local weekday is in `WORKDAYS` and it overlaps no busy interval. `bookTimeslot` parses the start and re-queries free/busy for exactly that slot. It rejects the slot if any calendar reports anything busy, and otherwise builds the event request.
- **The configurable backend** (`packages/backend/src/app.ts`, module `ConfiguredApp`). It is the same flow over one calendar, with every scheduling value read from `getConfiguration()`. Its booking conflict test is inclusive at both ends, unlike the half-open test of the availability loop.
- **The settings screen** (`frontend/src/components/ConfigScreen.tsx`, module `ConfigScreen`). It covers:
  - duplicate-slug detection and the save button;
  - save validation;
  - toggling global workdays;
  - adding, updating and removing event types;
  - the number inputs;
  - slug normalisation;
  - the per-event-type override editors.
- **The calendar picker** (`frontend/src/components/CalendarMultiSelect.tsx`, module `CalendarMultiSelect`). It covers:
  - merging hand-typed ids into the option list;
  - toggling a calendar;
  - adding a typed address;
  - what the closed picker shows.

Shared modules:

- `Scheduling`: time arithmetic, overlap tests, the host services and the booking request.
- `Timeslots`: the slot loop both backends run.
- `EventTypeModel`: the stored configuration.
- `JsText`: `parseInt`, number-to-text, white space and lower case, as JavaScript defines them.
- `IntSort`: an ascending sort, with uniqueness of sorted arrangements.
- `SeqUtil`: `filter`, `indexOf` and duplicate-freedom.
- `Wrappers`: `Option` and `Result`.

Instants are JavaScript time values: integer milliseconds with no leap seconds. Within the `Date` range (±8.64e15 ms) rounding and `setUTCMinutes` become plain integer arithmetic. `Date.UTC` day arithmetic does too, from year 100 on. Everything outside the program is a parameter. The Apps Script services and the date parser are collected in `Scheduling.Host`:

- `new Date(string)`;
- the time-zone conversion that yields a local hour and weekday;
- `Calendar.Freebusy.query`;
- `createEvent`.

The other outside inputs are separate arguments:

- the `CALENDARS` script property is the `property` argument of `MultiCalendarApp.ReadCalendars`;
- `JSON.parse` is its `parseJson` argument;
- the clock is `now` in both `FetchAvailability` members and `nowMs` in `ConfigScreen.AddEventType`;
- `getConfiguration()` is the `config` argument of the `ConfiguredApp` members.

A thrown exception becomes a `Failure` that carries its message.

Both backend loops are one method, `Timeslots.CollectTimeslots`: a `while` loop with the source's `continue` filters. It is proved equal to the recursive specification `Timeslots.SlotsFrom`, and the properties of the listed slots are proved about that function. `ConfigScreen.HandleSave` is the source's `for` loop with early returns. `ConfigScreen.UpdateEventType` copies the list into a fresh array and overwrites one slot in it, as the source does.

In the picker, clicking the same id twice does not always restore a duplicate-free selection.

- It holds when the id was not selected (`SelectThenUnselect`).
- For an id already selected, unselecting and reselecting keeps the same ids but moves that id to the end (`UnselectThenSelect`).
- `ToggleTwiceReorders` gives a concrete case: `["a", "b"]` becomes `["b", "a"]`.

The component promises nothing stronger, so this is its behaviour rather than a defect.

## Model

| member | source | states |
|---|---|---|
| MultiCalendarApp.ReadCalendars | backend/src/app.ts:1-11 | the calendar list is the parsed array when the property is set, non-empty and parses to an array; in every other case (unset, empty, parse error, non-array) it is `["primary"]` |
| MultiCalendarApp.AvailabilityQuery | backend/src/app.ts:39-55 | the query starts at the slot boundary at or before now, ends at the UTC midnight 28 days after that start's UTC day, and lists every monitored calendar |
| MultiCalendarApp.SameBucketSameQuery | backend/src/app.ts:39-41 | any two moments in the same 30-minute bucket send the same query, so availability only changes at slot boundaries |
| MultiCalendarApp.CollectBusy | backend/src/app.ts:57-64 | flattening fails exactly when some monitored calendar is missing from the answer (the `.busy` TypeError); otherwise a slot is free of the flattened list iff it is free of every calendar's list |
| MultiCalendarApp.FetchAvailability | backend/src/app.ts:35-87 | a window bound outside the `Date` range throws "Invalid time value" before the query; query errors and missing calendars propagate; otherwise the result is the slot loop over the flattened busy list with duration 30; the listed starts are increasing, 30 minutes apart or more, on the grid from the rounded start, end by the horizon, fall in local 9-16 on Monday-Friday, and are free for every calendar |
| MultiCalendarApp.AnyBusy | backend/src/app.ts:111-113 | `some` yields false iff every calendar is present and clear, true iff it reaches a busy calendar with every earlier one present and clear, and otherwise throws the missing-`.busy` error |
| MultiCalendarApp.AnyBusyFindsBusy | backend/src/app.ts:111-113 | a busy calendar preceded only by present calendars makes the test true |
| MultiCalendarApp.BookTimeslot | backend/src/app.ts:89-135 | "Invalid start time" iff the timeslot does not parse to a valid date; after a valid start, an end outside the `Date` range, a query error, a missing calendar, a busy calendar and a creation error each give "Failed to create event: " with that cause, and when every calendar is present and empty and creation succeeds the slot is booked; a success books exactly the parsed start for 30 minutes on the first calendar (`undefined` when the list is empty), with the fixed title, description, guests, invites and status, and only after free/busy answered with every calendar present and empty and event creation did not throw |
| MultiCalendarApp.BookingConflictRejected | backend/src/app.ts:111-117 | a busy calendar in the booking window, with all earlier calendars present, yields "Failed to create event: Timeslot not available" |
| MultiCalendarApp.BookingAgreesWithAvailability | backend/src/app.ts:81-113 | if the booking query reports each calendar's intervals overlapping the slot, booking finds a conflict exactly when the availability loop would skip the slot |
| ConfiguredApp.AvailabilityQuery | packages/backend/src/app.ts:20-40 | the query starts at the configured-width boundary at or before now, ends at the UTC midnight `days_in_advance` days later, and names only the configured calendar |
| ConfiguredApp.SameBucketSameQuery | packages/backend/src/app.ts:23-25 | moments in one configured-width bucket send the same query |
| ConfiguredApp.FetchAvailability | packages/backend/src/app.ts:16-73 | a zero duration, or a window bound outside the `Date` range, throws "Invalid time value"; query errors and a missing calendar propagate; otherwise the result is the slot loop over that calendar's busy list, reports the configured duration, and every listed slot is on the grid, inside the horizon, in configured hours and workdays, and free |
| ConfiguredApp.BookTimeslot | packages/backend/src/app.ts:75-134 | "Invalid start time" iff the start does not parse; after a valid start, an end outside the `Date` range, a query error, a missing calendar, an inclusive conflict and a creation error each give "Failed to create event: " with that cause, and with no conflict and a successful creation the slot is booked; a success books the configured calendar from the parsed start for the configured duration, only when no busy interval meets the slot even at an end point and creation did not throw |
| ConfiguredApp.BookingErrorsWrapped | packages/backend/src/app.ts:129-133 | every failure after a valid start carries the "Failed to create event: " prefix |
| ConfiguredApp.ConflictsIffOverlapsOrTouches | packages/backend/src/app.ts:106-111 | on well-formed intervals the booking conflict test holds iff the slot is not free for availability or some busy interval touches it at an end point |
| ConfiguredApp.TouchingIntervalBlocksBooking | packages/backend/src/app.ts:106-114 | a busy interval ending exactly at the slot start leaves the slot free for availability, yet booking it fails with "Timeslot not available" |
| Scheduling.InclusiveIsHalfOpenOrTouching | packages/backend/src/app.ts:107-111 | the inclusive booking test accepts the half-open overlaps plus the intervals that only touch the slot at an end point |
| Scheduling.RoundDown | backend/src/app.ts:39-41 | the rounded start is a multiple of the width, at or before the instant, and less than one width before it |
| Scheduling.SameBucketSameStart | backend/src/app.ts:39-41 | instants at or after a bucket start and less than one width past it round to that start |
| Scheduling.HorizonEnd | backend/src/app.ts:43-49 | the horizon is a UTC midnight exactly `days` days after the midnight starting the instant's UTC day |
| Scheduling.StartInstant | backend/src/app.ts:97-100 | a start exists exactly when `new Date` parses the text to a time value within the `Date` range, and it is that value |
| Timeslots.CollectTimeslots | backend/src/app.ts:66-85 | the loop with its three `continue` filters pushes exactly the starts of the specification `SlotsFrom` |
| Timeslots.FreeConcat | backend/src/app.ts:64 | a slot is free of a concatenation of busy lists iff it is free of each part |
| Timeslots.SlotsFromMembers | packages/backend/src/app.ts:50-71 | a start is listed iff it is on the grid from the first start, its slot ends by the horizon, its local hour is in the work hours, its weekday is a workday and no busy interval overlaps the slot |
| Timeslots.SlotsFromOrdered | backend/src/app.ts:68-72 | listed starts increase, each at least one slot width after the previous |
| Timeslots.SpacedSlotsDisjoint | backend/src/app.ts:84 | no two listed slots overlap |
| ConfigScreen.DuplicateIds | frontend/src/components/ConfigScreen.tsx:112-117 | the list holds each slug that two or more event types share, each exactly once, and nothing else |
| ConfigScreen.NoDuplicatesIffDistinct | frontend/src/components/ConfigScreen.tsx:112-117 | the duplicate list is empty iff all event type slugs are distinct |
| ConfigScreen.SaveButtonEnabled | frontend/src/components/ConfigScreen.tsx:737 | the save button is enabled iff no save is in progress and all slugs are distinct |
| ConfigScreen.HandleSave | frontend/src/components/ConfigScreen.tsx:186-206 | more than 90 days refuses with the window alert; otherwise saving proceeds iff every event type has duration at most 1440 and a non-empty slug, and the first entry that fails decides the alert, duration before slug |
| ConfigScreen.ToggleDay | frontend/src/components/ConfigScreen.tsx:240-245 | the toggled day's membership flips and every other day keeps its membership; a removal is `filter`, dropping all copies of the day and keeping the rest in order; an addition gives the sorted list with the day added once |
| ConfigScreen.ToggleDayKeepsSortedDistinct | frontend/src/components/ConfigScreen.tsx:240-245 | a sorted, duplicate-free day list stays sorted and duplicate-free |
| ConfigScreen.ToggleDayTwice | frontend/src/components/ConfigScreen.tsx:240-245 | on a sorted, duplicate-free list, toggling a day twice restores the list |
| ConfigScreen.ToggleWorkday | frontend/src/components/ConfigScreen.tsx:240-245 | only the global workdays change, and they become `ToggleDay` of the old ones: the toggled day's membership flipped, the others' kept, and the list sorted after an addition |
| ConfigScreen.ToggleWorkdayTwice | frontend/src/components/ConfigScreen.tsx:240-245 | toggling the same global workday twice restores the configuration |
| ConfigScreen.NewEventTypeSlug | frontend/src/components/ConfigScreen.tsx:257-266 | a new slug is `type-` followed by the creation time, which `parseInt` reads back, and the new entry passes save validation |
| ConfigScreen.AddEventType | frontend/src/components/ConfigScreen.tsx:257-266 | the list grows by one at the end with the new entry, and the existing entries and global settings are unchanged |
| ConfigScreen.AddEventTypeKeepsSlugsUnique | frontend/src/components/ConfigScreen.tsx:257-266 | adding keeps the slugs distinct when the new slug is not already in use |
| ConfigScreen.RemoveEventType | frontend/src/components/ConfigScreen.tsx:274-284 | with at most one entry it refuses with "You must have at least one event type."; otherwise it removes exactly the entry at the index, keeps the others in order, and the list is never empty; an index outside the list changes nothing |
| ConfigScreen.AddThenRemove | frontend/src/components/ConfigScreen.tsx:257-284 | removing the entry just added restores a non-empty configuration |
| ConfigScreen.Merge | frontend/src/components/ConfigScreen.tsx:270 | each field of the merged entry is the update's value when the update names it (an explicit `undefined` clears it) and the old value otherwise |
| ConfigScreen.MergeTwice | frontend/src/components/ConfigScreen.tsx:270 | merging the same update twice equals merging it once |
| ConfigScreen.Updated | frontend/src/components/ConfigScreen.tsx:268-272 | only the entry at the index changes, to the merge of the update; the length, all other entries and the global settings are kept |
| ConfigScreen.UpdatedTwice | frontend/src/components/ConfigScreen.tsx:268-272 | applying the same update twice equals applying it once |
| ConfigScreen.UpdateEventType | frontend/src/components/ConfigScreen.tsx:268-272 | the array copy and single-slot overwrite produce the configuration `Updated` specifies |
| ConfigScreen.DaysInAdvanceInput | frontend/src/components/ConfigScreen.tsx:362-369 | the value is always at least 1: a non-number gives 1, a number below 1 gives 1, and any other number is kept |
| ConfigScreen.DaysInAdvanceInputOfShown | frontend/src/components/ConfigScreen.tsx:362-369 | re-entering a shown value of 1 or more keeps it |
| ConfigScreen.DurationInput | frontend/src/components/ConfigScreen.tsx:529-532 | the duration is always in [1, 1440]: a non-number, 0 or a negative number gives 1, larger values give 1440, and values in range are kept |
| ConfigScreen.DurationInputOfShown | frontend/src/components/ConfigScreen.tsx:529-532 | re-entering a shown duration in [1, 1440] keeps it |
| ConfigScreen.OverrideDaysInput | frontend/src/components/ConfigScreen.tsx:601 | the override is cleared (inherit) iff the text is blank, not a number or 0; otherwise it is the parsed non-zero number |
| ConfigScreen.OverrideDaysInputOfShown | frontend/src/components/ConfigScreen.tsx:600-601 | re-entering the shown text gives back any override except 0, which shows blank and clears |
| ConfigScreen.CollapseWhitespace | frontend/src/components/ConfigScreen.tsx:509 | the result is no longer than the input |
| ConfigScreen.CollapseLeavesNoWhitespace | frontend/src/components/ConfigScreen.tsx:509 | no white space character survives the replacement |
| ConfigScreen.CollapseRun | frontend/src/components/ConfigScreen.tsx:509 | a whole run of white space between two words becomes a single `-` |
| ConfigScreen.Slug | frontend/src/components/ConfigScreen.tsx:509 | a normalised slug contains no white space and no upper-case letter |
| ConfigScreen.SlugTwice | frontend/src/components/ConfigScreen.tsx:509 | normalising a slug twice equals normalising it once |
| ConfigScreen.EffectiveWorkdays | frontend/src/components/ConfigScreen.tsx:708-710 | the event type's workdays when it has an override, else the global workdays |
| ConfigScreen.EffectiveWorkHours | frontend/src/components/ConfigScreen.tsx:652-661 | the event type's work hours when it has an override, else the global work hours |
| ConfigScreen.EffectiveCalendars | frontend/src/components/ConfigScreen.tsx:614 | the event type's calendars when it has an override, else the global calendars |
| ConfigScreen.SetOverrideStart | frontend/src/components/ConfigScreen.tsx:651-654 | only this event type's work-hours override changes: it becomes the chosen start with the effective end, so a first edit copies the global end |
| ConfigScreen.SetOverrideEnd | frontend/src/components/ConfigScreen.tsx:660-663 | only this event type's work-hours override changes: it becomes the effective start with the chosen end, so a first edit copies the global start |
| ConfigScreen.ToggleOverrideWorkday | frontend/src/components/ConfigScreen.tsx:708-714 | the event type's workdays override becomes `ToggleDay` of the effective days, so the ticked day's membership flips, every other day keeps its membership, and an addition is sorted; a first edit starts from the global workdays |
| ConfigScreen.SetOverrideDays | frontend/src/components/ConfigScreen.tsx:601 | only this event type's scheduling-window override changes, to the value read from the text |
| ConfigScreen.ToggleOverrideCalendar | frontend/src/components/ConfigScreen.tsx:613-617 | the event type gets a calendars override equal to the picker's toggle applied to the effective selection; a first edit starts from the global calendars |
| ConfigScreen.ResetOverride | frontend/src/components/ConfigScreen.tsx:619-626 | "Reset to Global" (this one and those at lines 638, 674 and 701) clears exactly one override, after which the global value is effective again |
| ConfigScreen.ResetUndoesWorkdayEdit | frontend/src/components/ConfigScreen.tsx:699-714 | a first workday override edit followed by its reset restores the configuration |
| CalendarMultiSelect.ExtraSelected | frontend/src/components/CalendarMultiSelect.tsx:43-44 | every extra option is a selected id not in the available list, shown under its own id, and every such selected id gets one |
| CalendarMultiSelect.ExtraSelectedAppend | frontend/src/components/CalendarMultiSelect.tsx:44 | extra options follow the selection order: the extras of a concatenation are the concatenation of the extras |
| CalendarMultiSelect.ExtraSelectedSingle | frontend/src/components/CalendarMultiSelect.tsx:44 | a single selected id gives one option `{id, name: id}` exactly when it is not available |
| CalendarMultiSelect.AllOptions | frontend/src/components/CalendarMultiSelect.tsx:43-46 | the options start with the available list unchanged, continue only with extra options for unavailable selected ids, and include every selected id |
| CalendarMultiSelect.HandleSelect | frontend/src/components/CalendarMultiSelect.tsx:53-59 | the clicked id's membership flips, every other id stays, an unselected id is appended at the end, and unselecting is `filter`: it drops every copy of the id and keeps the other ids, with their copies, in order |
| CalendarMultiSelect.HandleSelectKeepsDistinct | frontend/src/components/CalendarMultiSelect.tsx:53-59 | a duplicate-free selection stays duplicate-free |
| CalendarMultiSelect.SelectThenUnselect | frontend/src/components/CalendarMultiSelect.tsx:53-59 | selecting an unselected id and clicking it again restores the selection |
| CalendarMultiSelect.UnselectThenSelect | frontend/src/components/CalendarMultiSelect.tsx:53-59 | on a duplicate-free selection, unselecting and reselecting an id keeps the same ids without repeats but moves that id to the end |
| CalendarMultiSelect.ToggleTwiceReorders | frontend/src/components/CalendarMultiSelect.tsx:53-59 | toggling "a" twice in `["a", "b"]` gives `["b", "a"]` |
| CalendarMultiSelect.HandleAddCustom | frontend/src/components/CalendarMultiSelect.tsx:61-66 | blank or already-selected search text changes nothing; otherwise the selection gains exactly the text at its end and the search is cleared |
| CalendarMultiSelect.OfferedAddAppendsAddress | frontend/src/components/CalendarMultiSelect.tsx:109 | the offered add action appends an address containing `@` and clears the search |
| CalendarMultiSelect.AddCustomKeepsDistinct | frontend/src/components/CalendarMultiSelect.tsx:61-66 | adding a custom id keeps a duplicate-free selection duplicate-free |
| CalendarMultiSelect.FindById | frontend/src/components/CalendarMultiSelect.tsx:83 | `find` fails iff no option has the id, and otherwise returns the first option with it |
| CalendarMultiSelect.BadgeLabelOfOption | frontend/src/components/CalendarMultiSelect.tsx:82-87 | a badge shows the first available calendar's name, or the id when that name is empty or the id is not available |
| CalendarMultiSelect.Trigger | frontend/src/components/CalendarMultiSelect.tsx:78-93 | the trigger shows the placeholder for no selection; for one to three ids, one badge per id in order, labelled by the available name or the id; for more, "N calendars selected" |
| JsText.ParseIntOfIntToString | frontend/src/components/ConfigScreen.tsx:530 | `parseInt` reads back any integer written in decimal, with or without a radix argument |
| JsText.LowerCase | frontend/src/components/ConfigScreen.tsx:509 | lower-casing keeps the length and lowers each character, leaving white space alone and no upper-case letter |
| IntSort.Sort | frontend/src/components/ConfigScreen.tsx:243 | the sorted list is in ascending order and a permutation of the input |
| IntSort.SortedUnique | frontend/src/components/ConfigScreen.tsx:243 | two sorted lists with the same elements are equal |
| IntSort.WithoutKeepsSorted | frontend/src/components/ConfigScreen.tsx:242 | removing a day from a sorted list keeps it sorted |
| SeqUtil.Without | frontend/src/components/CalendarMultiSelect.tsx:55 | `filter(s => s !== id)` keeps exactly the other elements and removes every copy of the id |
| SeqUtil.IndexOf | frontend/src/components/ConfigScreen.tsx:115 | `indexOf` is the first position holding the value, or -1 iff the value is absent |
| SeqUtil.ExceptAt | frontend/src/components/ConfigScreen.tsx:279 | filtering by index removes the entry at that index and keeps the others in order, or keeps everything when the index is outside the list |

## Left out

- Google Apps Script services are not called.
  - `Calendar.Freebusy`, `CalendarApp` and `Utilities.formatDate` are parameters of `Scheduling.Host`.
  - The `PropertiesService` read is the `property` argument of `MultiCalendarApp.ReadCalendars`.
  - `getConfiguration()` is the `config` argument of the `ConfiguredApp` members.
  - `HtmlService`/`doGet` and `Logger` are omitted: they only serve the page or log.
- `Scheduling.HorizonEnd`, and through it `MultiCalendarApp.AvailabilityQuery`, `ConfiguredApp.AvailabilityQuery`, `MultiCalendarApp.FetchAvailability` and `ConfiguredApp.FetchAvailability`, do not model the two-digit-year rule of `Date.UTC`. `Date.UTC` reads a year argument of 0 to 99 as 1900 plus that year. For a present whose UTC year is 0 to 99, the source's horizon therefore lies about 1900 years later, while the model's is `days` days after that day. The clock never reads such instants, so the model covers years from 100 on.
- The time-zone conversion is an uninterpreted function from a zone and an instant to a local hour and weekday. That includes the `formatDate` round trip and its re-parse in the script's own zone.
- The clock is a parameter: `new Date()` in `fetchAvailability` and `Date.now()` in `addEventType`.
- `MultiCalendarApp.ReadCalendars`: `JSON.parse` is a parameter that reports a string array, another value, or an error. An array with non-string elements is treated like a string array mapped to its items, so it is not modelled.
- `MultiCalendarApp.FetchAvailability` and `ConfiguredApp.FetchAvailability`: slots come back as instants instead of `toISOString` strings.
- `MultiCalendarApp.CollectBusy`, `ConfiguredApp.FetchAvailability`, `MultiCalendarApp.BookTimeslot` and `ConfiguredApp.BookTimeslot`: busy entries are already instants. Parsing the free/busy answer's date strings, and `NaN` entries that never overlap, are not modelled.
- `ConfiguredApp.FetchAvailability`:
  - It requires a non-negative `timeslot_duration`. With a negative duration the source loop steps backwards and never ends.
  - Fractional configuration numbers are not modelled; all values are integers.
- `ConfiguredApp.BookTimeslot` and `MultiCalendarApp.BookTimeslot`: the free/busy check and the event creation are separate calls. A booking made by someone else between them is not modelled.
- Neither backend has event-type-aware availability, override resolution or round-robin scheduling: the source does not implement them. The `eventTypeId` the frontend passes to `bookTimeslot` is ignored by the backend.
- `ConfigScreen.ToggleDay` and `IntSort.Sort` sort numerically. `Array.prototype.sort` compares the numbers as decimal strings, which gives the same order for the day numbers 0 to 6 the screen offers.
- `JsText.LowerCase` lowers ASCII letters only. `toLowerCase`'s full Unicode case mapping is not modelled.
- `ConfigScreen.Slug` inherits the ASCII-only lower-casing of `JsText.LowerCase`.
- `ConfigScreen.DurationInput` reads numbers as exact integers. `parseInt` returns a double: it loses digits beyond 2^53 and overflows to Infinity, and these effects are not modelled.
- The same exact-integer reading applies to `ConfigScreen.DaysInAdvanceInput`.
- `ConfigScreen.OverrideDaysInput` also reads numbers as exact integers.
- `ConfigScreen.HandleSave` returns its decision. The alert, `setSaving`, and the `setConfig` call to the server with its success and failure alerts are I/O and are not modelled.
- React state outside the configuration is not modelled:
  - loading and the missing-configuration screen;
  - the expanded-card list, `toggleEventTypeExpansion` and its reset on removal;
  - the time-zone picker and its list;
  - the mock data used outside Apps Script.
- The name and selectable inputs (lines 490 and 542) are ordinary `ConfigScreen.Updated` calls with a one-field update. They get no member of their own.
- `ConfigScreen.Updated` requires the index to lie in the list, because the screen only calls it with the index of a rendered entry.
- `CalendarMultiSelect.OfferedAddAppendsAddress` covers only the `@` condition. The add button also requires the cmdk filter to leave no matching option, and that fuzzy filtering is not modelled.
- The HTML and CSS of both screens are not modelled: badges' keys, check marks, the open state and styling.
