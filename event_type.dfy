/**
 * The configuration the settings screen edits and stores: global scheduling settings plus a list of
 * event types whose optional fields override the global ones (`None` is an absent field, "inherit").
 */
module EventTypeModel {
  import opened Wrappers
  import opened Scheduling

  datatype Strategy = Collective | RoundRobin

  /** `EventType`; field names follow the stored keys (`WORKDAYS` is `workdays`, and so on). */
  datatype EventType = EventType(
    id: string,
    name: string,
    duration: int,
    selectable: bool,
    description: Option<string>,
    workdays: Option<seq<int>>,
    workHours: Option<WorkHours>,
    daysInAdvance: Option<int>,
    calendars: Option<seq<string>>,
    schedulingStrategy: Option<Strategy>)

  /** `Config`. */
  datatype Config = Config(
    timeZone: string,
    workdays: seq<int>,
    workHours: WorkHours,
    daysInAdvance: int,
    eventTypes: seq<EventType>,
    calendars: seq<string>,
    schedulingStrategy: Option<Strategy>)
}
