/**
 * The slot loop both drafts of `fetchAvailability` run: starting at a rounded instant, step by the slot
 * width while the slot still ends by the horizon, and keep a slot when its local start hour and weekday are
 * in policy and no busy interval overlaps it.
 */
module Timeslots {
  import opened Scheduling

  /** Everything the loop body reads apart from the loop variable. */
  datatype SlotRules = SlotRules(
    timeZone: string,
    workdays: seq<int>,
    workHours: WorkHours,
    width: int,
    busy: seq<Interval>)

  /** `getHours() < start` and `getHours() >= end` both fail. */
  predicate InWorkHours(hours: WorkHours, local: LocalTime) {
    hours.start <= local.hour < hours.end
  }

  /** `workdays.indexOf(getDay()) >= 0`. */
  predicate OnWorkday(workdays: seq<int>, local: LocalTime) {
    local.weekday in workdays
  }

  /** `!events.some(event => event.start < end && event.end > start)`. */
  predicate Free(busy: seq<Interval>, slot: Interval) {
    forall i | 0 <= i < |busy| :: !OverlapsHalfOpen(busy[i], slot)
  }

  lemma FreeConcat(a: seq<Interval>, b: seq<Interval>, slot: Interval)
    ensures Free(a + b, slot) <==> Free(a, slot) && Free(b, slot)
  {
    if !Free(a, slot) {
      var i :| 0 <= i < |a| && OverlapsHalfOpen(a[i], slot);
      assert (a + b)[i] == a[i];
    }
    if !Free(b, slot) {
      var i :| 0 <= i < |b| && OverlapsHalfOpen(b[i], slot);
      assert (a + b)[|a| + i] == b[i];
    }
    if !Free(a + b, slot) {
      var i :| 0 <= i < |a + b| && OverlapsHalfOpen((a + b)[i], slot);
      if i < |a| {
        assert (a + b)[i] == a[i];
      } else {
        assert (a + b)[i] == b[i - |a|];
      }
    }
  }

  /** Whether the slot starting at `t` survives the four `continue` tests. */
  predicate Offered(rules: SlotRules, toLocal: (string, int) -> LocalTime, t: int) {
    var local := toLocal(rules.timeZone, t);
    InWorkHours(rules.workHours, local) && OnWorkday(rules.workdays, local) &&
    Free(rules.busy, Interval(t, t + rules.width))
  }

  /** The starts the loop pushes from `t` on: the specification of CollectTimeslots. */
  function SlotsFrom(t: int, horizon: int, rules: SlotRules, toLocal: (string, int) -> LocalTime): seq<int>
    requires rules.width > 0
    decreases horizon - t
  {
    if t + rules.width > horizon then []
    else (if Offered(rules, toLocal, t) then [t] else []) + SlotsFrom(t + rules.width, horizon, rules, toLocal)
  }

  /** The `for` loop of `fetchAvailability`, pushing each slot start that passes the filters. */
  method CollectTimeslots(first: int, horizon: int, rules: SlotRules, toLocal: (string, int) -> LocalTime)
    returns (slots: seq<int>)
    requires rules.width > 0
    ensures slots == SlotsFrom(first, horizon, rules, toLocal)
  {
    slots := [];
    var t := first;
    while t + rules.width <= horizon
      invariant slots + SlotsFrom(t, horizon, rules, toLocal) == SlotsFrom(first, horizon, rules, toLocal)
      decreases horizon - t
    {
      var local := toLocal(rules.timeZone, t);
      var slot := Interval(t, t + rules.width);
      if local.hour < rules.workHours.start || local.hour >= rules.workHours.end {
        t := t + rules.width;
        continue;
      }
      if local.weekday !in rules.workdays {
        t := t + rules.width;
        continue;
      }
      var conflict := exists i | 0 <= i < |rules.busy| :: OverlapsHalfOpen(rules.busy[i], slot);
      if conflict {
        t := t + rules.width;
        continue;
      }
      slots := slots + [t];
      assert Offered(rules, toLocal, t);
      assert slots + SlotsFrom(t + rules.width, horizon, rules, toLocal) == SlotsFrom(first, horizon, rules, toLocal);
      t := t + rules.width;
    }
  }

  /** One step of the loop variable keeps it on the grid that starts at `t`. */
  lemma GridStep(t: int, s: int, width: int)
    requires width > 0
    ensures (t <= s && (s - t) % width == 0) <==> (s == t || (t + width <= s && (s - (t + width)) % width == 0))
  {
    if t < s {
      var q := (s - t) / width;
      assert s - t == q * width + (s - t) % width;
      assert s - (t + width) == (q - 1) * width + (s - t) % width;
      if (s - t) % width == 0 {
        if q <= 0 { MulNonNegative(-q, width); }
        MultipleOf(q - 1, width);
      } else {
        var q' := (s - (t + width)) / width;
        assert s - (t + width) == q' * width + (s - (t + width)) % width;
        if (s - (t + width)) % width == 0 && t + width <= s {
          MultipleOf(q' + 1, width);
        }
      }
    }
  }

  /** A start is listed exactly when it is on the grid from `t`, its slot ends by `horizon`, and it is offered. */
  lemma {:induction false} SlotsFromMembers(t: int, horizon: int, rules: SlotRules, toLocal: (string, int) -> LocalTime, s: int)
    requires rules.width > 0
    ensures s in SlotsFrom(t, horizon, rules, toLocal) <==>
              t <= s && (s - t) % rules.width == 0 && s + rules.width <= horizon && Offered(rules, toLocal, s)
    decreases horizon - t
  {
    GridStep(t, s, rules.width);
    if t + rules.width <= horizon {
      SlotsFromMembers(t + rules.width, horizon, rules, toLocal, s);
    }
  }

  /** Consecutive entries at least `width` apart: increasing starts of non-overlapping slots. */
  predicate Spaced(s: seq<int>, width: int) {
    forall i, j | 0 <= i < j < |s| :: s[i] + width <= s[j]
  }

  lemma SpacedSlotsDisjoint(s: seq<int>, width: int, i: int, j: int)
    requires width > 0 && Spaced(s, width) && 0 <= i < j < |s|
    ensures s[i] < s[j]
    ensures !OverlapsHalfOpen(Interval(s[i], s[i] + width), Interval(s[j], s[j] + width))
  {
  }

  /** Listed starts are at least one width apart in order, so the listed slots never overlap. */
  lemma {:induction false} SlotsFromOrdered(t: int, horizon: int, rules: SlotRules, toLocal: (string, int) -> LocalTime)
    requires rules.width > 0
    ensures Spaced(SlotsFrom(t, horizon, rules, toLocal), rules.width)
    decreases horizon - t
  {
    if t + rules.width <= horizon {
      var rest := SlotsFrom(t + rules.width, horizon, rules, toLocal);
      SlotsFromOrdered(t + rules.width, horizon, rules, toLocal);
      forall k | 0 <= k < |rest| ensures t + rules.width <= rest[k] {
        SlotsFromMembers(t + rules.width, horizon, rules, toLocal, rest[k]);
      }
      var head := if Offered(rules, toLocal, t) then [t] else [];
      var s := SlotsFrom(t, horizon, rules, toLocal);
      assert s == head + rest;
      forall i, j | 0 <= i < j < |s| ensures s[i] + rules.width <= s[j] {
        assert s[j] == rest[j - |head|];
        if i >= |head| {
          assert s[i] == rest[i - |head|];
        } else {
          assert s[i] == t;
        }
      }
    }
  }
}
