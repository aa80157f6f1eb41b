/**
 * The calendar picker: a multi-select over the calendars the account can see, which also keeps and
 * offers ids that were typed in by hand (addresses of other people's calendars).
 */
module CalendarMultiSelect {
  import opened Wrappers
  import opened SeqUtil
  import JsText

  datatype CalendarInfo = CalendarInfo(id: string, name: string)

  function Ids(cals: seq<CalendarInfo>): (r: seq<string>)
    ensures |r| == |cals| && forall i | 0 <= i < |cals| :: r[i] == cals[i].id
  {
    if cals == [] then [] else [cals[0].id] + Ids(cals[1..])
  }

  lemma IdsAppend(a: seq<CalendarInfo>, b: seq<CalendarInfo>)
    ensures Ids(a + b) == Ids(a) + Ids(b)
  {
  }

  /** `extraSelected`: the selected ids the available list does not know, each shown under its own id. */
  function ExtraSelected(selected: seq<string>, available: seq<CalendarInfo>): (r: seq<CalendarInfo>)
    ensures forall k | 0 <= k < |r| :: r[k].name == r[k].id && r[k].id in selected && r[k].id !in Ids(available)
    ensures forall i | 0 <= i < |selected| && selected[i] !in Ids(available) :: selected[i] in Ids(r)
  {
    if selected == [] then []
    else
      var rest := ExtraSelected(selected[1..], available);
      IdsAppend([CalendarInfo(selected[0], selected[0])], rest);
      if selected[0] in Ids(available) then rest else [CalendarInfo(selected[0], selected[0])] + rest
  }

  /** The extra options follow the selection's order: the list of a concatenation is the concatenation of the lists. */
  lemma {:induction false} ExtraSelectedAppend(a: seq<string>, b: seq<string>, available: seq<CalendarInfo>)
    ensures ExtraSelected(a + b, available) == ExtraSelected(a, available) + ExtraSelected(b, available)
  {
    if a != [] {
      assert (a + b)[0] == a[0] && (a + b)[1..] == a[1..] + b;
      ExtraSelectedAppend(a[1..], b, available);
    } else {
      assert a + b == b;
    }
  }

  /** A single selected id contributes one option exactly when it is not available. */
  lemma ExtraSelectedSingle(id: string, available: seq<CalendarInfo>)
    ensures ExtraSelected([id], available) == if id in Ids(available) then [] else [CalendarInfo(id, id)]
  {
    assert [id][1..] == [];
  }

  /** `allOptions`: the available calendars in order, then the custom selected ids. */
  function AllOptions(selected: seq<string>, available: seq<CalendarInfo>): (r: seq<CalendarInfo>)
    ensures |available| <= |r| && r[..|available|] == available
    ensures forall j | |available| <= j < |r| :: r[j].name == r[j].id && r[j].id in selected && r[j].id !in Ids(available)
    ensures forall i | 0 <= i < |selected| :: selected[i] in Ids(r)
  {
    var extra := ExtraSelected(selected, available);
    IdsAppend(available, extra);
    available + extra
  }

  /** `handleSelect`: clicking an option unselects every copy of it, or appends it when unselected. */
  function HandleSelect(selected: seq<string>, id: string): (r: seq<string>)
    ensures id in r <==> id !in selected
    ensures forall i | 0 <= i < |selected| && selected[i] != id :: selected[i] in r
    ensures forall i | 0 <= i < |r| && r[i] != id :: r[i] in selected
    ensures id !in selected ==> r == selected + [id]
    ensures id in selected ==> |r| < |selected| && r == Without(selected, id)
  {
    if id in selected then
      assert multiset(selected)[id] > 0;
      assert |multiset(Without(selected, id))| < |multiset(selected)|;
      Without(selected, id)
    else selected + [id]
  }

  lemma HandleSelectKeepsDistinct(selected: seq<string>, id: string)
    requires Distinct(selected)
    ensures Distinct(HandleSelect(selected, id))
  {
    if id in selected {
      WithoutKeepsDistinct(selected, id);
    }
  }

  /** Selecting an unselected id and clicking it again restores the selection. */
  lemma SelectThenUnselect(selected: seq<string>, id: string)
    requires id !in selected
    ensures HandleSelect(HandleSelect(selected, id), id) == selected
  {
    assert Without(selected + [id], id) == Without(selected, id) + Without([id], id) by {
      WithoutAppend(selected, [id], id);
    }
  }

  /**
   * Unselecting an id and selecting it again keeps the same set of ids without repeats, but the id
   * moves to the end of the list.
   */
  lemma UnselectThenSelect(selected: seq<string>, id: string)
    requires Distinct(selected) && id in selected
    ensures HandleSelect(HandleSelect(selected, id), id) == Without(selected, id) + [id]
    ensures multiset(HandleSelect(HandleSelect(selected, id), id)) == multiset(selected)
    ensures Distinct(HandleSelect(HandleSelect(selected, id), id))
  {
    DistinctCount(selected, id);
    var twice := Without(selected, id) + [id];
    assert multiset(twice) == multiset(selected)[id := 0] + multiset{id};
    DistinctPermutation(selected, twice);
  }

  /** So toggling twice does not restore every duplicate-free selection: the order can change. */
  lemma ToggleTwiceReorders()
    ensures HandleSelect(HandleSelect(["a", "b"], "a"), "a") == ["b", "a"]
  {
    assert Without(["a", "b"], "a") == ["b"] by {
      assert ["a", "b"][1..] == ["b"];
      assert ["b"][1..] == [];
    }
  }

  /** The picker's own state: the selection it was given and the search text typed into it. */
  datatype Picker = Picker(selected: seq<string>, search: string)

  /** `handleAddCustom`: adds the search text as a new id and clears the search. */
  function HandleAddCustom(p: Picker): (r: Picker)
    ensures p.search == [] || p.search in p.selected ==> r == p
    ensures p.search != [] && p.search !in p.selected ==>
      r.selected == p.selected + [p.search] && r.search == []
  {
    if p.search != [] && p.search !in p.selected then Picker(p.selected + [p.search], []) else p
  }

  /** `Add "…"` is offered, in the empty-result view, only for search text containing `@`. */
  predicate OffersCustomAdd(search: string) {
    search != [] && '@' in search
  }

  /** The offered action adds the typed address, which contains `@`, and clears the search. */
  lemma OfferedAddAppendsAddress(p: Picker)
    requires OffersCustomAdd(p.search) && p.search !in p.selected
    ensures HandleAddCustom(p) == Picker(p.selected + [p.search], [])
    ensures '@' in HandleAddCustom(p).selected[|p.selected|]
  {
  }

  lemma AddCustomKeepsDistinct(p: Picker)
    requires Distinct(p.selected)
    ensures Distinct(HandleAddCustom(p).selected)
  {
  }

  /** What the closed picker shows. */
  datatype TriggerLabel = Placeholder(text: string) | Badges(labels: seq<string>) | Summary(text: string)

  predicate FirstWithId(options: seq<CalendarInfo>, j: int, id: string) {
    0 <= j < |options| && options[j].id == id && forall k | 0 <= k < j :: options[k].id != id
  }

  /** `allOptions.find(c => c.id === id)`. */
  function FindById(options: seq<CalendarInfo>, id: string): (r: Option<CalendarInfo>)
    ensures r.None? <==> id !in Ids(options)
    ensures r.Some? ==> r.value in options && r.value.id == id
    ensures forall j | FirstWithId(options, j, id) :: r == Some(options[j])
  {
    if options == [] then None
    else if options[0].id == id then Some(options[0])
    else
      var r := FindById(options[1..], id);
      assert forall j | FirstWithId(options, j, id) :: FirstWithId(options[1..], j - 1, id);
      r
  }

  lemma {:induction false} FindByIdAppend(a: seq<CalendarInfo>, b: seq<CalendarInfo>, id: string)
    ensures FindById(a + b, id) == if id in Ids(a) then FindById(a, id) else FindById(b, id)
  {
    if a == [] {
      assert a + b == b;
    } else {
      assert (a + b)[0] == a[0] && (a + b)[1..] == a[1..] + b;
      assert Ids(a) == [a[0].id] + Ids(a[1..]);
      FindByIdAppend(a[1..], b, id);
    }
  }

  /** `cal?.name || id`. */
  function BadgeLabel(options: seq<CalendarInfo>, id: string): string {
    match FindById(options, id)
    case Some(cal) => if cal.name != [] then cal.name else id
    case None => id
  }

  lemma BadgeLabelOfOption(selected: seq<string>, available: seq<CalendarInfo>, id: string)
    ensures id !in Ids(available) ==> BadgeLabel(AllOptions(selected, available), id) == id
    ensures forall j | FirstWithId(available, j, id) ::
      BadgeLabel(AllOptions(selected, available), id) == if available[j].name != [] then available[j].name else id
  {
    FindByIdAppend(available, ExtraSelected(selected, available), id);
  }

  /** The trigger: the placeholder, up to three badges, or a count. */
  function Trigger(selected: seq<string>, available: seq<CalendarInfo>, placeholder: string): (r: TriggerLabel)
    ensures |selected| == 0 ==> r == Placeholder(placeholder)
    ensures 1 <= |selected| <= 3 ==> r.Badges? && |r.labels| == |selected|
    ensures 1 <= |selected| <= 3 ==>
      forall i | 0 <= i < |selected| && selected[i] !in Ids(available) :: r.labels[i] == selected[i]
    ensures 1 <= |selected| <= 3 ==>
      forall i, j | 0 <= i < |selected| && FirstWithId(available, j, selected[i]) ::
        r.labels[i] == if available[j].name != [] then available[j].name else selected[i]
    ensures |selected| > 3 ==> r == Summary(JsText.IntToString(|selected|) + " calendars selected")
  {
    if |selected| == 0 then Placeholder(placeholder)
    else if |selected| <= 3 then
      var options := AllOptions(selected, available);
      var labels := seq(|selected|, i requires 0 <= i < |selected| => BadgeLabel(options, selected[i]));
      assert forall i | 0 <= i < |selected| ::
        (selected[i] !in Ids(available) ==> labels[i] == selected[i]) by {
        forall i | 0 <= i < |selected| ensures selected[i] !in Ids(available) ==> labels[i] == selected[i] {
          BadgeLabelOfOption(selected, available, selected[i]);
        }
      }
      assert forall i, j | 0 <= i < |selected| && FirstWithId(available, j, selected[i]) ::
        labels[i] == if available[j].name != [] then available[j].name else selected[i] by {
        forall i, j | 0 <= i < |selected| && FirstWithId(available, j, selected[i])
          ensures labels[i] == if available[j].name != [] then available[j].name else selected[i] {
          BadgeLabelOfOption(selected, available, selected[i]);
        }
      }
      Badges(labels)
    else Summary(JsText.IntToString(|selected|) + " calendars selected")
  }
}
