/** The meal-plan store: a map from calendar date (an ISO `YYYY-MM-DD`
    string) to the ordered list of meals planned for that day, kept under one
    storage key. Every operation reads the whole plan, changes one day and
    writes the whole plan back. */
module MealPlan {
  import opened Optional
  import opened Storage
  import opened Seqs
  import opened Text

  /** A planned meal: catalog id (`idMeal`, may be null), the name
      (`strMeal`; the empty string also stands for a missing name), the
      thumbnail, and the entry's own list key `_id`. */
  datatype Entry = Entry(id: Option<string>, name: string, thumb: Option<string>, entryId: string)

  /** The meal handed to `addMealToDate`: every field may be missing. */
  datatype MealInput = MealInput(id: Option<string>, name: Option<string>, thumb: Option<string>, entryId: Option<string>)

  type Plan = map<string, seq<Entry>>

  /** A store operation's outcome: the plan it returns to the view, and the
      plan it writes to storage (`None` when it writes nothing). */
  datatype Saved = Saved(returned: Plan, write: Option<Plan>)

  /** `loadPlan`: the stored plan, or the empty plan when the key is missing
      or its text does not parse. */
  function LoadPlan(stored: Stored<Plan>): (r: Plan)
    ensures stored.Parsed? ==> r == stored.value
    ensures !stored.Parsed? ==> r == map[]
  {
    Load(stored, map[])
  }

  /** The list planned for `date`; an absent date reads as the empty list. */
  function DayOf(plan: Plan, date: string): seq<Entry> {
    if date in plan then plan[date] else []
  }

  /** JavaScript truthiness of an id: present and not the empty string. */
  predicate Truthy(id: Option<string>) {
    id.Some? && id.value != ""
  }

  /** Two entries are duplicates on a day when they share a truthy catalog id,
      or both have a name and the names agree after lower-casing. */
  predicate Clash(a: Entry, b: Entry) {
    || (Truthy(a.id) && Truthy(b.id) && a.id == b.id)
    || (a.name != "" && b.name != "" && Lower(a.name) == Lower(b.name))
  }

  /** The per-day invariant: no two entries of the day are duplicates. */
  ghost predicate DayOk(day: seq<Entry>) {
    forall i, j :: 0 <= i < j < |day| ==> !Clash(day[i], day[j])
  }

  /** The plan invariant: every listed date has at least one entry and no duplicates. */
  ghost predicate PlanOk(plan: Plan) {
    forall d :: d in plan ==> |plan[d]| > 0 && DayOk(plan[d])
  }

  /** The duplicate test of one existing entry against the meal being added,
      whose trimmed name is `name`. */
  predicate IsDuplicate(m: Entry, id: Option<string>, name: string) {
    || (Truthy(m.id) && Truthy(id) && m.id == id)
    || (m.name != "" && Lower(m.name) == Lower(name))
  }

  /** `day.some(m => ...)` with the duplicate test. */
  function AnyDuplicate(day: seq<Entry>, id: Option<string>, name: string): (r: bool)
    ensures r <==> exists i :: 0 <= i < |day| && IsDuplicate(day[i], id, name)
  {
    if |day| == 0 then false
    else if IsDuplicate(day[0], id, name) then true
    else
      assert forall i :: 1 <= i < |day| ==> day[i] == day[1..][i - 1];
      AnyDuplicate(day[1..], id, name)
  }

  /** The entry an accepted add appends: missing id and thumbnail become null,
      and the entry keeps the `_id` it came with or takes the fresh one. */
  function NewEntry(meal: MealInput, name: string, freshId: string): Entry {
    Entry(meal.id, name, meal.thumb, ValueOr(meal.entryId, freshId))
  }

  /** `addMealToDate`. A name that trims to nothing, or a meal that duplicates
      an entry already on that day, leaves the loaded plan as it is and writes
      nothing; otherwise the new entry goes at the end of the day and the whole
      plan is written. `freshId` stands for the generated `_id`. */
  function AddMealToDate(stored: Stored<Plan>, date: string, meal: MealInput, freshId: string): (r: Saved)
    ensures var all := LoadPlan(stored);
      var name := Trim(ValueOr(meal.name, ""));
      var prev := DayOf(all, date);
      var e := NewEntry(meal, name, freshId);
      && (name == [] ==> r == Saved(all, None))
      && (name != [] ==>
            ((exists i :: 0 <= i < |prev| && Clash(prev[i], e)) <==> r == Saved(all, None)))
      && (r.write.Some? ==>
            && r.write == Some(r.returned)
            && r.returned.Keys == all.Keys + {date}
            && r.returned[date] == prev + [e]
            && (forall d :: d in all && d != date ==> r.returned[d] == all[d]))
      && (r.write.None? ==> r.returned == all)
  {
    var all := LoadPlan(stored);
    var prev := DayOf(all, date);
    var name := Trim(ValueOr(meal.name, ""));
    if name == [] then Saved(all, None)
    else if AnyDuplicate(prev, meal.id, name) then Saved(all, None)
    else
      var e := NewEntry(meal, name, freshId);
      var updated := all[date := prev + [e]];
      Saved(updated, Some(updated))
  }

  /** `addMealToDate` keeps the plan invariant. */
  lemma AddKeepsPlanOk(stored: Stored<Plan>, date: string, meal: MealInput, freshId: string)
    requires PlanOk(LoadPlan(stored))
    ensures PlanOk(AddMealToDate(stored, date, meal, freshId).returned)
  {
    var all := LoadPlan(stored);
    var r := AddMealToDate(stored, date, meal, freshId);
    if r.write.Some? {
      var name := Trim(ValueOr(meal.name, ""));
      var prev := DayOf(all, date);
      var e := NewEntry(meal, name, freshId);
      var day := prev + [e];
      assert DayOk(prev);
      forall i, j | 0 <= i < j < |day| ensures !Clash(day[i], day[j]) {
        if j == |prev| {
          assert day[j] == e;
        } else {
          assert day[i] == prev[i] && day[j] == prev[j];
        }
      }
    }
  }

  /** Adding the same meal a second time, whatever its generated id, is
      rejected: the day keeps exactly one copy. */
  lemma AddTwiceKeepsOne(stored: Stored<Plan>, date: string, meal: MealInput, freshId: string, freshId2: string)
    requires AddMealToDate(stored, date, meal, freshId).write.Some?
    ensures var first := AddMealToDate(stored, date, meal, freshId).returned;
      AddMealToDate(Parsed(first), date, meal, freshId2) == Saved(first, None)
  {
    var first := AddMealToDate(stored, date, meal, freshId).returned;
    var name := Trim(ValueOr(meal.name, ""));
    var day := DayOf(first, date);
    var e2 := NewEntry(meal, name, freshId2);
    assert day[|day| - 1] == NewEntry(meal, name, freshId);
    assert Clash(day[|day| - 1], e2);
  }

  /** `removeMealFromDate`: drop the entry at position `idx` of that day
      (an index outside the list drops nothing), remove the date when its list
      ends up empty, and write the whole plan. */
  function RemoveMealFromDate(stored: Stored<Plan>, date: string, idx: int): (r: Saved)
    ensures var all := LoadPlan(stored);
      var prev := DayOf(all, date);
      var kept := if 0 <= idx < |prev| then prev[..idx] + prev[idx + 1..] else prev;
      && r.write == Some(r.returned)
      && (date in r.returned <==> kept != [])
      && (date in r.returned ==> r.returned[date] == kept)
      && (forall d :: d != date ==> (d in r.returned <==> d in all))
      && (forall d :: d != date && d in all ==> r.returned[d] == all[d])
  {
    var all := LoadPlan(stored);
    var day := DropIndex(DayOf(all, date), idx);
    var updated := if |day| > 0 then all[date := day] else all - {date};
    Saved(updated, Some(updated))
  }

  /** Dropping one position keeps a day free of duplicates. */
  lemma DropKeepsDayOk(day: seq<Entry>, idx: int)
    requires DayOk(day)
    ensures DayOk(DropIndex(day, idx))
  {
    if 0 <= idx < |day| {
      var r := DropIndex(day, idx);
      DropIndexAt(day, idx);
      forall i, j | 0 <= i < j < |r| ensures !Clash(r[i], r[j]) {
        var i' := if i < idx then i else i + 1;
        var j' := if j < idx then j else j + 1;
        assert r[i] == day[i'] && r[j] == day[j'];
        assert !Clash(day[i'], day[j']);
      }
    }
  }

  /** `removeMealFromDate` keeps the plan invariant: in particular no date is
      left mapped to an empty list. */
  lemma RemoveKeepsPlanOk(stored: Stored<Plan>, date: string, idx: int)
    requires PlanOk(LoadPlan(stored))
    ensures PlanOk(RemoveMealFromDate(stored, date, idx).returned)
  {
    var all := LoadPlan(stored);
    DropKeepsDayOk(DayOf(all, date), idx);
  }
}
