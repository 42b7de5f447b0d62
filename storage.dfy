/**
 * The in-memory store `MemStorage`: food entries kept in the order their Map
 * iterates them (insertion order), calorie goals keyed by date, and a counter
 * that stands for the random identifier supply.
 */
module Storage {
  import opened Wrappers
  import opened Schema
  import opened Selection
  import opened RecentFoods
  import StringOrder

  /** `insertEntry.serving || null`: a missing, null or empty serving is stored as null. */
  function StoredServing(serving: Option<string>): (r: Option<string>)
    ensures r.None? <==> serving.None? || serving == Some("")
    ensures r.Some? ==> r == serving
  {
    match serving
    case None => None
    case Some(s) => if s == "" then None else Some(s)
  }

  /**
   * `{ ...existing, ...updateData }`: each field the patch gives replaces the
   * entry's, every other field keeps its value, and `id` and `timestamp`,
   * which a patch cannot carry, are never touched.
   */
  function Patched(e: FoodEntry, p: FoodEntryPatch): (r: FoodEntry)
    ensures r.id == e.id && r.timestamp == e.timestamp
    ensures r.name == if p.name.Some? then p.name.value else e.name
    ensures r.calories == if p.calories.Some? then p.calories.value else e.calories
    ensures r.serving == if p.serving.Some? then p.serving.value else e.serving
    ensures r.mealType == if p.mealType.Some? then p.mealType.value else e.mealType
    ensures r.date == if p.date.Some? then p.date.value else e.date
  {
    e.(
      name := if p.name.Some? then p.name.value else e.name,
      calories := if p.calories.Some? then p.calories.value else e.calories,
      serving := if p.serving.Some? then p.serving.value else e.serving,
      mealType := if p.mealType.Some? then p.mealType.value else e.mealType,
      date := if p.date.Some? then p.date.value else e.date)
  }

  /**
   * Applying a patch twice is applying it once, a patch that gives every
   * field ignores the entry's old fields, and a patch that passes the
   * partial validator keeps a valid entry valid.
   */
  lemma PatchProperties(e: FoodEntry, p: FoodEntryPatch)
    ensures Patched(Patched(e, p), p) == Patched(e, p)
    ensures p.name.Some? && p.calories.Some? && p.serving.Some? && p.mealType.Some? && p.date.Some? ==>
      forall e': FoodEntry | e'.id == e.id && e'.timestamp == e.timestamp :: Patched(e', p) == Patched(e, p)
    ensures ValidFoodEntry(e) && ValidFoodEntryPatch(p) ==> ValidFoodEntry(Patched(e, p))
  {
  }

  /** Updating only `calories` changes nothing else; an empty serving is kept as given. */
  lemma PatchExamples(e: FoodEntry)
    ensures Patched(e, FoodEntryPatch(None, Some(500), None, None, None)) == e.(calories := 500)
    ensures Patched(e, FoodEntryPatch(None, None, Some(Some("")), None, None)).serving == Some("")
  {
  }

  /**
   * Between two valid dates, the range filter's string comparisons select
   * exactly the valid dates between them on the calendar.
   */
  lemma RangeFilterIsCalendarRange(e: FoodEntry, start: string, end: string)
    requires IsDate(start) && IsDate(end) && IsDate(e.date)
    ensures |start| == 10 && |end| == 10 && |e.date| == 10
    ensures Satisfies(e, DateBetween(start, end))
        <==> CalendarLessOrEqual(start, e.date) && CalendarLessOrEqual(e.date, end)
  {
    DateOrderIsCalendarOrder(start, e.date);
    DateOrderIsCalendarOrder(e.date, end);
  }

  /** A range whose start comes after its end selects nothing. */
  lemma ReversedRangeIsEmpty(s: seq<FoodEntry>, start: string, end: string)
    ensures !StringOrder.LessOrEqual(start, end) ==> Select(s, DateBetween(start, end)) == []
  {
    if !StringOrder.LessOrEqual(start, end) {
      forall e | e in s ensures !Satisfies(e, DateBetween(start, end)) {
        if Satisfies(e, DateBetween(start, end)) {
          StringOrder.Transitive(start, e.date, end);
        }
      }
      SelectNone(s, DateBetween(start, end));
    }
  }

  /**
   * When the stored timestamps never decrease along the store order, the
   * date view lists entries in store order. `CreateFoodEntry`,
   * `UpdateFoodEntry` and `DeleteFoodEntry` keep the timestamps in that
   * order as long as the clock never runs backwards.
   */
  lemma InsertionOrderWhenClockMonotone(s: seq<FoodEntry>, date: string)
    requires Sorted(s, Ascending)
    ensures SortByTimestamp(Select(s, DateIs(date)), Ascending) == Select(s, DateIs(date))
  {
    SelectSorted(s, DateIs(date), Ascending);
    SortedIsUnchanged(Select(s, DateIs(date)), Ascending);
  }

  /** `Map.get(id)` on the entries: the position of the entry with that id. */
  function IndexOfId(s: seq<FoodEntry>, id: Id): (r: Option<nat>)
    ensures r.Some? ==> r.value < |s| && s[r.value].id == id
    ensures r.None? ==> forall k | 0 <= k < |s| :: s[k].id != id
  {
    if s == [] then None
    else if s[|s| - 1].id == id then Some(|s| - 1)
    else IndexOfId(s[..|s| - 1], id)
  }

  /**
   * Removing the entry at position `i` from entries with distinct ids below
   * `bound` leaves entries with distinct ids below `bound`, none of which has
   * the removed entry's id.
   */
  lemma RemoveAt(s: seq<FoodEntry>, i: nat, r: seq<FoodEntry>, bound: Id)
    requires i < |s| && r == s[..i] + s[i + 1..]
    requires forall a, b | 0 <= a < b < |s| :: s[a].id != s[b].id
    requires forall a | 0 <= a < |s| :: s[a].id < bound
    ensures forall a, b | 0 <= a < b < |r| :: r[a].id != r[b].id
    ensures forall a | 0 <= a < |r| :: r[a].id < bound
    ensures forall e | e in r :: e.id != s[i].id
  {
    assert forall j | 0 <= j < i :: r[j] == s[j];
    assert forall j | i <= j < |r| :: r[j] == s[j + 1];
    forall e | e in r ensures e.id != s[i].id {
      var j :| 0 <= j < |r| && r[j] == e;
      assert e == s[if j < i then j else j + 1];
    }
  }

  /** The number of recent foods a caller gets when it names no limit. */
  const DefaultRecentLimit: nat := 10

  class MemStorage {
    /** The food entries, in the order the Map iterates them: insertion order. */
    var entries: seq<FoodEntry>
    /** The calorie goals, keyed by date. */
    var goals: map<string, CalorieGoal>
    /** The next identifier to hand out; every identifier in use is below it. */
    var nextId: Id

    /** Entry ids are distinct and already handed out; each goal sits under its own date. */
    ghost predicate Valid()
      reads this
    {
      && (forall i, j | 0 <= i < j < |entries| :: entries[i].id != entries[j].id)
      && (forall i | 0 <= i < |entries| :: entries[i].id < nextId)
      && (forall d | d in goals :: goals[d].date == d && goals[d].id < nextId)
      && (forall d1, d2 | d1 in goals && d2 in goals && d1 != d2 :: goals[d1].id != goals[d2].id)
    }

    ghost function Ids(): set<Id>
      reads this
    {
      set e | e in entries :: e.id
    }

    ghost function GoalIds(): set<Id>
      reads this
    {
      set d | d in goals :: goals[d].id
    }

    constructor ()
      ensures Valid()
      ensures entries == [] && goals == map[]
    {
      entries := [];
      goals := map[];
      nextId := 0;
    }

    /**
     * `getFoodEntries(date)`: exactly the stored entries on `date`, in
     * non-decreasing timestamp order; entries that share a timestamp keep
     * their store order.
     */
    function GetFoodEntries(date: string): (r: seq<FoodEntry>)
      reads this
      ensures forall e :: e in r <==> e in entries && e.date == date
      ensures multiset(r) == multiset(Select(entries, DateIs(date)))
      ensures Sorted(r, Ascending)
      ensures forall t :: Select(r, TimestampIs(t)) == Select(Select(entries, DateIs(date)), TimestampIs(t))
    {
      var onDate := Select(entries, DateIs(date));
      SelectMembers(entries, DateIs(date));
      SortProperties(onDate, Ascending);
      var r := SortByTimestamp(onDate, Ascending);
      assert forall e :: e in r <==> e in multiset(r);
      assert forall e :: e in onDate <==> e in multiset(onDate);
      r
    }

    /**
     * `getFoodEntriesRange(start, end)`: exactly the stored entries whose date
     * lies between `start` and `end` in string order, in non-decreasing
     * timestamp order with ties in store order; nothing when `start` comes
     * after `end`.
     */
    function GetFoodEntriesRange(start: string, end: string): (r: seq<FoodEntry>)
      reads this
      ensures forall e :: e in r <==>
        e in entries && StringOrder.LessOrEqual(start, e.date) && StringOrder.LessOrEqual(e.date, end)
      ensures multiset(r) == multiset(Select(entries, DateBetween(start, end)))
      ensures Sorted(r, Ascending)
      ensures forall t :: Select(r, TimestampIs(t)) == Select(Select(entries, DateBetween(start, end)), TimestampIs(t))
      ensures !StringOrder.LessOrEqual(start, end) ==> r == []
    {
      var inRange := Select(entries, DateBetween(start, end));
      SelectMembers(entries, DateBetween(start, end));
      SortProperties(inRange, Ascending);
      ReversedRangeIsEmpty(entries, start, end);
      var r := SortByTimestamp(inRange, Ascending);
      assert forall e :: e in r <==> e in multiset(r);
      assert forall e :: e in inRange <==> e in multiset(inRange);
      r
    }

    /**
     * `createFoodEntry(input)`: stores the input under a fresh id, stamped
     * with the clock reading `now`, at the end of the iteration order, and
     * returns exactly what it stored.
     */
    method CreateFoodEntry(input: InsertFoodEntry, now: int) returns (entry: FoodEntry)
      requires Valid()
      modifies this
      ensures Valid()
      ensures entry.id !in old(Ids()) && entry.id !in old(GoalIds())
      ensures old(nextId) <= entry.id < nextId
      ensures entry.name == input.name && entry.calories == input.calories
      ensures entry.serving == StoredServing(input.serving)
      ensures entry.mealType == input.mealType && entry.date == input.date
      ensures entry.timestamp == now
      ensures entries == old(entries) + [entry]
      ensures goals == old(goals)
      ensures ValidInsertFoodEntry(input) ==> ValidFoodEntry(entry)
      ensures Sorted(old(entries), Ascending) && (forall e | e in old(entries) :: e.timestamp <= now) ==>
        Sorted(entries, Ascending)
    {
      var id := nextId;
      nextId := nextId + 1;
      entry := FoodEntry(id, input.name, input.calories, StoredServing(input.serving),
                         input.mealType, input.date, now);
      if Sorted(entries, Ascending) && (forall e | e in entries :: e.timestamp <= now) {
        SortedAppend(entries, entry, Ascending);
      }
      entries := entries + [entry];
    }

    /**
     * `updateFoodEntry(id, patch)`: nothing for an unknown id, and nothing
     * changes; otherwise the entry with that id gets the patched fields in
     * place, keeping its id, timestamp and position, and is returned.
     */
    method UpdateFoodEntry(id: Id, patch: FoodEntryPatch) returns (updated: Option<FoodEntry>)
      requires Valid()
      modifies this
      ensures Valid()
      ensures updated.None? <==> id !in old(Ids())
      ensures updated.None? ==> entries == old(entries)
      ensures |entries| == |old(entries)|
      ensures forall k | 0 <= k < |entries| ::
        entries[k] == if old(entries)[k].id == id then Patched(old(entries)[k], patch) else old(entries)[k]
      ensures updated.Some? ==> exists k | 0 <= k < |entries| ::
        old(entries)[k].id == id && updated.value == entries[k]
      ensures goals == old(goals) && nextId == old(nextId)
      ensures Sorted(old(entries), Ascending) ==> Sorted(entries, Ascending)
    {
      var k := IndexOfId(entries, id);
      if k.None? {
        updated := None;
        assert id !in Ids();
      } else {
        var e := Patched(entries[k.value], patch);
        if Sorted(entries, Ascending) {
          SortedSameTimestamps(entries, entries[k.value := e], Ascending);
        }
        entries := entries[k.value := e];
        updated := Some(e);
        assert old(entries)[k.value] in old(entries);
      }
    }

    /**
     * `deleteFoodEntry(id)`: true exactly when the id was stored; the entry
     * is gone afterwards and the others keep their order.
     */
    method DeleteFoodEntry(id: Id) returns (deleted: bool)
      requires Valid()
      modifies this
      ensures Valid()
      ensures deleted <==> id in old(Ids())
      ensures id !in Ids()
      ensures !deleted ==> entries == old(entries)
      ensures deleted ==> exists k | 0 <= k < |old(entries)| ::
        old(entries)[k].id == id && entries == old(entries)[..k] + old(entries)[k + 1..]
      ensures goals == old(goals) && nextId == old(nextId)
      ensures Sorted(old(entries), Ascending) ==> Sorted(entries, Ascending)
    {
      var k := IndexOfId(entries, id);
      if k.None? {
        deleted := false;
      } else {
        var i := k.value;
        assert entries[i] in entries;
        if Sorted(entries, Ascending) {
          SortedRemove(entries, i, Ascending);
        }
        RemoveAt(entries, i, entries[..i] + entries[i + 1..], nextId);
        entries := entries[..i] + entries[i + 1..];
        deleted := true;
      }
    }

    /**
     * `getRecentFoods(limit)`: newest first, one entry per
     * `${name}-${serving}` key, at most `limit` of them; each is the newest
     * stored entry of its key, and no key left out is newer than one kept.
     */
    method GetRecentFoods(limit: nat := DefaultRecentLimit) returns (recent: seq<FoodEntry>)
      ensures recent == RecentFoodsOf(entries, limit)
      ensures |recent| <= limit
      ensures Sorted(recent, Descending)
      ensures forall i, j | 0 <= i < j < |recent| :: Key(recent[i]) != Key(recent[j])
      ensures forall i | 0 <= i < |recent| :: Newest(entries, Key(recent[i])) == Some(recent[i])
      ensures forall e, i | e in entries && Key(e) !in KeysOf(recent) && 0 <= i < |recent| ::
        e.timestamp <= recent[i].timestamp
      ensures |recent| < limit ==> KeysOf(recent) == KeysOf(entries)
    {
      var sorted := SortByTimestamp(entries, Descending);
      var seen: set<string> := {};
      var unique: seq<FoodEntry> := [];
      for i := 0 to |sorted|
        invariant unique == Dedup(sorted[..i])
        invariant seen == KeysOf(unique)
      {
        var entry := sorted[i];
        assert sorted[..i + 1][..i] == sorted[..i] && sorted[..i + 1][i] == entry;
        var key := Key(entry);
        if key !in seen {
          KeysOfAppend(unique, entry);
          seen := seen + {key};
          unique := unique + [entry];
        }
      }
      assert sorted[..|sorted|] == sorted;
      recent := if limit <= |unique| then unique[..limit] else unique;
      RecentFoodsShape(entries, limit);
      RecentFoodsAreNewest(entries, limit);
    }

    /** `getCalorieGoal(date)`: the goal stored for that date, or nothing. */
    function GetCalorieGoal(date: string): (r: Option<CalorieGoal>)
      reads this
      ensures r.Some? <==> date in goals
      ensures r.Some? ==> r.value == goals[date]
    {
      if date in goals then Some(goals[date]) else None
    }

    /**
     * `setCalorieGoal(input)`: the goal for `input.date` becomes the input
     * under a fresh id, replacing any earlier goal for that date; goals for
     * other dates and all entries stay as they were.
     */
    method SetCalorieGoal(input: InsertCalorieGoal) returns (goal: CalorieGoal)
      requires Valid()
      modifies this
      ensures Valid()
      ensures goal.dailyCaloriesGoal == input.dailyCaloriesGoal && goal.date == input.date
      ensures goal.id !in old(GoalIds()) && goal.id !in old(Ids())
      ensures old(nextId) <= goal.id < nextId
      ensures GetCalorieGoal(input.date) == Some(goal)
      ensures forall d | d != input.date :: GetCalorieGoal(d) == old(GetCalorieGoal(d))
      ensures goals.Keys == old(goals.Keys) + {input.date}
      ensures entries == old(entries)
    {
      var id := nextId;
      nextId := nextId + 1;
      goal := CalorieGoal(id, input.dailyCaloriesGoal, input.date);
      goals := goals[input.date := goal];
    }
  }

  /** Deleting one id twice: the second call finds nothing. */
  method DeleteTwice(store: MemStorage, id: Id) returns (first: bool, second: bool)
    requires store.Valid()
    modifies store
    ensures first <==> id in old(store.Ids())
    ensures !second
  {
    first := store.DeleteFoodEntry(id);
    second := store.DeleteFoodEntry(id);
  }

  /** Two goals for one date: one goal remains for that date, the later one. */
  method SetGoalTwice(store: MemStorage, date: string) returns (goal: Option<CalorieGoal>)
    requires store.Valid()
    modifies store
    ensures goal.Some? && goal.value.date == date && goal.value.dailyCaloriesGoal == 2200
    ensures store.goals.Keys == old(store.goals.Keys) + {date}
  {
    var _ := store.SetCalorieGoal(InsertCalorieGoal(1800, date));
    var _ := store.SetCalorieGoal(InsertCalorieGoal(2200, date));
    goal := store.GetCalorieGoal(date);
  }

  /** Two entries on one date, in clock order, are listed as they were stored. */
  lemma TwoOnOneDate(first: FoodEntry, second: FoodEntry, date: string)
    requires first.date == date && second.date == date
    requires first.timestamp <= second.timestamp
    ensures SortByTimestamp(Select([first, second], DateIs(date)), Ascending) == [first, second]
  {
    var both := [first, second];
    assert Sorted(both, Ascending);
    assert Select(both, DateIs(date)) == both by {
      assert both[..1] == [first];
      assert Select([first], DateIs(date)) == [first] by {
        assert [first][..0] == [];
      }
    }
    InsertionOrderWhenClockMonotone(both, date);
  }

  /**
   * Two entries logged for one date, the second no earlier on the clock: the
   * date view lists both in creation order.
   */
  method TwoEntriesOneDate(now1: int, now2: int) returns (listed: seq<FoodEntry>)
    requires now1 <= now2
    ensures |listed| == 2 && listed[0].name == "Apple" && listed[1].name == "Toast"
    ensures listed[0].calories + listed[1].calories == 215
  {
    var store := new MemStorage();
    var apple := store.CreateFoodEntry(InsertFoodEntry("Apple", 95, None, "snack", "2024-03-01"), now1);
    var toast := store.CreateFoodEntry(InsertFoodEntry("Toast", 120, None, "breakfast", "2024-03-01"), now2);
    assert store.entries == [apple, toast];
    TwoOnOneDate(apple, toast, "2024-03-01");
    listed := store.GetFoodEntries("2024-03-01");
  }

  /**
   * An id freed by a delete is never handed out again: an entry created,
   * a goal set, the entry deleted and another entry created all carry
   * different ids.
   */
  method IdsNeverReused(store: MemStorage, first: InsertFoodEntry, goal: InsertCalorieGoal,
                        second: InsertFoodEntry, now1: int, now2: int)
    returns (e1: FoodEntry, g: CalorieGoal, e2: FoodEntry)
    requires store.Valid()
    modifies store
    ensures e1.id != e2.id && e1.id != g.id && g.id != e2.id
  {
    e1 := store.CreateFoodEntry(first, now1);
    g := store.SetCalorieGoal(goal);
    var _ := store.DeleteFoodEntry(e1.id);
    e2 := store.CreateFoodEntry(second, now2);
  }
}
