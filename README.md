# Calorie tracker store, modelled in Dafny

This project models the server-side core of a calorie-tracking web
application: the in-memory store `MemStorage` and the input validators of the
shared schema.

- **The store** holds food entries keyed by a generated id, and daily calorie goals keyed by date.
- **Food entries** can be created, partially updated and deleted. There are three read views:
  - the entries of one date;
  - the entries whose date lies in a closed range of date strings;
  - the "recent foods": newest first, one per `${name}-${serving}` key, cut to a limit.
- **Calorie goals**: setting one replaces any earlier goal for the same date.

## Modules

| file | module | what it holds |
|---|---|---|
| `wrappers.dfy` | `Wrappers` | `Option`, for JavaScript's `undefined` and `null` |
| `string_order.dfy` | `StringOrder` | JavaScript's `<=` on strings, with its order lemmas |
| `schema.dfy` | `Schema` | the record shapes; the date pattern, meal-type and calorie validators; the calendar reading of a date |
| `selection.dfy` | `Selection` | `filter` by a criterion, and the stable `sort` by timestamp |
| `recent_foods.dfy` | `RecentFoods` | the dedup key; the recent-foods pipeline as functions; a reference definition of "newest entry with a key" |
| `storage.dfy` | `Storage` | the class `MemStorage` and the lemmas about its operations |

## How the store is represented

- **Entries.** The entry Map becomes a sequence `entries`, kept in the order the Map iterates it, which is insertion order.
  - `Map.set` on a key that already exists keeps that key's position, so an update replaces the entry in place.
  - `Map.delete` removes the entry and keeps the others in order.
- **Goals.** The goal Map becomes a `map<string, CalorieGoal>` keyed by date.
- **Ids.** Identifiers come from a counter `nextId`, which stands in for `randomUUID()`.
  - The invariant `Valid()` keeps every id in use below the counter.
  - Each new id is drawn from the counter, which only moves forward. So no id is handed out twice, even after the entry that held it is deleted.
- **Clock.** `createFoodEntry` reads `new Date()`; here the reading is a parameter `now`.
  - No property of the read views assumes the clock is monotone.
  - `CreateFoodEntry` keeps the stored timestamps non-decreasing along the store order when `now` is no earlier than any stored timestamp. `UpdateFoodEntry` and `DeleteFoodEntry` keep them non-decreasing unconditionally.
  - When the stored timestamps are non-decreasing, `InsertionOrderWhenClockMonotone` shows the date view lists entries in store order, which is creation order.
- **Sorting.** `Array.prototype.sort` is stable.
  - Stability is stated per timestamp: for every timestamp `t`, the entries stamped `t` come out in the order they went in.
  - In the descending sort of the recent-foods view this means that, among tied entries with one key, the one inserted first wins.
- **String order.** String comparison is element-wise lexicographic order on `seq<char>` (`StringOrder.LessOrEqual`).
- **Date pattern.** The pattern `^\d{4}-\d{2}-\d{2}$` is a list of repeated atoms matched against the whole string.
  - `DateShape` gives its positional reading.
  - `DateOrderIsCalendarOrder` shows that for two strings the pattern accepts, string order is (year, month, day) order.
  - This is the fact the range view relies on.

The source's own quirks are reproduced:

- The dedup key is a plain string, so different name/serving pairs can collide (`KeyCollisions`).
- A null serving prints as `"null"` inside the key.
- `createFoodEntry` turns an empty serving into null; `updateFoodEntry` stores whatever serving it is given.
- The name validator accepts the empty string. The column is only `notNull`, and no `min(1)` is added, so the model follows that code.

## Model

| member | source | states |
|---|---|---|
| `Storage.MemStorage.constructor` | server/storage.ts:22-25 | a new store holds no entries and no goals, and its invariant holds |
| `Storage.MemStorage.GetFoodEntries` | server/storage.ts:27-31 | the result holds exactly the stored entries on that date, as a permutation of the filtered entries; it is in non-decreasing timestamp order; entries with equal timestamps keep their store order; the store is only read |
| `Storage.MemStorage.GetFoodEntriesRange` | server/storage.ts:33-37 | the result holds exactly the stored entries with `start <= date <= end` in string order, as a permutation; non-decreasing timestamps, ties in store order; empty when `start` comes after `end` |
| `Storage.MemStorage.CreateFoodEntry` | server/storage.ts:39-49 | the entry gets an id never handed out before, so no entry or goal uses it, the input's fields, the clock reading as timestamp, and a null serving when the input's is missing or empty; it is appended and returned as stored; goals unchanged; a validated input gives a valid entry; stored timestamps stay non-decreasing when `now` is no earlier than any of them |
| `Storage.StoredServing` | server/storage.ts:44 | `serving \|\| null`: null exactly when the serving is missing or empty, otherwise the serving unchanged |
| `Storage.MemStorage.UpdateFoodEntry` | server/storage.ts:51-61 | an unknown id yields nothing and changes nothing; otherwise exactly the entry with that id is replaced, in its position, by the patched entry, which is returned; goals and the id supply unchanged; non-decreasing stored timestamps stay non-decreasing |
| `Storage.Patched` | server/storage.ts:55-58 | `{ ...existing, ...updateData }`: a field the patch gives takes the patch's value, a field it omits keeps the entry's value, and `id` and `timestamp` never change |
| `Storage.PatchProperties` | server/storage.ts:55-58 | patching twice equals patching once; a patch that gives every field yields the same entry whatever the old fields were; a valid patch keeps a valid entry valid |
| `Storage.PatchExamples` | server/storage.ts:55-58 | a calories-only patch changes nothing but calories; an empty serving given to an update is stored as given, not turned into null |
| `Storage.MemStorage.DeleteFoodEntry` | server/storage.ts:63-65 | true exactly when the id was stored; the id is absent afterwards; the other entries keep their order; nothing changes when it returns false; non-decreasing stored timestamps stay non-decreasing |
| `Storage.IdsNeverReused` | server/storage.ts:39-97 | an entry created, a goal set, that entry deleted and another entry created carry three different ids: a freed id is not reissued |
| `Storage.DeleteTwice` | server/storage.ts:63-65 | a second delete of the same id returns false |
| `Storage.IndexOfId` | server/storage.ts:52 | `Map.get(id)`: a position holding that id, or nothing when no entry has it |
| `Storage.MemStorage.GetRecentFoods` | server/storage.ts:67-83 | the loop computes the recent-foods function. The result: at most `limit` entries; newest first; no two with the same key; each is the newest stored entry of its key; no dropped key has an entry newer than a kept one; all keys are present when fewer than `limit` come back |
| `RecentFoods.KeyCollisions` | server/storage.ts:76 | the key `${name}-${serving}` confuses `"a-b"`/`"c"` with `"a"`/`"b-c"`, and a null serving with the serving `"null"`; it does not confuse an empty serving with null |
| `RecentFoods.NewestIsNewest` | server/storage.ts:67-83 | the reference definition finds an entry exactly when the key occurs; what it finds has no newer entry of that key and precedes every tied one |
| `RecentFoods.SortedFirstIsNewest` | server/storage.ts:71-79 | the first entry of a key in the stable descending sort is the reference newest entry of that key |
| `RecentFoods.DedupProperties` | server/storage.ts:75-80 | keeping the first entry per key leaves distinct keys and the same key set; each kept entry is the first of its key; every kept entry comes from the input |
| `RecentFoods.DedupSorted` | server/storage.ts:75-80 | deduplicating a sorted list keeps it sorted |
| `RecentFoods.Take` | server/storage.ts:82 | `slice(0, limit)`: a prefix of the list, no longer than `limit`, and the whole list when it is shorter |
| `RecentFoods.RecentFoodsShape` | server/storage.ts:67-83 | at most `limit` results, in non-increasing timestamp order, with distinct keys, and every key when fewer than `limit` come back |
| `RecentFoods.RecentFoodsAreNewest` | server/storage.ts:67-83 | each result is the newest stored entry of its key; every entry whose key was dropped is no newer than any result |
| `Storage.MemStorage.GetCalorieGoal` | server/storage.ts:85-87 | the stored goal for the date, and nothing exactly when no goal is set for it |
| `Storage.MemStorage.SetCalorieGoal` | server/storage.ts:89-97 | the goal for the date becomes the input under an id never handed out before, replacing any earlier one; goals of other dates and all entries unchanged |
| `Storage.SetGoalTwice` | server/storage.ts:95 | two goals for one date leave one goal for that date: the later one |
| `Selection.SelectMembers` | server/storage.ts:29 | `filter` keeps exactly the elements that satisfy the criterion, each at most as often as it occurs |
| `Selection.SelectConcat` | server/storage.ts:29 | filtering distributes over concatenation, so it keeps relative order |
| `Selection.SortProperties` | server/storage.ts:30 | the timestamp sort returns a sorted permutation of its input in which entries with equal timestamps keep their order |
| `Selection.SortedIsUnchanged` | server/storage.ts:30 | sorting an already sorted list returns it unchanged |
| `Selection.SelectSorted` | server/storage.ts:29-30 | filtering a sorted list keeps it sorted |
| `Storage.InsertionOrderWhenClockMonotone` | server/storage.ts:27-31 | when the stored timestamps are non-decreasing along the store order, the date view lists entries in store order |
| `Storage.ReversedRangeIsEmpty` | server/storage.ts:35 | a range whose start comes after its end selects nothing |
| `Storage.RangeFilterIsCalendarRange` | server/storage.ts:35 | for valid dates, the string comparisons of the range filter select exactly the dates between the bounds on the calendar |
| `Storage.TwoOnOneDate` | server/storage.ts:27-31 | two entries on one date whose timestamps do not decrease come out of the date view's filter and sort in stored order |
| `Storage.TwoEntriesOneDate` | server/storage.ts:39-49 | two entries logged on one date, the second no earlier, are listed in creation order |
| `Schema.DateShape` | shared/schema.ts:28 | the anchored pattern `^\d{4}-\d{2}-\d{2}$` matches exactly the ten-character strings with dashes at positions 4 and 7 and ASCII digits elsewhere |
| `Schema.IsDate` | shared/schema.ts:28 | the date validator accepts exactly the ten-character strings with dashes at positions 4 and 7 and digits elsewhere; month and day ranges are not checked |
| `Schema.IsMealType` | shared/schema.ts:27 | the meal type is accepted exactly when it is one of "breakfast", "lunch", "dinner" or "snack", as spelled |
| `Schema.ValidInsertFoodEntry` | shared/schema.ts:22-29 | the insert validator accepts exactly what the partial validator accepts for a patch giving every field; an accepted input has calories of at least 0 and a ten-character date; name and serving are not checked |
| `Schema.ValidFoodEntryPatch` | shared/schema.ts:22-29 | the partial validator accepts a patch that gives no field; an accepted patch has calories of at least 0 and a ten-character date where it gives them |
| `Schema.ValidInsertCalorieGoal` | shared/schema.ts:31-36 | the goal validator accepts exactly a goal of at least 1 on a ten-character date with dashes at positions 4 and 7 and digits elsewhere, the same pattern as food-entry dates |
| `Schema.ValidatorExamples` | shared/schema.ts:22-36 | the empty name, zero calories and a goal of 1 are accepted; -1 calories, the meal type "Snack" and a goal of 0 are rejected; "2024-13-45" passes the date pattern; "2024-3-01" and a trailing space do not |
| `Schema.DateOrderIsCalendarOrder` | shared/schema.ts:28 | for two accepted dates, string order is (year, month, day) order |
| `Schema.DigitsOrder` | shared/schema.ts:28 | for equal-length digit strings, string order is numeric order |
| `StringOrder.Transitive` | server/storage.ts:35 | string comparison is transitive |
| `StringOrder.Total` | server/storage.ts:35 | any two strings are comparable |
| `StringOrder.Antisymmetric` | server/storage.ts:35 | two strings that are each `<=` the other are equal |
| `StringOrder.ConcatOrder` | server/storage.ts:35 | comparing concatenations whose first parts have equal length compares the first parts, then the rest |

## Left out

- `server/routes.ts` is not part of this model. It decides four small things:
  - it answers 400 when a range bound is missing;
  - it turns an absent result into 404;
  - it answers a default goal of 2000 when none is set;
  - it parses `limit` with `parseInt`, default 10.
- `limit` is a natural number. `slice` with a NaN or negative limit is not modelled.
- The client (`client/`) is not part of this model: rendering, data fetching, and the floating-point totals and percentages.
- `randomUUID()` becomes a counter. Ids are natural numbers rather than UUID strings, and entries and goals draw from one supply.
- `new Date()` becomes the parameter `now`. A timestamp is a whole number of milliseconds, and the nullable `timestamp` column is always set, as `createFoodEntry` sets it.
- `async`/`Promise`: each operation is a synchronous method, since nothing runs concurrently.
- Schema.ValidInsertFoodEntry: calories are integers, following the `integer` column. The `z.number().min(0)` validator alone would also accept fractions, which the store would keep.
- Schema.ValidFoodEntryPatch: the calories of a patch are integers too. The partial form of `z.number().min(0)` would also accept fractions.
- Schema.ValidInsertCalorieGoal: goals are integers, following the `integer` column. The `z.number().min(1)` validator alone would also accept fractions such as 1.5, which `setCalorieGoal` would store.
- StringOrder.LessOrEqual: compares Unicode code points. JavaScript compares UTF-16 code units. The two orders differ only for characters outside the Basic Multilingual Plane.
- Update patches: an update carries only the fields the partial insert validator lets through, so it never holds `id` or `timestamp`. A key present with the value `undefined` is not modelled.
- drizzle's table builders and zod's internals are represented only by the predicates they produce.
