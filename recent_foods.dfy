/**
 * The "recent foods" view: entries sorted newest first, one per
 * `${name}-${serving}` key (the first one met in that order), cut to a limit.
 * Next to it, a reference definition of "the newest entry with a key" that
 * does not sort, and the lemmas that tie the two together.
 */
module RecentFoods {
  import opened Wrappers
  import opened Schema
  import opened Selection

  /** What a serving turns into inside a template literal: null prints as "null". */
  function ServingText(serving: Option<string>): string
  {
    match serving
    case None => "null"
    case Some(s) => s
  }

  /** The dedup key `${name}-${serving}`. */
  function DedupKey(name: string, serving: Option<string>): string
  {
    name + "-" + ServingText(serving)
  }

  function Key(e: FoodEntry): string
  {
    DedupKey(e.name, e.serving)
  }

  /**
   * The key is a plain string, so different (name, serving) pairs can share
   * one: a dash may move between name and serving, and a null serving reads
   * like the serving "null".
   */
  lemma KeyCollisions()
    ensures DedupKey("a-b", Some("c")) == DedupKey("a", Some("b-c"))
    ensures DedupKey("Apple", None) == DedupKey("Apple", Some("null"))
    ensures DedupKey("Apple", Some("")) != DedupKey("Apple", None)
  {
    assert DedupKey("Apple", Some(""))[6..] == "";
  }

  function KeysOf(s: seq<FoodEntry>): set<string>
  {
    set e | e in s :: Key(e)
  }

  /** The loop that fills `uniqueFoods`: keep the first entry met for each key, in order. */
  function Dedup(s: seq<FoodEntry>): seq<FoodEntry>
  {
    if s == [] then []
    else
      var kept, x := Dedup(s[..|s| - 1]), s[|s| - 1];
      if Key(x) in KeysOf(kept) then kept else kept + [x]
  }

  /** `slice(0, n)`: the longest prefix of `s` with at most `n` elements. */
  function Take(s: seq<FoodEntry>, n: nat): (r: seq<FoodEntry>)
    ensures |r| <= n && |r| <= |s| && r == s[..|r|]
    ensures |r| == n || r == s
  {
    if n <= |s| then s[..n] else s
  }

  /** The first entry of `s` with key `k`. */
  function FirstWithKey(s: seq<FoodEntry>, k: string): Option<FoodEntry>
  {
    if s == [] then None
    else if Key(s[0]) == k then Some(s[0])
    else FirstWithKey(s[1..], k)
  }

  /**
   * Reference definition, in insertion order: the position of the entry with
   * key `k` and the greatest timestamp; among equal timestamps, the earliest.
   */
  function NewestIndex(s: seq<FoodEntry>, k: string): (r: Option<nat>)
    ensures r.Some? ==> r.value < |s|
  {
    if s == [] then None
    else
      var best, x := NewestIndex(s[..|s| - 1], k), s[|s| - 1];
      if Key(x) == k && (best.None? || s[best.value].timestamp < x.timestamp) then Some(|s| - 1)
      else best
  }

  /** The newest entry with key `k`, if there is one. */
  function Newest(s: seq<FoodEntry>, k: string): Option<FoodEntry>
  {
    match NewestIndex(s, k)
    case None => None
    case Some(p) => Some(s[p])
  }

  /** `getRecentFoods(limit)` on the entries `s`, listed in insertion order. */
  function RecentFoodsOf(s: seq<FoodEntry>, limit: nat): seq<FoodEntry>
  {
    Take(Dedup(SortByTimestamp(s, Descending)), limit)
  }

  lemma KeysOfAppend(s: seq<FoodEntry>, x: FoodEntry)
    ensures KeysOf(s + [x]) == KeysOf(s) + {Key(x)}
  {
    assert forall e :: e in s + [x] <==> e in s || e == x;
  }

  lemma KeysOfSameElements(s: seq<FoodEntry>, t: seq<FoodEntry>)
    requires multiset(s) == multiset(t)
    ensures KeysOf(s) == KeysOf(t)
  {
    assert forall e :: e in s <==> e in multiset(s);
    assert forall e :: e in t <==> e in multiset(t);
  }

  /**
   * Position `p` holds an entry with key `k`, no entry with that key is newer,
   * and every other entry with that key and the same timestamp comes later.
   */
  predicate IsNewestAt(s: seq<FoodEntry>, k: string, p: nat)
    requires p < |s|
  {
    && Key(s[p]) == k
    && forall j | 0 <= j < |s| && Key(s[j]) == k ::
         s[j].timestamp < s[p].timestamp || (s[j].timestamp == s[p].timestamp && p <= j)
  }

  lemma KeyMissing(s: seq<FoodEntry>, k: string)
    requires k !in KeysOf(s)
    ensures forall i | 0 <= i < |s| :: Key(s[i]) != k
  {
    forall i | 0 <= i < |s| ensures Key(s[i]) != k {
      assert s[i] in s;
    }
  }

  lemma {:induction false} NewestExists(s: seq<FoodEntry>, k: string)
    ensures NewestIndex(s, k).Some? <==> k in KeysOf(s)
  {
    if s != [] {
      var init, x := s[..|s| - 1], s[|s| - 1];
      assert s == init + [x];
      NewestExists(init, k);
      KeysOfAppend(init, x);
    }
  }

  /**
   * The reference definition meets its description: it finds an entry with
   * the key whenever there is one, and that entry is the newest of its key,
   * the earliest inserted among equally new ones.
   */
  lemma {:induction false} NewestIsNewest(s: seq<FoodEntry>, k: string)
    ensures NewestIndex(s, k).Some? <==> k in KeysOf(s)
    ensures NewestIndex(s, k).Some? ==> IsNewestAt(s, k, NewestIndex(s, k).value)
  {
    NewestExists(s, k);
    if s != [] {
      var init, x := s[..|s| - 1], s[|s| - 1];
      var best := NewestIndex(init, k);
      NewestIsNewest(init, k);
      if Key(x) == k && (best.None? || s[best.value].timestamp < x.timestamp) {
        if best.None? {
          KeyMissing(init, k);
        }
        forall j | 0 <= j < |s| && Key(s[j]) == k
          ensures s[j].timestamp < x.timestamp || (s[j].timestamp == x.timestamp && |s| - 1 <= j)
        {
          if j < |init| {
            assert init[j] == s[j];
          }
        }
      } else if best.Some? {
        var p := best.value;
        forall j | 0 <= j < |s| && Key(s[j]) == k
          ensures s[j].timestamp < s[p].timestamp || (s[j].timestamp == s[p].timestamp && p <= j)
        {
          if j < |init| {
            assert init[j] == s[j];
          }
        }
      }
    }
  }

  /** `Newest` on one more entry. */
  lemma NewestStep(s: seq<FoodEntry>, k: string)
    requires s != []
    ensures Newest(s, k) ==
      var best, x := Newest(s[..|s| - 1], k), s[|s| - 1];
      if Key(x) == k && (best.None? || best.value.timestamp < x.timestamp) then Some(x) else best
  {
  }

  lemma {:induction false} FirstWithKeyProperties(s: seq<FoodEntry>, k: string)
    ensures FirstWithKey(s, k).Some? <==> k in KeysOf(s)
    ensures FirstWithKey(s, k).Some? ==> FirstWithKey(s, k).value in s && Key(FirstWithKey(s, k).value) == k
  {
    if s != [] {
      FirstWithKeyProperties(s[1..], k);
      assert s == [s[0]] + s[1..];
      assert KeysOf(s) == {Key(s[0])} + KeysOf(s[1..]);
    }
  }

  lemma {:induction false} FirstWithKeyAppend(s: seq<FoodEntry>, x: FoodEntry, k: string)
    ensures FirstWithKey(s + [x], k) ==
      if FirstWithKey(s, k).Some? then FirstWithKey(s, k)
      else if Key(x) == k then Some(x)
      else None
  {
    if s != [] {
      assert (s + [x])[1..] == s[1..] + [x];
      FirstWithKeyAppend(s[1..], x, k);
    }
  }

  /**
   * Inserting `x` into a newest-first list changes the first entry with key
   * `k` only when `x` has that key and is strictly newer than it.
   */
  lemma {:induction false} FirstWithKeyInsert(t: seq<FoodEntry>, x: FoodEntry, k: string)
    requires Sorted(t, Descending)
    ensures FirstWithKey(Insert(t, x, Descending), k) ==
      var f := FirstWithKey(t, k);
      if Key(x) == k && (f.None? || f.value.timestamp < x.timestamp) then Some(x) else f
  {
    if t != [] {
      if InOrder(t[0], x, Descending) {
        if Key(t[0]) != k {
          FirstWithKeyInsert(t[1..], x, k);
        }
      } else {
        FirstWithKeyProperties(t, k);
        var f := FirstWithKey(t, k);
        if f.Some? {
          var j :| 0 <= j < |t| && t[j] == f.value;
          assert j == 0 || InOrder(t[0], t[j], Descending);
        }
      }
    }
  }

  /** The first entry with a key in the newest-first order is the reference newest one. */
  lemma {:induction false} SortedFirstIsNewest(s: seq<FoodEntry>, k: string)
    ensures FirstWithKey(SortByTimestamp(s, Descending), k) == Newest(s, k)
  {
    if s != [] {
      NewestStep(s, k);
      SortedFirstIsNewest(s[..|s| - 1], k);
      SortProperties(s[..|s| - 1], Descending);
      FirstWithKeyInsert(SortByTimestamp(s[..|s| - 1], Descending), s[|s| - 1], k);
    }
  }

  /**
   * The dedup keeps one entry per key, loses no key, and each kept entry is
   * the first of its key in the input.
   */
  lemma {:induction false} DedupProperties(s: seq<FoodEntry>)
    ensures forall i, j | 0 <= i < j < |Dedup(s)| :: Key(Dedup(s)[i]) != Key(Dedup(s)[j])
    ensures KeysOf(Dedup(s)) == KeysOf(s)
    ensures forall i | 0 <= i < |Dedup(s)| :: FirstWithKey(s, Key(Dedup(s)[i])) == Some(Dedup(s)[i])
    ensures forall e | e in Dedup(s) :: e in s
  {
    if s != [] {
      var init, x := s[..|s| - 1], s[|s| - 1];
      assert s == init + [x];
      DedupProperties(init);
      KeysOfAppend(init, x);
      var kept := Dedup(init);
      FirstWithKeyProperties(init, Key(x));
      forall i | 0 <= i < |kept| ensures FirstWithKey(s, Key(kept[i])) == Some(kept[i]) {
        FirstWithKeyAppend(init, x, Key(kept[i]));
      }
      if Key(x) !in KeysOf(kept) {
        KeysOfAppend(kept, x);
        FirstWithKeyAppend(init, x, Key(x));
        forall i | 0 <= i < |kept| ensures Key(kept[i]) != Key(x) {
          assert kept[i] in kept;
        }
      }
    }
  }

  /** Dropping entries keeps the order of a sorted list. */
  lemma {:induction false} DedupSorted(s: seq<FoodEntry>, dir: Direction)
    requires Sorted(s, dir)
    ensures Sorted(Dedup(s), dir)
  {
    if s != [] {
      var init, x := s[..|s| - 1], s[|s| - 1];
      DedupSorted(init, dir);
      DedupProperties(init);
      forall e | e in Dedup(init) ensures InOrder(e, x, dir) {
        var j :| 0 <= j < |init| && init[j] == e;
        assert s[j] == e;
      }
    }
  }

  /**
   * `getRecentFoods(limit)` returns at most `limit` entries, newest first,
   * never two with one key, and when it returns fewer than `limit`, every
   * key in the store is there.
   */
  lemma RecentFoodsShape(s: seq<FoodEntry>, limit: nat)
    ensures |RecentFoodsOf(s, limit)| <= limit
    ensures Sorted(RecentFoodsOf(s, limit), Descending)
    ensures forall i, j | 0 <= i < j < |RecentFoodsOf(s, limit)| ::
      Key(RecentFoodsOf(s, limit)[i]) != Key(RecentFoodsOf(s, limit)[j])
    ensures |RecentFoodsOf(s, limit)| < limit ==> KeysOf(RecentFoodsOf(s, limit)) == KeysOf(s)
  {
    var sorted := SortByTimestamp(s, Descending);
    SortProperties(s, Descending);
    DedupSorted(sorted, Descending);
    DedupProperties(sorted);
    KeysOfSameElements(sorted, s);
  }

  lemma RecentFoodIsNewest(s: seq<FoodEntry>, limit: nat, i: nat)
    requires i < |RecentFoodsOf(s, limit)|
    ensures Newest(s, Key(RecentFoodsOf(s, limit)[i])) == Some(RecentFoodsOf(s, limit)[i])
  {
    var sorted := SortByTimestamp(s, Descending);
    DedupProperties(sorted);
    assert RecentFoodsOf(s, limit)[i] == Dedup(sorted)[i];
    SortedFirstIsNewest(s, Key(RecentFoodsOf(s, limit)[i]));
  }

  /** A key of the store that the limit cut off sits in the deduplicated list past the cut. */
  lemma DroppedKeyPosition(s: seq<FoodEntry>, limit: nat, k: string)
    requires k in KeysOf(s) && k !in KeysOf(RecentFoodsOf(s, limit))
    ensures var unique := Dedup(SortByTimestamp(s, Descending));
      exists j | |RecentFoodsOf(s, limit)| <= j < |unique| :: Newest(s, k) == Some(unique[j])
  {
    var sorted := SortByTimestamp(s, Descending);
    var unique := Dedup(sorted);
    var r := RecentFoodsOf(s, limit);
    SortProperties(s, Descending);
    DedupProperties(sorted);
    KeysOfSameElements(sorted, s);
    assert k in KeysOf(unique);
    var u :| u in unique && Key(u) == k;
    var j :| 0 <= j < |unique| && unique[j] == u;
    SortedFirstIsNewest(s, k);
  }

  lemma DroppedKeyIsOlder(s: seq<FoodEntry>, limit: nat, e: FoodEntry, i: nat)
    requires e in s && Key(e) !in KeysOf(RecentFoodsOf(s, limit)) && i < |RecentFoodsOf(s, limit)|
    ensures e.timestamp <= RecentFoodsOf(s, limit)[i].timestamp
  {
    var sorted := SortByTimestamp(s, Descending);
    var unique := Dedup(sorted);
    var r := RecentFoodsOf(s, limit);
    var k := Key(e);
    assert k in KeysOf(s);
    DroppedKeyPosition(s, limit, k);
    var j :| |r| <= j < |unique| && Newest(s, k) == Some(unique[j]);
    SortProperties(s, Descending);
    DedupSorted(sorted, Descending);
    assert r[i] == unique[i];
    assert InOrder(unique[i], unique[j], Descending);
    NewestIsNewest(s, k);
    var m :| 0 <= m < |s| && s[m] == e;
    assert Key(s[m]) == k;
  }

  /**
   * Each returned entry is the newest stored entry with its key (among equal
   * timestamps the earliest inserted), and no entry whose key was left out is
   * newer than any returned entry.
   */
  lemma RecentFoodsAreNewest(s: seq<FoodEntry>, limit: nat)
    ensures forall i | 0 <= i < |RecentFoodsOf(s, limit)| ::
      Newest(s, Key(RecentFoodsOf(s, limit)[i])) == Some(RecentFoodsOf(s, limit)[i])
    ensures forall e, i | e in s && Key(e) !in KeysOf(RecentFoodsOf(s, limit)) && 0 <= i < |RecentFoodsOf(s, limit)| ::
      e.timestamp <= RecentFoodsOf(s, limit)[i].timestamp
  {
    forall i | 0 <= i < |RecentFoodsOf(s, limit)|
      ensures Newest(s, Key(RecentFoodsOf(s, limit)[i])) == Some(RecentFoodsOf(s, limit)[i])
    {
      RecentFoodIsNewest(s, limit, i);
    }
    forall e, i | e in s && Key(e) !in KeysOf(RecentFoodsOf(s, limit)) && 0 <= i < |RecentFoodsOf(s, limit)|
      ensures e.timestamp <= RecentFoodsOf(s, limit)[i].timestamp
    {
      DroppedKeyIsOlder(s, limit, e, i);
    }
  }
}
