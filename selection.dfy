/**
 * The array operations the store's read views are made of: `filter` with a
 * criterion on one entry, and `sort` by timestamp. `Array.prototype.sort`
 * is stable, so entries with equal timestamps keep their relative order.
 */
module Selection {
  import opened Schema
  import StringOrder

  /**
   * The conditions entries are filtered by: the store's two date filters,
   * and `TimestampIs`, which only serves to state that the sort is stable.
   */
  datatype Criterion =
    | DateIs(date: string)
    | DateBetween(start: string, end: string)
    | TimestampIs(t: int)

  predicate Satisfies(e: FoodEntry, c: Criterion)
  {
    match c
    case DateIs(d) => e.date == d
    case DateBetween(start, end) =>
      StringOrder.LessOrEqual(start, e.date) && StringOrder.LessOrEqual(e.date, end)
    case TimestampIs(t) => e.timestamp == t
  }

  /** `filter`: the elements that satisfy `c`, in their original order. */
  function Select(s: seq<FoodEntry>, c: Criterion): seq<FoodEntry>
  {
    if s == [] then []
    else Select(s[..|s| - 1], c) + (if Satisfies(s[|s| - 1], c) then [s[|s| - 1]] else [])
  }

  /** A filter keeps exactly the satisfying elements, each at most as often as it occurs. */
  lemma {:induction false} SelectMembers(s: seq<FoodEntry>, c: Criterion)
    ensures forall e :: e in Select(s, c) <==> e in s && Satisfies(e, c)
    ensures multiset(Select(s, c)) <= multiset(s)
  {
    if s != [] {
      SelectMembers(s[..|s| - 1], c);
      assert s == s[..|s| - 1] + [s[|s| - 1]];
    }
  }

  /** Filtering distributes over concatenation: relative order is kept. */
  lemma {:induction false} SelectConcat(s: seq<FoodEntry>, t: seq<FoodEntry>, c: Criterion)
    ensures Select(s + t, c) == Select(s, c) + Select(t, c)
  {
    if t == [] {
      assert s + t == s;
    } else {
      var t', x := t[..|t| - 1], t[|t| - 1];
      assert (s + t)[..|s + t| - 1] == s + t' && (s + t)[|s + t| - 1] == x;
      SelectConcat(s, t', c);
    }
  }

  lemma {:induction false} SelectNone(s: seq<FoodEntry>, c: Criterion)
    requires forall e | e in s :: !Satisfies(e, c)
    ensures Select(s, c) == []
  {
    if s != [] {
      assert s[|s| - 1] in s;
      forall e | e in s[..|s| - 1] ensures !Satisfies(e, c) {
        assert e in s;
      }
      SelectNone(s[..|s| - 1], c);
    }
  }

  datatype Direction = Ascending | Descending

  /** May `a` stand before `b` in a list sorted in direction `dir`? */
  predicate InOrder(a: FoodEntry, b: FoodEntry, dir: Direction)
  {
    match dir
    case Ascending => a.timestamp <= b.timestamp
    case Descending => a.timestamp >= b.timestamp
  }

  predicate Sorted(s: seq<FoodEntry>, dir: Direction)
  {
    forall i, j | 0 <= i < j < |s| :: InOrder(s[i], s[j], dir)
  }

  /** Puts `x` after every element of `s` that it does not strictly precede. */
  function Insert(s: seq<FoodEntry>, x: FoodEntry, dir: Direction): seq<FoodEntry>
  {
    if s == [] then [x]
    else if InOrder(s[0], x, dir) then [s[0]] + Insert(s[1..], x, dir)
    else [x] + s
  }

  /** The stable sort by timestamp: insertion sort, each element placed after its equals. */
  function SortByTimestamp(s: seq<FoodEntry>, dir: Direction): seq<FoodEntry>
  {
    if s == [] then []
    else Insert(SortByTimestamp(s[..|s| - 1], dir), s[|s| - 1], dir)
  }

  lemma {:induction false} InsertPermutes(s: seq<FoodEntry>, x: FoodEntry, dir: Direction)
    ensures multiset(Insert(s, x, dir)) == multiset(s) + multiset{x}
  {
    if s != [] {
      InsertPermutes(s[1..], x, dir);
      assert s == [s[0]] + s[1..];
    }
  }

  lemma {:induction false} InsertSorted(s: seq<FoodEntry>, x: FoodEntry, dir: Direction)
    requires Sorted(s, dir)
    ensures Sorted(Insert(s, x, dir), dir)
  {
    if s != [] && InOrder(s[0], x, dir) {
      var rest := Insert(s[1..], x, dir);
      InsertSorted(s[1..], x, dir);
      InsertPermutes(s[1..], x, dir);
      forall e | e in rest ensures InOrder(s[0], e, dir) {
        assert e in multiset(rest);
        if e != x {
          var k :| 0 <= k < |s[1..]| && s[1..][k] == e;
          assert s[k + 1] == e;
        }
      }
      assert Insert(s, x, dir) == [s[0]] + rest;
    }
  }

  /** `x` goes in front of a sorted list only when everything in it is strictly after `x`. */
  lemma NoneTiedBehindFront(s: seq<FoodEntry>, x: FoodEntry, dir: Direction)
    requires Sorted(s, dir) && s != [] && !InOrder(s[0], x, dir)
    ensures Select(s, TimestampIs(x.timestamp)) == []
  {
    forall e | e in s ensures !Satisfies(e, TimestampIs(x.timestamp)) {
      var k :| 0 <= k < |s| && s[k] == e;
      assert k == 0 || InOrder(s[0], s[k], dir);
    }
    SelectNone(s, TimestampIs(x.timestamp));
  }

  lemma {:induction false} InsertStable(s: seq<FoodEntry>, x: FoodEntry, dir: Direction, t: int)
    requires Sorted(s, dir)
    ensures Select(Insert(s, x, dir), TimestampIs(t)) == Select(s, TimestampIs(t)) + Select([x], TimestampIs(t))
  {
    var c := TimestampIs(t);
    var sx := Select([x], c);
    if s == [] {
      assert Insert(s, x, dir) == [x];
    } else if InOrder(s[0], x, dir) {
      InsertStable(s[1..], x, dir, t);
      InsertStableStep(s, x, dir, t);
    } else {
      assert Insert(s, x, dir) == [x] + s;
      SelectConcat([x], s, c);
      if x.timestamp == t {
        NoneTiedBehindFront(s, x, dir);
      } else {
        assert sx == [];
      }
    }
  }

  /** The step of `InsertStable` where `x` is placed behind the head of `s`. */
  lemma InsertStableStep(s: seq<FoodEntry>, x: FoodEntry, dir: Direction, t: int)
    requires s != [] && InOrder(s[0], x, dir)
    requires Select(Insert(s[1..], x, dir), TimestampIs(t)) == Select(s[1..], TimestampIs(t)) + Select([x], TimestampIs(t))
    ensures Select(Insert(s, x, dir), TimestampIs(t)) == Select(s, TimestampIs(t)) + Select([x], TimestampIs(t))
  {
    var c := TimestampIs(t);
    var rest := Insert(s[1..], x, dir);
    assert Insert(s, x, dir) == [s[0]] + rest;
    var s0, s1, sx := Select([s[0]], c), Select(s[1..], c), Select([x], c);
    SelectConcat([s[0]], rest, c);
    assert s == [s[0]] + s[1..];
    SelectConcat([s[0]], s[1..], c);
    assert s0 + (s1 + sx) == (s0 + s1) + sx;
  }

  /**
   * Sorting yields a permutation of its input, in order, and entries with
   * equal timestamps stay in their input order.
   */
  lemma {:induction false} SortProperties(s: seq<FoodEntry>, dir: Direction)
    ensures Sorted(SortByTimestamp(s, dir), dir)
    ensures multiset(SortByTimestamp(s, dir)) == multiset(s)
    ensures forall t :: Select(SortByTimestamp(s, dir), TimestampIs(t)) == Select(s, TimestampIs(t))
  {
    if s != [] {
      var init, last := s[..|s| - 1], s[|s| - 1];
      assert s == init + [last];
      SortProperties(init, dir);
      InsertSorted(SortByTimestamp(init, dir), last, dir);
      InsertPermutes(SortByTimestamp(init, dir), last, dir);
      forall t ensures Select(SortByTimestamp(s, dir), TimestampIs(t)) == Select(s, TimestampIs(t)) {
        InsertStable(SortByTimestamp(init, dir), last, dir, t);
        SelectConcat(init, [last], TimestampIs(t));
      }
    }
  }

  lemma {:induction false} InsertAtEnd(s: seq<FoodEntry>, x: FoodEntry, dir: Direction)
    requires forall e | e in s :: InOrder(e, x, dir)
    ensures Insert(s, x, dir) == s + [x]
  {
    if s != [] {
      InsertAtEnd(s[1..], x, dir);
      assert s == [s[0]] + s[1..];
    }
  }

  /** Input that is already in order comes out unchanged. */
  lemma {:induction false} SortedIsUnchanged(s: seq<FoodEntry>, dir: Direction)
    requires Sorted(s, dir)
    ensures SortByTimestamp(s, dir) == s
  {
    if s != [] {
      var init, last := s[..|s| - 1], s[|s| - 1];
      assert s == init + [last];
      SortedIsUnchanged(init, dir);
      InsertAtEnd(init, last, dir);
    }
  }
  /** Appending an element that every element precedes keeps a list sorted. */
  lemma SortedAppend(s: seq<FoodEntry>, x: FoodEntry, dir: Direction)
    requires Sorted(s, dir)
    requires forall e | e in s :: InOrder(e, x, dir)
    ensures Sorted(s + [x], dir)
  {
    forall i, j | 0 <= i < j < |s + [x]| ensures InOrder((s + [x])[i], (s + [x])[j], dir) {
      assert (s + [x])[i] == s[i];
      if j == |s| {
        assert s[i] in s;
      } else {
        assert (s + [x])[j] == s[j];
      }
    }
  }

  /** A filter keeps the order of a sorted list. */
  lemma {:induction false} SelectSorted(s: seq<FoodEntry>, c: Criterion, dir: Direction)
    requires Sorted(s, dir)
    ensures Sorted(Select(s, c), dir)
  {
    if s != [] {
      var init, x := s[..|s| - 1], s[|s| - 1];
      var kept := Select(init, c);
      assert Sorted(init, dir) by {
        forall i, j | 0 <= i < j < |init| ensures InOrder(init[i], init[j], dir) {
          assert init[i] == s[i] && init[j] == s[j];
        }
      }
      SelectSorted(init, c, dir);
      if Satisfies(x, c) {
        SelectMembers(init, c);
        forall e | e in kept ensures InOrder(e, x, dir) {
          var j :| 0 <= j < |init| && init[j] == e;
          assert s[j] == e;
        }
        SortedAppend(kept, x, dir);
        assert Select(s, c) == kept + [x];
      } else {
        assert Select(s, c) == kept;
      }
    }
  }

  /** Replacing entries by ones with the same timestamps, position by position, keeps a list sorted. */
  lemma SortedSameTimestamps(s: seq<FoodEntry>, t: seq<FoodEntry>, dir: Direction)
    requires Sorted(s, dir)
    requires |s| == |t| && forall k | 0 <= k < |s| :: s[k].timestamp == t[k].timestamp
    ensures Sorted(t, dir)
  {
    forall i, j | 0 <= i < j < |t| ensures InOrder(t[i], t[j], dir) {
      assert InOrder(s[i], s[j], dir);
    }
  }

  /** Removing one element keeps a list sorted. */
  lemma SortedRemove(s: seq<FoodEntry>, k: nat, dir: Direction)
    requires Sorted(s, dir) && k < |s|
    ensures Sorted(s[..k] + s[k + 1..], dir)
  {
    var r := s[..k] + s[k + 1..];
    forall i, j | 0 <= i < j < |r| ensures InOrder(r[i], r[j], dir) {
      var i', j' := if i < k then i else i + 1, if j < k then j else j + 1;
      assert r[i] == s[i'] && r[j] == s[j'];
    }
  }
}
