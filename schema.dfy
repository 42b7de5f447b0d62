/**
 * The record shapes of the two tables and the insert validators built from
 * them: what a food entry and a calorie goal hold, and which inputs the
 * request layer lets through to the store.
 */
module Schema {
  import opened Wrappers
  import StringOrder

  /** Record identifiers. The store draws them from a counter. */
  type Id = nat

  /** A stored row of `food_entries`; `timestamp` is milliseconds on the store's clock. */
  datatype FoodEntry = FoodEntry(
    id: Id,
    name: string,
    calories: int,
    serving: Option<string>,
    mealType: string,
    date: string,
    timestamp: int)

  /** A stored row of `calorie_goals`. */
  datatype CalorieGoal = CalorieGoal(id: Id, dailyCaloriesGoal: int, date: string)

  /**
   * The input to create a food entry: the row without `id` and `timestamp`.
   * `None` in `serving` stands for both a missing and a null serving.
   */
  datatype InsertFoodEntry = InsertFoodEntry(
    name: string,
    calories: int,
    serving: Option<string>,
    mealType: string,
    date: string)

  /**
   * The input to update a food entry: every insert field is optional.
   * `serving` is `None` when absent, `Some(None)` when given as null.
   */
  datatype FoodEntryPatch = FoodEntryPatch(
    name: Option<string>,
    calories: Option<int>,
    serving: Option<Option<string>>,
    mealType: Option<string>,
    date: Option<string>)

  /** The input to set a calorie goal: the row without `id`. */
  datatype InsertCalorieGoal = InsertCalorieGoal(dailyCaloriesGoal: int, date: string)

  // The date pattern ^\d{4}-\d{2}-\d{2}$, as a sequence of repeated atoms
  // that must cover the whole string.

  datatype Atom = AnyDigit | Literal(c: char)

  datatype Piece = Repeat(atom: Atom, count: nat)

  /** `\d` in a JavaScript regular expression: an ASCII digit. */
  predicate IsDigit(c: char)
  {
    '0' <= c <= '9'
  }

  predicate AtomMatches(a: Atom, c: char)
  {
    match a
    case AnyDigit => IsDigit(c)
    case Literal(l) => c == l
  }

  /** Does the pattern match all of `s` (anchored at both ends)? */
  predicate Matches(pattern: seq<Piece>, s: string)
  {
    if pattern == [] then s == []
    else
      var piece := pattern[0];
      && piece.count <= |s|
      && (forall i | 0 <= i < piece.count :: AtomMatches(piece.atom, s[i]))
      && Matches(pattern[1..], s[piece.count..])
  }

  const DatePattern: seq<Piece> := [
    Repeat(AnyDigit, 4), Repeat(Literal('-'), 1), Repeat(AnyDigit, 2),
    Repeat(Literal('-'), 1), Repeat(AnyDigit, 2)]

  /**
   * The `date` validator shared by both insert schemas: exactly ten
   * characters, digits everywhere except a dash at positions 4 and 7. Month
   * and day ranges are not checked.
   */
  predicate IsDate(s: string): (r: bool)
    ensures r <==>
      && |s| == 10
      && s[4] == '-' && s[7] == '-'
      && (forall i | 0 <= i < 10 && i != 4 && i != 7 :: IsDigit(s[i]))
  {
    DateShape(s);
    Matches(DatePattern, s)
  }

  /** The positional reading of the anchored date pattern. */
  lemma DateShape(s: string)
    ensures Matches(DatePattern, s) <==>
      && |s| == 10
      && s[4] == '-' && s[7] == '-'
      && (forall i | 0 <= i < 10 && i != 4 && i != 7 :: IsDigit(s[i]))
  {
    var p1 := [Repeat(Literal('-'), 1), Repeat(AnyDigit, 2), Repeat(Literal('-'), 1), Repeat(AnyDigit, 2)];
    var p2 := [Repeat(AnyDigit, 2), Repeat(Literal('-'), 1), Repeat(AnyDigit, 2)];
    var p3 := [Repeat(Literal('-'), 1), Repeat(AnyDigit, 2)];
    var p4 := [Repeat(AnyDigit, 2)];
    assert DatePattern[1..] == p1 && p1[1..] == p2 && p2[1..] == p3 && p3[1..] == p4 && p4[1..] == [];
    assert Matches(DatePattern, s) == (4 <= |s| && (forall i | 0 <= i < 4 :: IsDigit(s[i])) && Matches(p1, s[4..]));
    if 4 <= |s| {
      var s1 := s[4..];
      assert Matches(p1, s1) == (1 <= |s1| && s1[0] == '-' && Matches(p2, s1[1..]));
      if 1 <= |s1| {
        var s2 := s1[1..];
        assert s2 == s[5..];
        assert Matches(p2, s2) == (2 <= |s2| && (forall i | 0 <= i < 2 :: IsDigit(s2[i])) && Matches(p3, s2[2..]));
        if 2 <= |s2| {
          var s3 := s2[2..];
          assert s3 == s[7..];
          assert Matches(p3, s3) == (1 <= |s3| && s3[0] == '-' && Matches(p4, s3[1..]));
          if 1 <= |s3| {
            var s4 := s3[1..];
            assert s4 == s[8..];
            assert Matches(p4, s4) == (2 <= |s4| && (forall i | 0 <= i < 2 :: IsDigit(s4[i])) && s4[2..] == []);
          }
        }
      }
    }
  }

  const MealTypes: set<string> := {"breakfast", "lunch", "dinner", "snack"}

  /** The `mealType` validator: one of the four meal names, exactly as spelled. */
  predicate IsMealType(s: string): (r: bool)
    ensures r <==> s == "breakfast" || s == "lunch" || s == "dinner" || s == "snack"
  {
    s in MealTypes
  }

  /**
   * What `insertFoodEntrySchema` accepts. `name` is any string, the empty one
   * included, and `serving` any string or none. The partial schema used for
   * updates accepts a patch that gives every field exactly when this accepts
   * those fields.
   */
  predicate ValidInsertFoodEntry(e: InsertFoodEntry): (r: bool)
    ensures r <==> ValidFoodEntryPatch(FoodEntryPatch(Some(e.name), Some(e.calories), Some(e.serving), Some(e.mealType), Some(e.date)))
    ensures r ==> e.calories >= 0 && |e.date| == 10
  {
    e.calories >= 0 && IsMealType(e.mealType) && IsDate(e.date)
  }

  /**
   * What the partial form of `insertFoodEntrySchema` accepts: each given
   * field is checked, so a patch that gives nothing passes.
   */
  predicate ValidFoodEntryPatch(p: FoodEntryPatch): (r: bool)
    ensures p.name.None? && p.calories.None? && p.serving.None? && p.mealType.None? && p.date.None? ==> r
    ensures r && p.calories.Some? ==> p.calories.value >= 0
    ensures r && p.date.Some? ==> |p.date.value| == 10
  {
    && (p.calories.Some? ==> p.calories.value >= 0)
    && (p.mealType.Some? ==> IsMealType(p.mealType.value))
    && (p.date.Some? ==> IsDate(p.date.value))
  }

  /**
   * What `insertCalorieGoalSchema` accepts: a goal of at least 1 on a date of
   * the same shape the food-entry validator demands.
   */
  predicate ValidInsertCalorieGoal(g: InsertCalorieGoal): (r: bool)
    ensures r <==>
      && g.dailyCaloriesGoal >= 1
      && |g.date| == 10
      && g.date[4] == '-' && g.date[7] == '-'
      && (forall i | 0 <= i < 10 && i != 4 && i != 7 :: IsDigit(g.date[i]))
  {
    g.dailyCaloriesGoal >= 1 && IsDate(g.date)
  }

  /** A stored entry whose user-given fields would pass the insert validator. */
  predicate ValidFoodEntry(e: FoodEntry)
  {
    e.calories >= 0 && IsMealType(e.mealType) && IsDate(e.date)
  }

  /** Edge cases of the validators. */
  lemma ValidatorExamples()
    ensures ValidInsertFoodEntry(InsertFoodEntry("", 0, None, "snack", "2024-03-01"))
    ensures !ValidInsertFoodEntry(InsertFoodEntry("Apple", -1, None, "snack", "2024-03-01"))
    ensures !IsMealType("Snack") && !IsMealType("brunch")
    ensures IsDate("2024-13-45") && !IsDate("2024-3-01") && !IsDate("2024-03-01 ")
    ensures ValidInsertCalorieGoal(InsertCalorieGoal(1, "2024-01-01"))
    ensures !ValidInsertCalorieGoal(InsertCalorieGoal(0, "2024-01-01"))
  {
    DateShape("2024-03-01");
    DateShape("2024-13-45");
    DateShape("2024-3-01");
    DateShape("2024-03-01 ");
    DateShape("2024-01-01");
  }

  // Calendar reading of a date string.

  function DigitValue(c: char): int
  {
    c as int - '0' as int
  }

  function Pow10(n: nat): nat
  {
    if n == 0 then 1 else 10 * Pow10(n - 1)
  }

  predicate AllDigits(s: string)
  {
    forall i | 0 <= i < |s| :: IsDigit(s[i])
  }

  /** The number a string of decimal digits denotes. */
  function DigitsValue(s: string): int
  {
    if s == [] then 0 else DigitValue(s[0]) * Pow10(|s| - 1) + DigitsValue(s[1..])
  }

  function Year(s: string): int
    requires |s| == 10
  {
    DigitsValue(s[..4])
  }

  function Month(s: string): int
    requires |s| == 10
  {
    DigitsValue(s[5..7])
  }

  function Day(s: string): int
    requires |s| == 10
  {
    DigitsValue(s[8..])
  }

  /** (year, month, day) compared lexicographically as numbers. */
  predicate CalendarLessOrEqual(a: string, b: string)
    requires |a| == 10 && |b| == 10
  {
    || Year(a) < Year(b)
    || (Year(a) == Year(b) && Month(a) < Month(b))
    || (Year(a) == Year(b) && Month(a) == Month(b) && Day(a) <= Day(b))
  }

  lemma {:induction false} DigitsBound(s: string)
    requires AllDigits(s)
    ensures 0 <= DigitsValue(s) < Pow10(|s|)
  {
    if s != [] {
      DigitsBound(s[1..]);
      var d, p := DigitValue(s[0]), Pow10(|s| - 1);
      assert 0 <= d <= 9;
      assert d * p <= 9 * p;
    }
  }

  /** A larger leading digit wins whatever the remaining digits are. */
  lemma LeadingDigitDecides(d1: int, d2: int, p: nat, r1: int, r2: int)
    requires d1 < d2 && 0 <= r1 < p && 0 <= r2 < p
    ensures d1 * p + r1 < d2 * p + r2
  {
    var k := d2 - d1;
    assert d2 * p == d1 * p + k * p;
    assert k * p == (k - 1) * p + p;
    assert (k - 1) * p >= 0;
  }

  /** For digit strings of one length, string order is numeric order. */
  lemma {:induction false} DigitsOrder(x: string, y: string)
    requires |x| == |y| && AllDigits(x) && AllDigits(y)
    ensures StringOrder.LessOrEqual(x, y) <==> DigitsValue(x) <= DigitsValue(y)
  {
    if x != [] {
      assert AllDigits(x[1..]) && AllDigits(y[1..]);
      DigitsBound(x[1..]);
      DigitsBound(y[1..]);
      var dx, dy, p := DigitValue(x[0]), DigitValue(y[0]), Pow10(|x| - 1);
      var rx, ry := DigitsValue(x[1..]), DigitsValue(y[1..]);
      assert DigitsValue(x) == dx * p + rx;
      assert DigitsValue(y) == dy * p + ry;
      if x[0] == y[0] {
        DigitsOrder(x[1..], y[1..]);
      } else if x[0] < y[0] {
        LeadingDigitDecides(dx, dy, p, rx, ry);
      } else {
        LeadingDigitDecides(dy, dx, p, ry, rx);
      }
    }
  }

  lemma DigitsEquality(x: string, y: string)
    requires |x| == |y| && AllDigits(x) && AllDigits(y)
    ensures x == y <==> DigitsValue(x) == DigitsValue(y)
  {
    DigitsOrder(x, y);
    DigitsOrder(y, x);
    if DigitsValue(x) == DigitsValue(y) {
      StringOrder.Antisymmetric(x, y);
    }
  }

  /** For digit strings of one length, strict string order is numeric order. */
  lemma DigitsStrictOrder(x: string, y: string)
    requires |x| == |y| && AllDigits(x) && AllDigits(y)
    ensures (StringOrder.LessOrEqual(x, y) && x != y) <==> DigitsValue(x) < DigitsValue(y)
  {
    DigitsOrder(x, y);
    DigitsEquality(x, y);
  }

  /**
   * For two strings that pass the date validator, string order agrees with
   * (year, month, day) order, which is why a range filter may compare dates
   * as strings.
   */
  lemma DateOrderIsCalendarOrder(a: string, b: string)
    requires IsDate(a) && IsDate(b)
    ensures |a| == 10 && |b| == 10
    ensures StringOrder.LessOrEqual(a, b) <==> CalendarLessOrEqual(a, b)
  {
    DateShape(a);
    DateShape(b);
    var ya, ma, da := a[..4], a[5..7], a[8..];
    var yb, mb, db := b[..4], b[5..7], b[8..];
    assert AllDigits(ya) && AllDigits(ma) && AllDigits(da);
    assert AllDigits(yb) && AllDigits(mb) && AllDigits(db);
    assert a == ya + ([a[4]] + (ma + ([a[7]] + da)));
    assert b == yb + ([b[4]] + (mb + ([b[7]] + db)));
    StringOrder.ConcatOrder(ya, [a[4]] + (ma + ([a[7]] + da)), yb, [b[4]] + (mb + ([b[7]] + db)));
    StringOrder.ConcatOrder([a[4]], ma + ([a[7]] + da), [b[4]], mb + ([b[7]] + db));
    StringOrder.ConcatOrder(ma, [a[7]] + da, mb, [b[7]] + db);
    StringOrder.ConcatOrder([a[7]], da, [b[7]], db);
    StringOrder.Reflexive([a[4]]);
    DigitsStrictOrder(ya, yb);
    DigitsEquality(ya, yb);
    DigitsStrictOrder(ma, mb);
    DigitsEquality(ma, mb);
    DigitsOrder(da, db);
  }
}
