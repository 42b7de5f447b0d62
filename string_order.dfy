/**
 * JavaScript's relational operators on strings (`a <= b`, `a >= b`) compare
 * the two strings element by element; the first differing element decides,
 * and a proper prefix comes first.
 */
module StringOrder {

  /** `a <= b` on strings. */
  predicate LessOrEqual(a: string, b: string)
  {
    if a == [] then true
    else if b == [] then false
    else if a[0] != b[0] then a[0] < b[0]
    else LessOrEqual(a[1..], b[1..])
  }

  lemma {:induction false} Reflexive(a: string)
    ensures LessOrEqual(a, a)
  {
    if a != [] {
      Reflexive(a[1..]);
    }
  }

  lemma {:induction false} Total(a: string, b: string)
    ensures LessOrEqual(a, b) || LessOrEqual(b, a)
  {
    if a != [] && b != [] && a[0] == b[0] {
      Total(a[1..], b[1..]);
    }
  }

  lemma {:induction false} Antisymmetric(a: string, b: string)
    requires LessOrEqual(a, b) && LessOrEqual(b, a)
    ensures a == b
  {
    if a != [] {
      Antisymmetric(a[1..], b[1..]);
      assert a == [a[0]] + a[1..] && b == [b[0]] + b[1..];
    }
  }

  lemma {:induction false} Transitive(a: string, b: string, c: string)
    requires LessOrEqual(a, b) && LessOrEqual(b, c)
    ensures LessOrEqual(a, c)
  {
    if a != [] && b != [] && c != [] && a[0] == b[0] && b[0] == c[0] {
      Transitive(a[1..], b[1..], c[1..]);
    }
  }

  /**
   * Comparing two strings whose first parts have the same length: the first
   * parts decide unless they are equal, in which case the rest decides.
   */
  lemma {:induction false} ConcatOrder(a1: string, a2: string, b1: string, b2: string)
    requires |a1| == |b1|
    ensures LessOrEqual(a1 + a2, b1 + b2)
        <==> (LessOrEqual(a1, b1) && a1 != b1) || (a1 == b1 && LessOrEqual(a2, b2))
  {
    if a1 == [] {
      assert a1 + a2 == a2 && b1 + b2 == b2;
    } else {
      assert (a1 + a2)[0] == a1[0] && (a1 + a2)[1..] == a1[1..] + a2;
      assert (b1 + b2)[0] == b1[0] && (b1 + b2)[1..] == b1[1..] + b2;
      ConcatOrder(a1[1..], a2, b1[1..], b2);
      assert a1 == [a1[0]] + a1[1..] && b1 == [b1[0]] + b1[1..];
    }
  }
}
