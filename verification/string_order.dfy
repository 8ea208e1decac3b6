/**
 * Binary (code point by code point) ordering of strings, the order a
 * document store applies to the `$gte` / `$lte` bounds on a string field
 * and to a sort on one.
 */
module StringOrder {

  /** `a` sorts at or before `b`: a prefix sorts first, otherwise the first differing character decides. */
  predicate LessEq(a: string, b: string)
    decreases |a|
  {
    |a| == 0 || (|b| > 0 && (a[0] < b[0] || (a[0] == b[0] && LessEq(a[1..], b[1..]))))
  }

  /** Strictly before. */
  predicate Less(a: string, b: string)
  {
    LessEq(a, b) && a != b
  }

  lemma {:induction false} LessEqReflexive(a: string)
    ensures LessEq(a, a)
    decreases |a|
  {
    if |a| > 0 {
      LessEqReflexive(a[1..]);
    }
  }

  lemma {:induction false} LessEqAntisymmetric(a: string, b: string)
    requires LessEq(a, b) && LessEq(b, a)
    ensures a == b
    decreases |a|
  {
    if |a| > 0 {
      LessEqAntisymmetric(a[1..], b[1..]);
      assert a == [a[0]] + a[1..] && b == [b[0]] + b[1..];
    }
  }

  lemma {:induction false} LessEqTransitive(a: string, b: string, c: string)
    requires LessEq(a, b) && LessEq(b, c)
    ensures LessEq(a, c)
    decreases |a|
  {
    if |a| > 0 && a[0] == b[0] && b[0] == c[0] {
      LessEqTransitive(a[1..], b[1..], c[1..]);
    }
  }

  lemma {:induction false} LessEqTotal(a: string, b: string)
    ensures LessEq(a, b) || LessEq(b, a)
    decreases |a|
  {
    if |a| > 0 && |b| > 0 && a[0] == b[0] {
      LessEqTotal(a[1..], b[1..]);
    }
  }

  /**
   * Comparing two strings that start with prefixes of the same length: the
   * prefixes decide, and only equal prefixes hand the decision to the rest.
   */
  lemma {:induction false} LessEqAppend(a: string, b: string, c: string, d: string)
    requires |a| == |b|
    ensures LessEq(a + c, b + d) <==> Less(a, b) || (a == b && LessEq(c, d))
    ensures a + c == b + d <==> a == b && c == d
    decreases |a|
  {
    if |a| == 0 {
      assert a + c == c && b + d == d;
    } else {
      LessEqAppend(a[1..], b[1..], c, d);
      assert (a + c)[1..] == a[1..] + c && (b + d)[1..] == b[1..] + d;
      assert a == [a[0]] + a[1..] && b == [b[0]] + b[1..];
      if a[1..] + c == b[1..] + d && a[0] == b[0] {
        assert a + c == [a[0]] + (a[1..] + c);
        assert b + d == [b[0]] + (b[1..] + d);
      }
    }
  }
}
