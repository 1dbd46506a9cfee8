/**
 * The order in which the dataset store and Python compare text: code point by
 * code point, with a proper prefix before every extension of it.  Every date
 * filter of the service compares date strings in this order.
 */
module Lex {

  /** `a` sorts at or before `b`. */
  predicate Le(a: string, b: string)
  {
    if |a| == 0 then true
    else if |b| == 0 then false
    else if a[0] != b[0] then a[0] < b[0]
    else Le(a[1..], b[1..])
  }

  /** `a` sorts strictly before `b`. */
  predicate Lt(a: string, b: string)
  {
    Le(a, b) && a != b
  }

  lemma {:induction false} Reflexive(a: string)
    ensures Le(a, a)
  {
    if |a| > 0 {
      Reflexive(a[1..]);
    }
  }

  lemma {:induction false} Antisymmetric(a: string, b: string)
    requires Le(a, b) && Le(b, a)
    ensures a == b
  {
    if |a| > 0 && |b| > 0 {
      Antisymmetric(a[1..], b[1..]);
      assert a == [a[0]] + a[1..] && b == [b[0]] + b[1..];
    }
  }

  lemma {:induction false} Transitive(a: string, b: string, c: string)
    requires Le(a, b) && Le(b, c)
    ensures Le(a, c)
  {
    if |a| > 0 && |b| > 0 && |c| > 0 && a[0] == b[0] && b[0] == c[0] {
      Transitive(a[1..], b[1..], c[1..]);
    }
  }

  lemma {:induction false} Total(a: string, b: string)
    ensures Le(a, b) || Le(b, a)
  {
    if |a| > 0 && |b| > 0 && a[0] == b[0] {
      Total(a[1..], b[1..]);
    }
  }

  /**
   * Two strings that start with prefixes of the same length compare as their
   * prefixes do when those differ, and as the remainders do otherwise.
   */
  lemma {:induction false} Append(p: string, s: string, q: string, t: string)
    requires |p| == |q|
    ensures Le(p + s, q + t) == if p == q then Le(s, t) else Le(p, q)
  {
    if |p| > 0 {
      assert (p + s)[0] == p[0] && (q + t)[0] == q[0];
      assert (p + s)[1..] == p[1..] + s && (q + t)[1..] == q[1..] + t;
      Append(p[1..], s, q[1..], t);
      if p[0] == q[0] {
        assert p == q <==> p[1..] == q[1..] by {
          assert p == [p[0]] + p[1..] && q == [q[0]] + q[1..];
        }
      }
    } else {
      assert p == [] && q == [];
      assert p + s == s && q + t == t;
    }
  }
}
