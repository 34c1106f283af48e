/**
 * The order DynamoDB keeps string sort keys in: lexicographic on UTF-8
 * bytes, which for Unicode scalar values is lexicographic on code points.
 */
module Lexicographic {

  /** `a` sorts no later than `b`: a prefix of it, or smaller at the first difference. */
  predicate LexLe(a: string, b: string)
    decreases |a|
  {
    |a| == 0 || (|b| > 0 && (a[0] < b[0] || (a[0] == b[0] && LexLe(a[1..], b[1..]))))
  }

  lemma {:induction false} LexReflexive(a: string)
    ensures LexLe(a, a)
    decreases |a|
  {
    if |a| > 0 {
      LexReflexive(a[1..]);
    }
  }

  lemma {:induction false} LexAntisymmetric(a: string, b: string)
    requires LexLe(a, b) && LexLe(b, a)
    ensures a == b
    decreases |a|
  {
    if |a| > 0 {
      LexAntisymmetric(a[1..], b[1..]);
      assert a == [a[0]] + a[1..] && b == [b[0]] + b[1..];
    }
  }

  lemma {:induction false} LexTransitive(a: string, b: string, c: string)
    requires LexLe(a, b) && LexLe(b, c)
    ensures LexLe(a, c)
    decreases |a|
  {
    if |a| > 0 && a[0] == b[0] && b[0] == c[0] {
      LexTransitive(a[1..], b[1..], c[1..]);
    }
  }

  lemma {:induction false} LexTotal(a: string, b: string)
    ensures LexLe(a, b) || LexLe(b, a)
    decreases |a|
  {
    if |a| > 0 && |b| > 0 && a[0] == b[0] {
      LexTotal(a[1..], b[1..]);
    }
  }

  /** `m` is the greatest key of `ids`. */
  predicate IsGreatest(m: string, ids: set<string>) {
    m in ids && forall k :: k in ids ==> LexLe(k, m)
  }

  lemma {:induction false} GreatestExists(ids: set<string>)
    requires ids != {}
    ensures exists m :: IsGreatest(m, ids)
    decreases |ids|
  {
    var x :| x in ids;
    if ids != {x} {
      var rest := ids - {x};
      GreatestExists(rest);
      var m :| IsGreatest(m, rest);
      LexTotal(x, m);
      if LexLe(x, m) {
        assert IsGreatest(m, ids);
      } else {
        forall k | k in ids
          ensures LexLe(k, x)
        {
          if k != x {
            LexTransitive(k, m, x);
          } else {
            LexReflexive(x);
          }
        }
        assert IsGreatest(x, ids);
      }
    } else {
      LexReflexive(x);
      assert IsGreatest(x, ids);
    }
  }

  lemma GreatestUnique(ids: set<string>)
    ensures forall m, m' :: IsGreatest(m, ids) && IsGreatest(m', ids) ==> m == m'
  {
    forall m, m' | IsGreatest(m, ids) && IsGreatest(m', ids)
      ensures m == m'
    {
      LexAntisymmetric(m, m');
    }
  }

  /** The key a descending query with `Limit: 1` returns first. */
  function Greatest(ids: set<string>): (m: string)
    requires ids != {}
    ensures IsGreatest(m, ids)
  {
    GreatestExists(ids);
    GreatestUnique(ids);
    var m :| IsGreatest(m, ids);
    m
  }
}
