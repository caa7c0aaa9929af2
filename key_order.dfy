/**
 * The order in which a job's stages are visited. Each job's stages live in a
 * `TreeMap<String, Stage>`, so every loop over them runs in ascending order of
 * `String.compareTo`: character by character, a proper prefix first.
 */
module KeyOrder {

  /** `a.compareTo(b) <= 0`. */
  predicate Le(a: string, b: string)
    decreases |a|
  {
    |a| == 0 || (|b| > 0 && (a[0] < b[0] || (a[0] == b[0] && Le(a[1..], b[1..]))))
  }

  lemma {:induction false} LeReflexive(a: string)
    ensures Le(a, a)
    decreases |a|
  {
    if |a| > 0 {
      LeReflexive(a[1..]);
    }
  }

  lemma {:induction false} LeTotal(a: string, b: string)
    ensures Le(a, b) || Le(b, a)
    decreases |a|
  {
    if |a| > 0 && |b| > 0 && a[0] == b[0] {
      LeTotal(a[1..], b[1..]);
    }
  }

  lemma {:induction false} LeAntisymmetric(a: string, b: string)
    requires Le(a, b) && Le(b, a)
    ensures a == b
    decreases |a|
  {
    if |a| > 0 {
      LeAntisymmetric(a[1..], b[1..]);
      assert a == [a[0]] + a[1..] && b == [b[0]] + b[1..];
    }
  }

  lemma {:induction false} LeTransitive(a: string, b: string, c: string)
    requires Le(a, b) && Le(b, c)
    ensures Le(a, c)
    decreases |a|
  {
    if |a| > 0 && a[0] == b[0] && b[0] == c[0] {
      LeTransitive(a[1..], b[1..], c[1..]);
    }
  }

  /** `k` is the first key of `s` in iteration order. */
  predicate IsLeast(k: string, s: set<string>)
  {
    k in s && forall x :: x in s ==> Le(k, x)
  }

  /** Every non-empty finite set of keys has a first key. */
  lemma {:induction false} LeastExists(s: set<string>)
    requires s != {}
    ensures exists k :: IsLeast(k, s)
    decreases |s|
  {
    var x :| x in s;
    if s == {x} {
      LeReflexive(x);
      assert IsLeast(x, s);
    } else {
      LeastExists(s - {x});
      var y :| IsLeast(y, s - {x});
      LeTotal(x, y);
      if Le(x, y) {
        forall z | z in s
          ensures Le(x, z)
        {
          if z == x {
            LeReflexive(x);
          } else {
            LeTransitive(x, y, z);
          }
        }
        assert IsLeast(x, s);
      } else {
        assert IsLeast(y, s);
      }
    }
  }

  /** The first key is unique. */
  lemma LeastUnique(k: string, j: string, s: set<string>)
    requires IsLeast(k, s) && IsLeast(j, s)
    ensures k == j
  {
    LeAntisymmetric(k, j);
  }

  /** The key that a `TreeMap` iteration over the keys `s` visits first. */
  ghost function Least(s: set<string>): (k: string)
    requires s != {}
    ensures IsLeast(k, s)
  {
    LeastExists(s);
    var k :| IsLeast(k, s);
    k
  }
}
