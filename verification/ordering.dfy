/**
 * Ordinal (char-by-char) order on strings, and the sorted, duplicate-free enumeration of a finite
 * set of strings. The build tool sorts the matcher's results with `OrderBy(f => f)`.
 */
module Ordering {

  /** `a` sorts no later than `b`: a proper prefix first, otherwise the first differing char decides. */
  predicate Below(a: string, b: string) {
    a == [] || (b != [] && (a[0] < b[0] || (a[0] == b[0] && Below(a[1..], b[1..]))))
  }

  lemma {:induction false} BelowTotal(a: string, b: string)
    ensures Below(a, b) || Below(b, a)
  {
    if a != [] && b != [] && a[0] == b[0] {
      BelowTotal(a[1..], b[1..]);
    }
  }

  lemma {:induction false} BelowAntisymmetric(a: string, b: string)
    requires Below(a, b) && Below(b, a)
    ensures a == b
  {
    if a != [] {
      BelowAntisymmetric(a[1..], b[1..]);
      assert a == [a[0]] + a[1..] && b == [b[0]] + b[1..];
    }
  }

  lemma {:induction false} BelowTransitive(a: string, b: string, c: string)
    requires Below(a, b) && Below(b, c)
    ensures Below(a, c)
  {
    if a != [] && a[0] == b[0] && b[0] == c[0] {
      BelowTransitive(a[1..], b[1..], c[1..]);
    }
  }

  predicate IsLeast(m: string, s: set<string>) {
    m in s && forall y :: y in s ==> Below(m, y)
  }

  lemma {:induction false} LeastExists(s: set<string>)
    requires s != {}
    ensures exists m :: IsLeast(m, s)
    decreases |s|
  {
    var x :| x in s;
    if s != {x} {
      LeastExists(s - {x});
      var m :| IsLeast(m, s - {x});
      BelowTotal(x, m);
      if Below(x, m) {
        forall y | y in s ensures Below(x, y) {
          if y != x {
            BelowTransitive(x, m, y);
          } else {
            BelowTotal(x, x);
          }
        }
        assert IsLeast(x, s);
      } else {
        assert IsLeast(m, s);
      }
    } else {
      BelowTotal(x, x);
      assert IsLeast(x, s);
    }
  }

  lemma LeastIsUnique()
    ensures forall m, n, s :: IsLeast(m, s) && IsLeast(n, s) ==> m == n
  {
    forall m, n, s | IsLeast(m, s) && IsLeast(n, s) ensures m == n {
      BelowAntisymmetric(m, n);
    }
  }

  /** The least string of a non-empty set. */
  function Least(s: set<string>): (m: string)
    requires s != {}
    ensures IsLeast(m, s)
  {
    LeastExists(s);
    LeastIsUnique();
    var m :| IsLeast(m, s);
    m
  }

  /** Strictly increasing: sorted and without duplicates. */
  predicate Increasing(xs: seq<string>) {
    forall i, j :: 0 <= i < j < |xs| ==> Below(xs[i], xs[j]) && xs[i] != xs[j]
  }

  /** The elements of `s`, each once, in ascending ordinal order. */
  function SortedSeq(s: set<string>): (r: seq<string>)
    ensures |r| == |s|
    ensures forall x :: x in r <==> x in s
    ensures Increasing(r)
    decreases |s|
  {
    if s == {} then []
    else
      var m := Least(s);
      var rest := SortedSeq(s - {m});
      PrependLeast(m, s, rest);
      [m] + rest
  }

  /** The least element of `s` in front of the others, in order, lists `s` in order. */
  lemma PrependLeast(m: string, s: set<string>, rest: seq<string>)
    requires IsLeast(m, s) && Increasing(rest)
    requires forall x :: x in rest <==> x in s - {m}
    ensures forall x :: x in [m] + rest <==> x in s
    ensures Increasing([m] + rest)
  {
    var r := [m] + rest;
    forall i, j | 0 <= i < j < |r| ensures Below(r[i], r[j]) && r[i] != r[j] {
      assert r[j] == rest[j - 1] && r[j] in s - {m};
      if i > 0 {
        assert r[i] == rest[i - 1];
      }
    }
  }
}
