/**
 * Swift's `String <`, modelled as lexicographic order on code points, and
 * the `sorted()` of a set of strings.
 */
module Ordering {

  /** `a < b`: the first difference decides; a proper prefix comes first. */
  predicate Less(a: string, b: string)
    decreases |a|
  {
    if a == [] then b != []
    else if b == [] then false
    else if a[0] != b[0] then a[0] < b[0]
    else Less(a[1..], b[1..])
  }

  lemma {:induction false} LessIrreflexive(a: string)
    ensures !Less(a, a)
  {
    if a != [] {
      LessIrreflexive(a[1..]);
    }
  }

  lemma {:induction false} LessTransitive(a: string, b: string, c: string)
    requires Less(a, b) && Less(b, c)
    ensures Less(a, c)
  {
    if a != [] && a[0] == b[0] && b[0] == c[0] {
      LessTransitive(a[1..], b[1..], c[1..]);
    }
  }

  lemma {:induction false} LessTotal(a: string, b: string)
    ensures a == b || Less(a, b) || Less(b, a)
  {
    if a != [] && b != [] && a[0] == b[0] {
      LessTotal(a[1..], b[1..]);
      if a[1..] == b[1..] {
        assert a == [a[0]] + a[1..] && b == [b[0]] + b[1..];
      }
    }
  }

  lemma {:induction false} LessAsymmetric(a: string, b: string)
    requires Less(a, b)
    ensures !Less(b, a)
  {
    if a != [] && b != [] && a[0] == b[0] {
      LessAsymmetric(a[1..], b[1..]);
    }
  }

  predicate StrictlySorted(s: seq<string>) {
    forall i, j :: 0 <= i < j < |s| ==> Less(s[i], s[j])
  }

  predicate IsLeast(m: string, s: set<string>) {
    m in s && forall x :: x in s && x != m ==> Less(m, x)
  }

  /** Every non-empty finite set of strings has a least element. */
  lemma {:induction false} HasLeast(s: set<string>)
    requires s != {}
    ensures exists m :: IsLeast(m, s)
  {
    var x :| x in s;
    if s == {x} {
      assert IsLeast(x, s);
    } else {
      HasLeast(s - {x});
      var m :| IsLeast(m, s - {x});
      LessTotal(m, x);
      if Less(m, x) {
        assert IsLeast(m, s);
      } else {
        forall y | y in s && y != x
          ensures Less(x, y)
        {
          if y != m {
            LessTransitive(x, m, y);
          }
        }
        assert IsLeast(x, s);
      }
    }
  }

  /** `s.sorted()`: the elements of `s` in ascending order, each once. */
  ghost function SortedOf(s: set<string>): (r: seq<string>)
    ensures StrictlySorted(r)
    ensures forall x :: x in r <==> x in s
    decreases |s|
  {
    if s == {} then []
    else
      HasLeast(s);
      var m :| IsLeast(m, s);
      var rest := SortedOf(s - {m});
      assert forall i :: 0 <= i < |rest| ==> rest[i] in s - {m};
      [m] + rest
  }

  /** A strictly sorted sequence is determined by its elements. */
  lemma {:induction false} SortedUnique(a: seq<string>, b: seq<string>)
    requires StrictlySorted(a) && StrictlySorted(b)
    requires forall x :: x in a <==> x in b
    ensures a == b
  {
    if b != [] {
      assert b[0] in a;
    }
    if a != [] {
      assert a[0] in b;
      if a[0] != b[0] {
        var k :| 0 <= k < |b| && b[k] == a[0];
        var j :| 0 <= j < |a| && a[j] == b[0];
        assert Less(b[0], a[0]) && Less(a[0], b[0]);
        LessAsymmetric(a[0], b[0]);
      }
      forall x
        ensures x in a[1..] <==> x in b[1..]
      {
        if x in a[1..] {
          var i :| 1 <= i < |a| && a[i] == x;
          LessIrreflexive(a[0]);
          assert x != a[0] && x in b;
          var k :| 0 <= k < |b| && b[k] == x;
          assert k != 0 && x == b[1..][k - 1];
        }
        if x in b[1..] {
          var i :| 1 <= i < |b| && b[i] == x;
          LessIrreflexive(b[0]);
          assert x != b[0] && x in a;
          var k :| 0 <= k < |a| && a[k] == x;
          assert k != 0 && x == a[1..][k - 1];
        }
      }
      SortedUnique(a[1..], b[1..]);
      assert a == [a[0]] + a[1..] && b == [b[0]] + b[1..];
    }
  }

  /** The least element of a non-empty set, found by a linear scan. */
  method Least(s: set<string>) returns (m: string)
    requires s != {}
    ensures IsLeast(m, s)
  {
    m :| m in s;
    var rest := s - {m};
    while rest != {}
      invariant rest <= s && m in s && m !in rest
      invariant forall x :: x in s && x !in rest && x != m ==> Less(m, x)
      decreases rest
    {
      var x :| x in rest;
      if Less(x, m) {
        forall y | y in s && y !in rest && y != m
          ensures Less(x, y)
        {
          LessTransitive(x, m, y);
        }
        m := x;
      } else {
        LessTotal(x, m);
      }
      rest := rest - {x};
    }
  }

  /** `s.sorted()`, by repeatedly taking the least remaining element. */
  method SortSet(s: set<string>) returns (r: seq<string>)
    ensures r == SortedOf(s)
  {
    r := [];
    var rest := s;
    while rest != {}
      invariant rest <= s
      invariant StrictlySorted(r)
      invariant forall x :: x in r <==> x in s && x !in rest
      invariant forall i, y :: 0 <= i < |r| && y in rest ==> Less(r[i], y)
      decreases rest
    {
      var m := Least(rest);
      forall i, y | 0 <= i < |r| && y in rest - {m}
        ensures Less(r[i], y)
      {
        LessTransitive(r[i], m, y);
      }
      r := r + [m];
      rest := rest - {m};
    }
    SortedUnique(r, SortedOf(s));
  }
}
