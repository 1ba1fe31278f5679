/** Python's ordering of str values and sorted() on a set of them, as
    save_results uses it to order the rows of the output file. */
module Ordering {

  /** Python's a < b on str: the first differing code point decides, and a
      proper prefix comes first. */
  predicate Less(a: string, b: string)
    decreases |a|
  {
    if a == [] then b != []
    else if b == [] then false
    else if a[0] != b[0] then a[0] < b[0]
    else Less(a[1..], b[1..])
  }

  lemma {:induction false} LessIrreflexive(a: string)
    ensures !Less(a, a)
    decreases |a|
  {
    if a != [] {
      LessIrreflexive(a[1..]);
    }
  }

  lemma {:induction false} LessTransitive(a: string, b: string, c: string)
    requires Less(a, b) && Less(b, c)
    ensures Less(a, c)
    decreases |a|
  {
    if a != [] && b != [] && c != [] && a[0] == b[0] == c[0] {
      LessTransitive(a[1..], b[1..], c[1..]);
    }
  }

  /** Two different strings are ordered one way or the other. */
  lemma {:induction false} LessTotal(a: string, b: string)
    requires a != b
    ensures Less(a, b) || Less(b, a)
    decreases |a|
  {
    if a != [] && b != [] && a[0] == b[0] {
      assert a == [a[0]] + a[1..] && b == [b[0]] + b[1..];
      LessTotal(a[1..], b[1..]);
    }
  }

  /** The smallest element of s. */
  predicate IsLeast(m: string, s: set<string>) {
    m in s && forall x :: x in s ==> !Less(x, m)
  }

  /** Every finite non-empty set of strings has a least element. */
  lemma {:induction false} LeastExists(s: set<string>) returns (m: string)
    requires s != {}
    ensures IsLeast(m, s)
    decreases |s|
  {
    var x :| x in s;
    if s == {x} {
      LessIrreflexive(x);
      m := x;
    } else {
      var m' := LeastExists(s - {x});
      if Less(x, m') {
        forall y | y in s ensures !Less(y, x) {
          if y == x {
            LessIrreflexive(x);
          } else if Less(y, x) {
            LessTransitive(y, x, m');
          }
        }
        m := x;
      } else {
        LessIrreflexive(m');
        m := m';
      }
    }
  }

  /** Strictly ascending: sorted, and so without duplicates. */
  predicate StrictlyAscending(r: seq<string>) {
    forall i, j :: 0 <= i < j < |r| ==> Less(r[i], r[j])
  }

  /** sorted(s) for a set s: its elements, each once, in ascending order. */
  method Sorted(s: set<string>) returns (r: seq<string>)
    ensures StrictlyAscending(r)
    ensures |r| == |s|
    ensures forall u :: u in r <==> u in s
  {
    r := [];
    var rest := s;
    while rest != {}
      invariant rest <= s
      invariant forall u :: u in s <==> u in r || u in rest
      invariant forall u :: u in r ==> u !in rest
      invariant |r| + |rest| == |s|
      invariant StrictlyAscending(r)
      invariant forall i, y :: 0 <= i < |r| && y in rest ==> Less(r[i], y)
      decreases |rest|
    {
      ghost var least := LeastExists(rest);
      var m :| IsLeast(m, rest);
      assert IsLeast(m, rest);
      assert m in rest;
      forall y | y in rest - {m} ensures Less(m, y) {
        assert y in rest && y != m;
        assert !Less(y, m);
        LessTotal(m, y);
      }
      assert |rest - {m}| == |rest| - 1;
      r := r + [m];
      rest := rest - {m};
    }
  }

  /** Strict ascent and the element set pin a sequence down: sorted(s) has
      exactly one possible value. */
  lemma {:induction false} SortedIsUnique(r1: seq<string>, r2: seq<string>)
    requires StrictlyAscending(r1) && StrictlyAscending(r2)
    requires forall u :: u in r1 <==> u in r2
    ensures r1 == r2
    decreases |r1|
  {
    if r1 != [] {
      assert r1[0] in r2;
    }
    if r2 != [] {
      assert r2[0] in r1;
    }
    if r1 != [] && r2 != [] {
      var a, b := r1[0], r2[0];
      if a != b {
        assert a in r1 && b in r2;
        var i :| 0 <= i < |r2| && r2[i] == a;
        var j :| 0 <= j < |r1| && r1[j] == b;
        assert Less(b, a) by {
          if i == 0 { } else { assert Less(r2[0], r2[i]); }
        }
        assert Less(a, b) by {
          if j == 0 { } else { assert Less(r1[0], r1[j]); }
        }
        LessTransitive(a, b, a);
        LessIrreflexive(a);
      } else {
        forall u ensures u in r1[1..] <==> u in r2[1..] {
          LessIrreflexive(a);
          if u in r1[1..] {
            var k :| 1 <= k < |r1| && r1[k] == u;
            assert Less(a, u);
            assert u in r2;
            var k2 :| 0 <= k2 < |r2| && r2[k2] == u;
            assert k2 != 0;
            assert r2[1..][k2 - 1] == u;
          }
          if u in r2[1..] {
            var k :| 1 <= k < |r2| && r2[k] == u;
            assert Less(b, u);
            assert u in r1;
            var k1 :| 0 <= k1 < |r1| && r1[k1] == u;
            assert k1 != 0;
            assert r1[1..][k1 - 1] == u;
          }
        }
        SortedIsUnique(r1[1..], r2[1..]);
        assert r1 == [a] + r1[1..] && r2 == [b] + r2[1..];
      }
    }
  }
}
