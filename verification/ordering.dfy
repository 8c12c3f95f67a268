/**
 * The natural order of Java strings (String.compareTo) and the sort that
 * Stream.sorted() applies to a set of folder names.
 */
module Ordering {

  /** a comes strictly before b: the first differing character decides, and
      otherwise the shorter string (a proper prefix) comes first. */
  predicate Less(a: string, b: string)
  {
    if a == [] then b != []
    else if b == [] then false
    else if a[0] != b[0] then a[0] < b[0]
    else Less(a[1..], b[1..])
  }

  lemma {:induction false} LessIrreflexive(a: string)
    ensures !Less(a, a)
  {
    if a != [] {
      LessIrreflexive(a[1..]);
    }
  }

  lemma {:induction false} LessTransitive(a: string, b: string, c: string)
    requires Less(a, b) && Less(b, c)
    ensures Less(a, c)
  {
    if a != [] && a[0] == b[0] && b[0] == c[0] {
      LessTransitive(a[1..], b[1..], c[1..]);
    }
  }

  lemma {:induction false} LessTotal(a: string, b: string)
    requires a != b
    ensures Less(a, b) || Less(b, a)
  {
    if a != [] && b != [] && a[0] == b[0] {
      assert a == [a[0]] + a[1..] && b == [b[0]] + b[1..];
      LessTotal(a[1..], b[1..]);
    }
  }

  lemma LessAsymmetric(a: string, b: string)
    requires Less(a, b)
    ensures !Less(b, a)
  {
    if Less(b, a) {
      LessTransitive(a, b, a);
      LessIrreflexive(a);
    }
  }

  /** m is the least element of s. */
  predicate IsLeast(m: string, s: set<string>)
  {
    m in s && forall y :: y in s && y != m ==> Less(m, y)
  }

  lemma {:induction false} LeastExists(s: set<string>)
    requires s != {}
    ensures exists m :: IsLeast(m, s)
    decreases |s|
  {
    var x :| x in s;
    if s == {x} {
      assert IsLeast(x, s);
    } else {
      var rest := s - {x};
      LeastExists(rest);
      var m :| IsLeast(m, rest);
      if Less(x, m) {
        forall y | y in s && y != x
          ensures Less(x, y)
        {
          if y != m {
            LessTransitive(x, m, y);
          }
        }
        assert IsLeast(x, s);
      } else {
        LessTotal(x, m);
        assert IsLeast(m, s);
      }
    }
  }

  lemma LeastUnique(s: set<string>, m1: string, m2: string)
    requires IsLeast(m1, s) && IsLeast(m2, s)
    ensures m1 == m2
  {
    if m1 != m2 {
      LessAsymmetric(m1, m2);
    }
  }

  function Least(s: set<string>): (m: string)
    requires s != {}
    ensures IsLeast(m, s)
  {
    LeastExists(s);
    assert forall m1, m2 :: IsLeast(m1, s) && IsLeast(m2, s) ==> m1 == m2 by {
      forall m1, m2 | IsLeast(m1, s) && IsLeast(m2, s)
        ensures m1 == m2
      {
        LeastUnique(s, m1, m2);
      }
    }
    var m :| IsLeast(m, s);
    m
  }

  /** Each element strictly before the next, in the order of Less. */
  predicate StrictlyAscending(r: seq<string>)
  {
    forall i, j :: 0 <= i < j < |r| ==> Less(r[i], r[j])
  }

  /** The elements of s in ascending order: what collecting a stream of s
      after sorted() yields. */
  function SortAscending(s: set<string>): (r: seq<string>)
    ensures |r| == |s|
    ensures forall x :: x in r <==> x in s
    ensures StrictlyAscending(r)
    decreases |s|
  {
    if s == {} then []
    else
      var m := Least(s);
      [m] + SortAscending(s - {m})
  }

  /** A strictly ascending sequence holds no name twice. */
  lemma AscendingHasNoDuplicates(r: seq<string>)
    requires StrictlyAscending(r)
    ensures forall i, j :: 0 <= i < j < |r| ==> r[i] != r[j]
  {
    forall i, j | 0 <= i < j < |r|
      ensures r[i] != r[j]
    {
      LessIrreflexive(r[i]);
    }
  }

  /** Sorting is determined by the set alone: any strictly ascending
      arrangement of s is SortAscending(s). */
  lemma {:induction false} SortAscendingUnique(s: set<string>, r: seq<string>)
    requires StrictlyAscending(r)
    requires forall x :: x in r <==> x in s
    ensures r == SortAscending(s)
    decreases |r|
  {
    if r == [] {
      assert s == {};
    } else {
      assert IsLeast(r[0], s) by {
        forall y | y in s && y != r[0]
          ensures Less(r[0], y)
        {
          var j :| 0 <= j < |r| && r[j] == y;
        }
      }
      LeastUnique(s, r[0], Least(s));
      AscendingHasNoDuplicates(r);
      assert forall x :: x in r[1..] <==> x in s - {r[0]} by {
        forall x
          ensures x in r[1..] <==> x in s - {r[0]}
        {
          if x in r[1..] {
            var j :| 1 <= j < |r| && r[j] == x;
          }
        }
      }
      SortAscendingUnique(s - {r[0]}, r[1..]);
    }
  }
}
