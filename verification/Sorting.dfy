/** Insertion by a comparison, and the sorted lists that it builds. */
module Sorting {

  /** Puts `x` in front of the first element that does not stand before it. */
  function InsertBy<T(!new)>(before: (T, T) -> bool, x: T, sorted: seq<T>): (r: seq<T>)
    ensures multiset(r) == multiset(sorted) + multiset{x}
    ensures |r| == |sorted| + 1
    ensures forall y :: y in r <==> y == x || y in sorted
  {
    if sorted == [] || !before(sorted[0], x) then [x] + sorted
    else
      assert sorted == [sorted[0]] + sorted[1..];
      [sorted[0]] + InsertBy(before, x, sorted[1..])
  }

  /** The stable sort. */
  function SortBy<T(!new)>(before: (T, T) -> bool, s: seq<T>): (r: seq<T>)
    ensures multiset(r) == multiset(s)
    ensures |r| == |s|
    ensures forall y :: y in r <==> y in s
  {
    if s == [] then []
    else
      assert s == [s[0]] + s[1..];
      InsertBy(before, s[0], SortBy(before, s[1..]))
  }

  ghost predicate Transitive<T(!new)>(before: (T, T) -> bool) {
    forall a, b, c :: before(a, b) && before(b, c) ==> before(a, c)
  }

  ghost predicate Asymmetric<T(!new)>(before: (T, T) -> bool) {
    forall a, b :: before(a, b) ==> !before(b, a)
  }

  // ---------- Lists without ties ----------

  predicate StrictlyOrdered<T(!new)>(before: (T, T) -> bool, s: seq<T>) {
    forall i, j :: 0 <= i < j < |s| ==> before(s[i], s[j])
  }

  lemma {:induction false} StrictTail<T(!new)>(before: (T, T) -> bool, s: seq<T>, y: T)
    requires StrictlyOrdered(before, s) && s != [] && y in s[1..]
    ensures before(s[0], y)
  {
    var k :| 0 <= k < |s[1..]| && s[1..][k] == y;
    assert s[k + 1] == y;
  }

  lemma {:induction false} InsertIsStrict<T(!new)>(before: (T, T) -> bool, x: T, sorted: seq<T>)
    requires Transitive(before) && StrictlyOrdered(before, sorted)
    requires forall y :: y in sorted ==> before(y, x) || before(x, y)
    ensures StrictlyOrdered(before, InsertBy(before, x, sorted))
  {
    if sorted != [] {
      assert sorted[0] in sorted;
      if before(sorted[0], x) {
        InsertIsStrict(before, x, sorted[1..]);
        var tail := InsertBy(before, x, sorted[1..]);
        forall j | 0 <= j < |tail|
          ensures before(sorted[0], tail[j])
        {
          assert tail[j] in tail;
          if tail[j] != x {
            StrictTail(before, sorted, tail[j]);
          }
        }
      } else {
        forall j | 0 <= j < |sorted|
          ensures before(x, sorted[j])
        {
          assert j > 0 ==> before(sorted[0], sorted[j]);
        }
      }
    }
  }

  lemma {:induction false} SortIsStrict<T(!new)>(before: (T, T) -> bool, s: seq<T>)
    requires Transitive(before)
    requires forall i, j :: 0 <= i < j < |s| ==> before(s[i], s[j]) || before(s[j], s[i])
    ensures StrictlyOrdered(before, SortBy(before, s))
  {
    if s != [] {
      SortIsStrict(before, s[1..]);
      forall y | y in SortBy(before, s[1..])
        ensures before(y, s[0]) || before(s[0], y)
      {
        var k :| 0 <= k < |s[1..]| && s[1..][k] == y;
        assert s[k + 1] == y;
      }
      InsertIsStrict(before, s[0], SortBy(before, s[1..]));
    }
  }

  lemma {:induction false} HeadIsIn<T>(s: seq<T>)
    requires s != []
    ensures s[0] in s
  {
  }

  lemma {:induction false} HeadIsFirst<T(!new)>(before: (T, T) -> bool, s: seq<T>, y: T)
    requires StrictlyOrdered(before, s) && y in s
    ensures s != [] && (y == s[0] || before(s[0], y))
  {
    var k :| 0 <= k < |s| && s[k] == y;
  }

  lemma {:induction false} TailElements<T(!new)>(before: (T, T) -> bool, a: seq<T>, b: seq<T>)
    requires Asymmetric(before) && StrictlyOrdered(before, a) && a != [] && b != [] && a[0] == b[0]
    requires forall x :: x in a ==> x in b
    ensures forall x :: x in a[1..] ==> x in b[1..]
  {
    forall x | x in a[1..]
      ensures x in b[1..]
    {
      StrictTail(before, a, x);
      assert x in a && x in b && x != b[0];
      var m :| 0 <= m < |b| && b[m] == x;
      assert b[1..][m - 1] == x;
    }
  }

  /** Two strictly ordered lists with the same elements are the same list. */
  lemma {:induction false} StrictIsUnique<T(!new)>(before: (T, T) -> bool, a: seq<T>, b: seq<T>)
    requires Asymmetric(before) && StrictlyOrdered(before, a) && StrictlyOrdered(before, b)
    requires forall x :: x in a <==> x in b
    ensures a == b
  {
    if a != [] {
      HeadIsIn(a);
      HeadIsFirst(before, b, a[0]);
      HeadIsIn(b);
      HeadIsFirst(before, a, b[0]);
      TailElements(before, a, b);
      TailElements(before, b, a);
      StrictIsUnique(before, a[1..], b[1..]);
      assert a == [a[0]] + a[1..] && b == [b[0]] + b[1..];
    } else if b != [] {
      HeadIsIn(b);
    }
  }

  // ---------- Lists with ties ----------

  predicate Ordered<T(!new)>(before: (T, T) -> bool, s: seq<T>) {
    forall i :: 0 < i < |s| ==> !before(s[i], s[i - 1])
  }

  lemma {:induction false} OrderedTail<T(!new)>(before: (T, T) -> bool, s: seq<T>)
    requires Ordered(before, s) && s != []
    ensures Ordered(before, s[1..])
    ensures s[1..] != [] ==> !before(s[1..][0], s[0])
  {
    var tail := s[1..];
    forall i | 0 < i < |tail|
      ensures !before(tail[i], tail[i - 1])
    {
      assert !before(s[i + 1], s[i + 1 - 1]);
    }
    assert |s| > 1 ==> !before(s[1], s[1 - 1]);
  }

  lemma {:induction false} OrderedCons<T(!new)>(before: (T, T) -> bool, x: T, tail: seq<T>)
    requires Ordered(before, tail) && (tail != [] ==> !before(tail[0], x))
    ensures Ordered(before, [x] + tail)
  {
    var s := [x] + tail;
    forall i | 0 < i < |s|
      ensures !before(s[i], s[i - 1])
    {
      if i > 1 {
        assert !before(tail[i - 1], tail[i - 1 - 1]);
      }
    }
  }

  lemma {:induction false} InsertIsOrdered<T(!new)>(before: (T, T) -> bool, x: T, sorted: seq<T>)
    requires Asymmetric(before) && Ordered(before, sorted)
    ensures Ordered(before, InsertBy(before, x, sorted))
    ensures InsertBy(before, x, sorted)[0] == x || (sorted != [] && InsertBy(before, x, sorted)[0] == sorted[0])
  {
    if sorted == [] || !before(sorted[0], x) {
      OrderedCons(before, x, sorted);
    } else {
      OrderedTail(before, sorted);
      InsertIsOrdered(before, x, sorted[1..]);
      OrderedCons(before, sorted[0], InsertBy(before, x, sorted[1..]));
    }
  }

  lemma {:induction false} SortIsOrdered<T(!new)>(before: (T, T) -> bool, s: seq<T>)
    requires Asymmetric(before)
    ensures Ordered(before, SortBy(before, s))
  {
    if s != [] {
      SortIsOrdered(before, s[1..]);
      InsertIsOrdered(before, s[0], SortBy(before, s[1..]));
    }
  }

  lemma {:induction false} SortIsIdentity<T(!new)>(before: (T, T) -> bool, s: seq<T>)
    requires Ordered(before, s)
    ensures SortBy(before, s) == s
  {
    if s != [] {
      OrderedTail(before, s);
      SortIsIdentity(before, s[1..]);
      assert s == [s[0]] + s[1..];
    }
  }
}
