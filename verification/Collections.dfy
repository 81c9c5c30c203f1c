/** Small sequence functions shared by several components. */
module Collections {

  datatype Option<+T> = None | Some(value: T)

  /** `Array.from(new Set(s))`: the distinct elements in order of first occurrence. */
  function Distinct<T(==)>(s: seq<T>): seq<T> {
    if s == [] then []
    else
      var n := |s| - 1;
      var front := Distinct(s[..n]);
      if s[n] in front then front else front + [s[n]]
  }

  /** No element repeats, and the elements are those of `s`. */
  lemma {:induction false} DistinctElements<T>(s: seq<T>)
    ensures forall i, j :: 0 <= i < j < |Distinct(s)| ==> Distinct(s)[i] != Distinct(s)[j]
    ensures forall i :: 0 <= i < |Distinct(s)| ==> Distinct(s)[i] in s
    ensures forall i :: 0 <= i < |s| ==> s[i] in Distinct(s)
  {
    if s != [] {
      var n := |s| - 1;
      DistinctElements(s[..n]);
      assert s == s[..n] + [s[n]];
    }
  }

  lemma {:induction false} SameElements<T(!new)>(s: seq<T>)
    ensures forall x :: x in Distinct(s) <==> x in s
    ensures Distinct(s) == [] <==> s == []
  {
    DistinctElements(s);
    forall x
      ensures x in Distinct(s) <==> x in s
    {
      if x in s {
        var i :| 0 <= i < |s| && s[i] == x;
        assert s[i] in Distinct(s);
      }
      if x in Distinct(s) {
        var i :| 0 <= i < |Distinct(s)| && Distinct(s)[i] == x;
        assert Distinct(s)[i] in s;
      }
    }
    if s != [] {
      assert s[0] in s;
    }
  }

  lemma {:induction false} DistinctIsIdentity<T>(s: seq<T>)
    requires forall i, j :: 0 <= i < j < |s| ==> s[i] != s[j]
    ensures Distinct(s) == s
  {
    if s != [] {
      var n := |s| - 1;
      DistinctIsIdentity(s[..n]);
      assert s == s[..n] + [s[n]];
      assert s[n] !in s[..n];
    }
  }

  /** The first position that meets the test, or the length. */
  function IndexWhere<T>(s: seq<T>, test: T -> bool): (i: nat)
    ensures i <= |s| && (i < |s| ==> test(s[i]))
    ensures forall j :: 0 <= j < i ==> !test(s[j])
  {
    if s == [] || test(s[0]) then 0 else 1 + IndexWhere(s[1..], test)
  }

  function Pow2(width: nat): (p: nat)
    ensures p > 0
  {
    if width == 0 then 1 else 2 * Pow2(width - 1)
  }

  /** The first `n` elements, or all if there are fewer. */
  function Take<T>(s: seq<T>, n: nat): seq<T> {
    if |s| <= n then s else s[..n]
  }

  /** A non-empty set has an element of greatest value. */
  lemma {:induction false} GreatestExists<T(!new)>(s: set<T>, value: T -> int) returns (greatest: T)
    requires s != {}
    ensures greatest in s && forall x :: x in s ==> value(x) <= value(greatest)
    decreases s
  {
    var some :| some in s;
    var rest := s - {some};
    if rest == {} {
      assert s == {some};
      greatest := some;
    } else {
      var other := GreatestExists(rest, value);
      greatest := if value(some) > value(other) then some else other;
    }
  }

  // ---------- Steps repeated ----------

  function Iterate<T>(step: T -> T, s: T, n: nat): T
    decreases n
  {
    if n == 0 then s else Iterate(step, step(s), n - 1)
  }

  lemma {:induction false} IterateKeeps<T(!new)>(step: T -> T, keeps: T -> bool, s: T, n: nat)
    requires keeps(s) && forall x :: keeps(x) ==> keeps(step(x))
    ensures keeps(Iterate(step, s, n))
    decreases n
  {
    if n > 0 {
      IterateKeeps(step, keeps, step(s), n - 1);
    }
  }

  lemma {:induction false} IterateJoin<T>(step: T -> T, s: T, m: nat, n: nat)
    ensures Iterate(step, s, m + n) == Iterate(step, Iterate(step, s, m), n)
    decreases m
  {
    if m > 0 {
      IterateJoin(step, step(s), m - 1, n);
    }
  }

  lemma {:induction false} IterateLast<T>(step: T -> T, s: T, n: nat)
    ensures Iterate(step, s, n + 1) == step(Iterate(step, s, n))
  {
    IterateJoin(step, s, n, 1);
    assert Iterate(step, step(Iterate(step, s, n)), 0) == step(Iterate(step, s, n));
  }

  /** What has ended for good after `k` steps has ended after more. */
  lemma {:induction false} EndsForGood<T(!new)>(step: T -> T, ended: T -> bool, s: T, k: nat, n: nat)
    requires ended(Iterate(step, s, k)) && k <= n && forall x :: ended(x) ==> ended(step(x))
    ensures ended(Iterate(step, s, n))
  {
    IterateJoin(step, s, k, n - k);
    IterateKeeps(step, ended, Iterate(step, s, k), n - k);
  }
}
