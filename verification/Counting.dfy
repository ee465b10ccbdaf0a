/** Counting distinct values. */
module Counting {

  ghost predicate Distinct<T(!new)>(s: seq<T>) {
    forall i, j :: 0 <= i < j < |s| ==> s[i] != s[j]
  }

  ghost function Below(n: nat): (s: set<int>)
    ensures |s| == n
    ensures forall k :: k in s <==> 0 <= k < n
  {
    if n == 0 then {} else Below(n - 1) + {n - 1}
  }

  /** A sequence without repetitions has as many distinct values as places. */
  lemma {:induction false} DistinctSize<T(!new)>(s: seq<T>)
    requires Distinct(s)
    ensures |set x | x in s| == |s|
  {
    if s == [] {
      assert (set x | x in s) == {};
    } else {
      var init, last := s[..|s| - 1], s[|s| - 1];
      DistinctSize(init);
      assert s == init + [last];
      assert (set x | x in s) == (set x | x in init) + {last};
    }
  }

  lemma SubsetSize<T>(a: set<T>, b: set<T>)
    requires a <= b
    ensures |a| <= |b|
    ensures |a| == |b| ==> a == b
  {
    assert b == a + (b - a);
    assert |b| == |a| + |b - a|;
  }

  /** Distinct naturals below n: at most n of them, and n exactly when none is missing. */
  lemma DistinctBelow(s: seq<int>, n: nat)
    requires Distinct(s)
    requires forall i :: 0 <= i < |s| ==> 0 <= s[i] < n
    ensures |s| <= n
    ensures |s| == n <==> forall x :: 0 <= x < n ==> x in s
  {
    DistinctSize(s);
    var values := set x | x in s;
    SubsetSize(values, Below(n));
    hide Distinct;
    if |s| == n {
      forall x | 0 <= x < n ensures x in s {
        assert x in Below(n);
        assert x in values;
      }
    } else if Below(n) <= values {
      SubsetSize(Below(n), values);
    } else {
      var x :| x in Below(n) && x !in values;
      assert 0 <= x < n && x !in s;
    }
  }
}
