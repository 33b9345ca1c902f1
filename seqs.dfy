/**
 * `Array.prototype.filter` and the counts built on it (`filter(p).length`), shared by the
 * screens' task, goal and habit lists.
 */
module Seqs {

  /** The elements `x` of `s` with `p(x) == keep`, in their original order. */
  function Filter<T(!new)>(s: seq<T>, p: T -> bool, keep: bool): (r: seq<T>)
    ensures |r| <= |s|
  {
    if s == [] then []
    else
      var last := s[|s| - 1];
      assert s == s[..|s| - 1] + [last];
      Filter(s[..|s| - 1], p, keep) + (if p(last) == keep then [last] else [])
  }

  /** The filter keeps exactly the elements that pass. */
  lemma {:induction false} FilterMembers<T(!new)>(s: seq<T>, p: T -> bool, keep: bool)
    ensures forall x :: x in Filter(s, p, keep) <==> x in s && p(x) == keep
  {
    if s != [] {
      FilterMembers(s[..|s| - 1], p, keep);
      assert s == s[..|s| - 1] + [s[|s| - 1]];
    }
  }

  /** `s.filter(p).length`. */
  function Count<T(!new)>(s: seq<T>, p: T -> bool): nat {
    |Filter(s, p, true)|
  }

  lemma {:induction false} FilterConcat<T(!new)>(a: seq<T>, b: seq<T>, p: T -> bool, keep: bool)
    ensures Filter(a + b, p, keep) == Filter(a, p, keep) + Filter(b, p, keep)
  {
    if b == [] {
      assert a + b == a;
    } else {
      assert (a + b)[..|a + b| - 1] == a + b[..|b| - 1];
      FilterConcat(a, b[..|b| - 1], p, keep);
    }
  }

  /** Keeping and dropping by the same test splits the list: the two parts together are a permutation of it. */
  lemma {:induction false} FilterPartition<T(!new)>(s: seq<T>, p: T -> bool)
    ensures multiset(Filter(s, p, false)) + multiset(Filter(s, p, true)) == multiset(s)
    ensures |Filter(s, p, false)| + |Filter(s, p, true)| == |s|
  {
    if s != [] {
      var init, last := s[..|s| - 1], s[|s| - 1];
      assert multiset(Filter(init, p, false)) + multiset(Filter(init, p, true)) == multiset(init) by {
        FilterPartition(init, p);
      }
      assert multiset(s) == multiset(init) + multiset{last} by {
        assert s == init + [last];
      }
      assert multiset(Filter(s, p, false)) + multiset(Filter(s, p, true))
          == multiset(Filter(init, p, false)) + multiset(Filter(init, p, true)) + multiset{last} by {
        FilterLastStep(s, p);
      }
    }
    assert |multiset(Filter(s, p, false)) + multiset(Filter(s, p, true))| == |multiset(s)|;
  }

  /** The last element of a non-empty list goes to exactly one side of the split. */
  lemma FilterLastStep<T(!new)>(s: seq<T>, p: T -> bool)
    requires s != []
    ensures multiset(Filter(s, p, false)) + multiset(Filter(s, p, true))
         == multiset(Filter(s[..|s| - 1], p, false)) + multiset(Filter(s[..|s| - 1], p, true)) + multiset{s[|s| - 1]}
  {
    var init, last := s[..|s| - 1], s[|s| - 1];
    var kept, dropped := Filter(init, p, true), Filter(init, p, false);
    if p(last) {
      assert Filter(s, p, true) == kept + [last];
      assert Filter(s, p, false) == dropped;
      SnocUnion(dropped, kept, last);
    } else {
      assert Filter(s, p, true) == kept;
      assert Filter(s, p, false) == dropped + [last];
      SnocUnion(kept, dropped, last);
    }
  }

  lemma SnocUnion<T>(a: seq<T>, b: seq<T>, x: T)
    ensures multiset(a) + multiset(b + [x]) == multiset(a) + multiset(b) + multiset{x}
    ensures multiset(b + [x]) + multiset(a) == multiset(b) + multiset(a) + multiset{x}
  {
    assert multiset(b + [x]) == multiset(b) + multiset{x};
  }

  /** Filtering keeps everything when every element passes. */
  lemma {:induction false} FilterAllPass<T(!new)>(s: seq<T>, p: T -> bool, keep: bool)
    requires forall i :: 0 <= i < |s| ==> p(s[i]) == keep
    ensures Filter(s, p, keep) == s
  {
    if s != [] {
      FilterAllPass(s[..|s| - 1], p, keep);
      assert s == s[..|s| - 1] + [s[|s| - 1]];
    }
  }

  /** Filtering keeps nothing when no element passes. */
  lemma {:induction false} FilterNonePass<T(!new)>(s: seq<T>, p: T -> bool, keep: bool)
    requires forall i :: 0 <= i < |s| ==> p(s[i]) != keep
    ensures Filter(s, p, keep) == []
  {
    if s != [] {
      FilterNonePass(s[..|s| - 1], p, keep);
    }
  }

  /**
   * `Array.prototype.findIndex`: the first position whose element passes, or -1 when none does.
   */
  function FindIndex<T>(s: seq<T>, p: T -> bool): (r: int)
    ensures -1 <= r < |s|
    ensures r >= 0 ==> p(s[r]) && forall j :: 0 <= j < r ==> !p(s[j])
    ensures r == -1 ==> forall j :: 0 <= j < |s| ==> !p(s[j])
  {
    if s == [] then -1
    else if p(s[0]) then 0
    else
      var i := FindIndex(s[1..], p);
      if i < 0 then -1 else i + 1
  }

  /** Filtering by a test that implies another keeps no more elements. */
  lemma {:induction false} FilterStronger<T(!new)>(s: seq<T>, p: T -> bool, q: T -> bool)
    requires forall i :: 0 <= i < |s| && p(s[i]) ==> q(s[i])
    ensures |Filter(s, p, true)| <= |Filter(s, q, true)|
  {
    if s != [] {
      FilterStronger(s[..|s| - 1], p, q);
    }
  }

  /** Replacing one element changes the count by what the old and the new element contribute. */
  lemma CountUpdate<T(!new)>(s: seq<T>, j: int, x: T, p: T -> bool)
    requires 0 <= j < |s|
    ensures Count(s[j := x], p) + (if p(s[j]) then 1 else 0) == Count(s, p) + (if p(x) then 1 else 0)
  {
    var a, b := s[..j], s[j + 1..];
    assert s == (a + [s[j]]) + b;
    assert s[j := x] == (a + [x]) + b;
    FilterConcat(a + [s[j]], b, p, true);
    FilterConcat(a, [s[j]], p, true);
    FilterConcat(a + [x], b, p, true);
    FilterConcat(a, [x], p, true);
    assert [x][..0] == [] && [s[j]][..0] == [];
  }

  /** Dropping elements never raises a count. */
  lemma {:induction false} CountOfFilter<T(!new)>(s: seq<T>, q: T -> bool, keep: bool, p: T -> bool)
    ensures Count(Filter(s, q, keep), p) <= Count(s, p)
  {
    if s != [] {
      var init, last := s[..|s| - 1], s[|s| - 1];
      CountOfFilter(init, q, keep, p);
      assert s == init + [last];
      FilterConcat(init, [last], p, true);
      FilterConcat(Filter(init, q, keep), if q(last) == keep then [last] else [], p, true);
      assert [last][..0] == [];
    }
  }
}
