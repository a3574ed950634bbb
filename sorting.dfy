/**
 * Sorting: `sorted(..., key=lambda x: x[1])`, Python's stable sort by end
 * time, modelled as an insertion sort; and, for the corrected selector, the
 * same sort on the key (end, start).
 */
module Sorting {
  import opened Activities

  /** The key a sort orders by: the source sorts by end time alone. */
  datatype SortKey = ByEnd | ByEndThenStart

  /** `x` may stand before `y` in a list sorted on `key` (key of x <= key of y). */
  predicate Before(key: SortKey, x: Activity, y: Activity) {
    match key
    case ByEnd => x.end <= y.end
    case ByEndThenStart => x.end < y.end || (x.end == y.end && x.start <= y.start)
  }

  predicate SortedBy(key: SortKey, s: seq<Activity>) {
    forall i, j :: 0 <= i < j < |s| ==> Before(key, s[i], s[j])
  }

  /**
   * Inserts `x` in front of the first element whose key is not smaller:
   * `x` comes from earlier in the input than every element of `s`, so it
   * goes before the elements whose key equals its own (stability).
   */
  function Insert(key: SortKey, x: Activity, s: seq<Activity>): (r: seq<Activity>)
    requires SortedBy(key, s)
    ensures SortedBy(key, r)
    ensures multiset(r) == multiset(s) + multiset{x}
  {
    if s == [] || Before(key, x, s[0]) then
      PrependSorted(key, x, s);
      [x] + s
    else
      var rest := Insert(key, x, s[1..]);
      assert s == [s[0]] + s[1..];
      forall y | y in rest ensures Before(key, s[0], y) {
        assert y in multiset(rest);
      }
      PrependSorted(key, s[0], rest);
      [s[0]] + rest
  }

  /** Putting in front of a sorted list an element that may precede its head keeps it sorted. */
  lemma PrependSorted(key: SortKey, x: Activity, s: seq<Activity>)
    requires SortedBy(key, s)
    requires s == [] || Before(key, x, s[0]) || forall y :: y in s ==> Before(key, x, y)
    ensures SortedBy(key, [x] + s)
  {
    var r := [x] + s;
    forall i, j | 0 <= i < j < |r| ensures Before(key, r[i], r[j]) {
      if i == 0 {
        assert r[j] == s[j - 1] && r[j] in s;
        if j > 1 { assert Before(key, s[0], s[j - 1]); }
      } else {
        assert r[i] == s[i - 1] && r[j] == s[j - 1];
      }
    }
  }

  /** The sorted list: ordered on `key`, and a permutation of `ps`. */
  function Sort(key: SortKey, ps: seq<Activity>): (r: seq<Activity>)
    ensures SortedBy(key, r)
    ensures multiset(r) == multiset(ps)
    ensures |r| == |ps|
  {
    if ps == [] then []
    else
      assert ps == [ps[0]] + ps[1..];
      var r := Insert(key, ps[0], Sort(key, ps[1..]));
      assert |r| == |multiset(r)|;
      r
  }

  /** The elements of `s` whose end time is `t`, in their order in `s`. */
  function WithEnd(s: seq<Activity>, t: int): seq<Activity> {
    if s == [] then []
    else (if s[0].end == t then [s[0]] else []) + WithEnd(s[1..], t)
  }

  lemma WithEndCons(x: Activity, s: seq<Activity>, t: int)
    ensures WithEnd([x] + s, t) == (if x.end == t then [x] else []) + WithEnd(s, t)
  {
    assert ([x] + s)[0] == x && ([x] + s)[1..] == s;
  }

  lemma {:induction false} InsertKeepsTies(x: Activity, s: seq<Activity>, t: int)
    requires SortedBy(ByEnd, s)
    ensures WithEnd(Insert(ByEnd, x, s), t) == (if x.end == t then [x] else []) + WithEnd(s, t)
  {
    if s == [] || Before(ByEnd, x, s[0]) {
      WithEndCons(x, s, t);
    } else {
      var rest := Insert(ByEnd, x, s[1..]);
      InsertKeepsTies(x, s[1..], t);
      WithEndCons(s[0], rest, t);
      WithEndCons(s[0], s[1..], t);
      assert s == [s[0]] + s[1..];
      if x.end == t {
        assert s[0].end != t;
      }
    }
  }

  /**
   * Stability: sorting by end time keeps the input order among the
   * activities that share an end time.
   */
  lemma {:induction false} SortIsStable(ps: seq<Activity>, t: int)
    ensures WithEnd(Sort(ByEnd, ps), t) == WithEnd(ps, t)
  {
    if ps != [] {
      SortIsStable(ps[1..], t);
      InsertKeepsTies(ps[0], Sort(ByEnd, ps[1..]), t);
    }
  }

  /** Sorting a list that is already in order leaves it as it is. */
  lemma {:induction false} SortSortedIsIdentity(key: SortKey, ps: seq<Activity>)
    requires SortedBy(key, ps)
    ensures Sort(key, ps) == ps
  {
    if ps != [] {
      SortSortedIsIdentity(key, ps[1..]);
      if |ps| > 1 { assert Before(key, ps[0], ps[1]); }
      assert ps == [ps[0]] + ps[1..];
    }
  }

  /** A list sorted on (end, start) is sorted on end. */
  lemma SortedByEndThenStartIsSortedByEnd(s: seq<Activity>)
    requires SortedBy(ByEndThenStart, s)
    ensures SortedBy(ByEnd, s)
  {
    forall i, j | 0 <= i < j < |s| ensures Before(ByEnd, s[i], s[j]) {
      assert Before(ByEndThenStart, s[i], s[j]);
    }
  }
}
