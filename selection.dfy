/**
 * Selection: `activity_selection(start, end)`, the earliest-finish-time
 * greedy algorithm. `GreedyFrom` is its one-pass acceptance rule as a
 * function; `ActivitySelection` is the source's loop, with its `selected`
 * list and its `last_end_time` watermark, proved to compute `Select`.
 */
module Selection {
  import opened Activities
  import opened Sorting

  /** `a` is `b` with some elements left out, the rest in their order in `b`. */
  predicate IsSubsequence(a: seq<Activity>, b: seq<Activity>)
    decreases |b|
  {
    if a == [] then true
    else if b == [] then false
    else (a[0] == b[0] && IsSubsequence(a[1..], b[1..])) || IsSubsequence(a, b[1..])
  }

  /**
   * Each activity of `r` starts at or after the end of the one before it,
   * and the first starts at or after `watermark`.
   */
  predicate ChainedFrom(r: seq<Activity>, watermark: int) {
    && (|r| > 0 ==> watermark <= r[0].start)
    && forall i :: 0 < i < |r| ==> r[i - 1].end <= r[i].start
  }

  /** The watermark after `selected` has been accepted: the last end time, or 0. */
  function LastEnd(selected: seq<Activity>): int {
    if selected == [] then 0 else selected[|selected| - 1].end
  }

  /**
   * The acceptance rule applied to `acts` in order, starting from the
   * watermark `watermark`: an activity is accepted when it starts at or after
   * the watermark, and the watermark then moves to its end.
   */
  function GreedyFrom(acts: seq<Activity>, watermark: int): (r: seq<Activity>)
    ensures ChainedFrom(r, watermark)
    ensures |r| <= |acts|
  {
    if acts == [] then []
    else if watermark <= acts[0].start then [acts[0]] + GreedyFrom(acts[1..], acts[0].end)
    else GreedyFrom(acts[1..], watermark)
  }

  /**
   * What `activity_selection(start, end)` returns: a chain from watermark 0,
   * at most one activity per input pair.
   */
  function Select(start: seq<int>, end: seq<int>): (r: seq<Activity>)
    ensures ChainedFrom(r, 0)
    ensures |r| <= Min(|start|, |end|)
  {
    GreedyFrom(Sort(ByEnd, Zip(start, end)), 0)
  }

  /**
   * The source's loop: pairs and sorts the input, then walks the sorted list
   * once, appending each accepted activity to `selected`.
   */
  method ActivitySelection(start: seq<int>, end: seq<int>) returns (selected: seq<Activity>)
    ensures selected == Select(start, end)
  {
    var activities := Sort(ByEnd, Zip(start, end));
    selected := [];
    var lastEndTime := 0;
    for i := 0 to |activities|
      invariant selected + GreedyFrom(activities[i..], lastEndTime) == GreedyFrom(activities, 0)
      invariant lastEndTime == LastEnd(selected)
    {
      var (s, e) := (activities[i].start, activities[i].end);
      LoopStep(selected, activities, i, lastEndTime);
      if s >= lastEndTime {
        selected := selected + [activities[i]];
        lastEndTime := e;
      }
    }
    assert activities[|activities|..] == [];
  }

  /**
   * One iteration of the loop: accepting `acts[i]` appends it and moves the
   * watermark to its end, rejecting it changes nothing, and either way
   * `selected` followed by the walk over what is left stays the same.
   */
  lemma LoopStep(selected: seq<Activity>, acts: seq<Activity>, i: nat, watermark: int)
    requires i < |acts|
    ensures watermark <= acts[i].start ==>
              && (selected + [acts[i]]) + GreedyFrom(acts[i + 1..], acts[i].end)
                 == selected + GreedyFrom(acts[i..], watermark)
              && LastEnd(selected + [acts[i]]) == acts[i].end
    ensures watermark > acts[i].start ==>
              GreedyFrom(acts[i + 1..], watermark) == GreedyFrom(acts[i..], watermark)
  {
    var rest := acts[i + 1..];
    assert acts[i..] == [acts[i]] + rest;
    GreedyStep(acts[i], rest, watermark);
    AppendAccepted(selected, acts[i], GreedyFrom(rest, acts[i].end));
  }

  lemma AppendAccepted(selected: seq<Activity>, x: Activity, later: seq<Activity>)
    ensures selected + ([x] + later) == (selected + [x]) + later
    ensures LastEnd(selected + [x]) == x.end
  {
  }

  /** One step of the walk on a list written as head and tail. */
  lemma GreedyStep(a: Activity, rest: seq<Activity>, watermark: int)
    ensures GreedyFrom([a] + rest, watermark)
         == if watermark <= a.start then [a] + GreedyFrom(rest, a.end) else GreedyFrom(rest, watermark)
  {
    assert ([a] + rest)[1..] == rest;
  }

  /** The walk only leaves activities out: its result is a subsequence of the list walked. */
  lemma {:induction false} GreedySubsequence(acts: seq<Activity>, watermark: int)
    ensures IsSubsequence(GreedyFrom(acts, watermark), acts)
    decreases |acts|
  {
    if acts != [] {
      if watermark <= acts[0].start {
        GreedySubsequence(acts[1..], acts[0].end);
        var r := GreedyFrom(acts, watermark);
        assert r[0] == acts[0] && r[1..] == GreedyFrom(acts[1..], acts[0].end);
      } else {
        GreedySubsequence(acts[1..], watermark);
      }
    }
  }

  // Properties of subsequences

  lemma {:induction false} SubsequenceMultiset(a: seq<Activity>, b: seq<Activity>)
    requires IsSubsequence(a, b)
    ensures multiset(a) <= multiset(b)
    decreases |b|
  {
    if a != [] {
      assert b == [b[0]] + b[1..];
      if a[0] == b[0] && IsSubsequence(a[1..], b[1..]) {
        SubsequenceMultiset(a[1..], b[1..]);
        assert a == [a[0]] + a[1..];
      } else {
        SubsequenceMultiset(a, b[1..]);
      }
    }
  }

  lemma {:induction false} SubsequenceSorted(key: SortKey, a: seq<Activity>, b: seq<Activity>)
    requires IsSubsequence(a, b)
    requires SortedBy(key, b)
    ensures SortedBy(key, a)
    decreases |b|
  {
    if a != [] {
      if a[0] == b[0] && IsSubsequence(a[1..], b[1..]) {
        SubsequenceSorted(key, a[1..], b[1..]);
        SubsequenceMultiset(a[1..], b[1..]);
        forall y | y in a[1..] ensures Before(key, b[0], y) {
          assert y in multiset(b[1..]);
        }
        assert a == [a[0]] + a[1..];
        PrependSorted(key, a[0], a[1..]);
      } else {
        SubsequenceSorted(key, a, b[1..]);
      }
    }
  }

  // What the source promises of `activity_selection`

  /**
   * Nothing is invented or reordered: the selection is a subsequence of the
   * end-sorted pairs, and each selected activity starts at or after the end
   * of the one before it, the first at or after 0.
   */
  lemma SelectIsChainedSubsequence(start: seq<int>, end: seq<int>)
    ensures IsSubsequence(Select(start, end), Sort(ByEnd, Zip(start, end)))
    ensures ChainedFrom(Select(start, end), 0)
  {
    GreedySubsequence(Sort(ByEnd, Zip(start, end)), 0);
  }

  /** Every selected activity is one of the index-aligned input pairs, at most as often as it occurs. */
  lemma SelectDrawsFromInput(start: seq<int>, end: seq<int>)
    ensures multiset(Select(start, end)) <= multiset(Zip(start, end))
    ensures forall x :: x in Select(start, end) ==>
              exists i :: 0 <= i < Min(|start|, |end|) && x == Activity(start[i], end[i])
  {
    var sorted := Sort(ByEnd, Zip(start, end));
    GreedySubsequence(sorted, 0);
    SubsequenceMultiset(Select(start, end), sorted);
    forall x | x in Select(start, end)
      ensures exists i :: 0 <= i < Min(|start|, |end|) && x == Activity(start[i], end[i])
    {
      assert x in multiset(Select(start, end));
      MemberOfZip(start, end, x);
    }
  }

  /** The selection comes out in end-time order. */
  lemma SelectEndsNondecreasing(start: seq<int>, end: seq<int>)
    ensures SortedBy(ByEnd, Select(start, end))
  {
    GreedySubsequence(Sort(ByEnd, Zip(start, end)), 0);
    SubsequenceSorted(ByEnd, Select(start, end), Sort(ByEnd, Zip(start, end)));
  }

  /**
   * No two selected activities overlap: a later one starts at or after the
   * end of every earlier one, and the first starts at or after 0.
   */
  lemma SelectNonOverlapping(start: seq<int>, end: seq<int>)
    ensures var r := Select(start, end);
      && (|r| > 0 ==> 0 <= r[0].start)
      && forall i, j :: 0 <= i < j < |r| ==> r[i].end <= r[j].start
  {
    var r := Select(start, end);
    SelectEndsNondecreasing(start, end);
    ChainedSortedDisjoint(r, 0);
  }

  /** A chain in end-time order: every later activity starts after every earlier one ends. */
  lemma ChainedSortedDisjoint(r: seq<Activity>, watermark: int)
    requires ChainedFrom(r, watermark)
    requires SortedBy(ByEnd, r)
    ensures forall i, j :: 0 <= i < j < |r| ==> r[i].end <= r[j].start
  {
    forall i, j | 0 <= i < j < |r| ensures r[i].end <= r[j].start {
      assert Before(ByEnd, r[i], r[j - 1]) || i == j - 1;
    }
  }

  /** At most one activity per input pair, and nothing for empty input. */
  lemma SelectLength(start: seq<int>, end: seq<int>)
    ensures |Select(start, end)| <= Min(|start|, |end|)
    ensures start == [] || end == [] ==> Select(start, end) == []
  {
  }

  /**
   * The watermark `last_end_time` takes the values 0, then the end of each
   * accepted activity in turn; when every activity starts no later than it
   * ends, these never decrease.
   */
  lemma WatermarkNeverDecreases(start: seq<int>, end: seq<int>)
    requires WellFormed(Zip(start, end))
    ensures var r := Select(start, end);
      && (|r| > 0 ==> 0 <= r[0].end)
      && forall i, j :: 0 <= i < j < |r| ==> r[i].end <= r[j].end
  {
    var r := Select(start, end);
    SelectEndsNondecreasing(start, end);
    SelectDrawsFromInput(start, end);
    if |r| > 0 {
      assert r[0] in multiset(Zip(start, end));
      assert 0 <= r[0].start;
      MemberOfZip(start, end, r[0]);
    }
    forall i, j | 0 <= i < j < |r| ensures r[i].end <= r[j].end {
      assert Before(ByEnd, r[i], r[j]);
    }
  }
}
