/**
 * Optimality: the claim that the selector finds the maximum number of
 * non-overlapping activities. A candidate schedule is any list of
 * activities drawn from the input (each input pair used at most once) whose
 * members pairwise do not overlap. The greedy result is such a schedule,
 * and no such schedule is longer, when every activity has positive length;
 * with zero-length activities the end-time-only sort can lose one, and the
 * corrected selector, which breaks end-time ties by start time, cannot. An
 * activity that starts before time 0 is lost to the watermark's starting
 * value 0; the fully corrected selector starts it at the earliest start.
 */
module Optimality {
  import opened Activities
  import opened Sorting
  import opened Selection

  /** Two activities do not overlap: one starts at or after the other ends. */
  predicate Compatible(x: Activity, y: Activity) {
    x.end <= y.start || y.end <= x.start
  }

  predicate PairwiseCompatible(c: seq<Activity>) {
    forall i, j :: 0 <= i < j < |c| ==> Compatible(c[i], c[j])
  }

  /** `c` uses each activity of `acts` at most as often as `acts` holds it. */
  predicate DrawnFrom(c: seq<Activity>, acts: seq<Activity>) {
    multiset(c) <= multiset(acts)
  }

  /** A candidate schedule: non-overlapping activities drawn from the input pairs. */
  predicate Feasible(c: seq<Activity>, start: seq<int>, end: seq<int>) {
    DrawnFrom(c, Zip(start, end)) && PairwiseCompatible(c)
  }

  /**
   * The exchange property the greedy walk needs of an earlier activity `x`
   * over a later one `y`: `x` ends no later, and on a tie in end time either
   * `x` has positive length or it starts no later than `y`.
   */
  predicate FinishesFirst(x: Activity, y: Activity) {
    x.end <= y.end && (x.end == y.end ==> x.start < x.end || x.start <= y.start)
  }

  predicate GreedyOrdered(acts: seq<Activity>) {
    forall i, j :: 0 <= i < j < |acts| ==> FinishesFirst(acts[i], acts[j])
  }

  /** `c` with its `k`-th element taken out. */
  function RemoveAt(c: seq<Activity>, k: nat): (r: seq<Activity>)
    requires k < |c|
    ensures |r| == |c| - 1
    ensures multiset(r) == multiset(c) - multiset{c[k]}
    ensures forall i :: 0 <= i < |r| ==> r[i] == c[if i < k then i else i + 1]
  {
    assert c == c[..k] + [c[k]] + c[k + 1..];
    c[..k] + c[k + 1..]
  }

  lemma RemoveAtCompatible(c: seq<Activity>, k: nat)
    requires k < |c| && PairwiseCompatible(c)
    ensures PairwiseCompatible(RemoveAt(c, k))
  {
    var r := RemoveAt(c, k);
    forall i, j | 0 <= i < j < |r| ensures Compatible(r[i], r[j]) {
      var i', j' := if i < k then i else i + 1, if j < k then j else j + 1;
      assert r[i] == c[i'] && r[j] == c[j'] && i' < j';
    }
  }

  lemma RemoveAtDrawnFrom(c: seq<Activity>, k: nat, acts: seq<Activity>)
    requires k < |c| && DrawnFrom(c, acts)
    ensures DrawnFrom(RemoveAt(c, k), acts)
  {
    assert multiset(RemoveAt(c, k)) <= multiset(c);
  }

  /** Every activity of a greedy-ordered list finishes no earlier than its head. */
  lemma HeadFinishesFirst(acts: seq<Activity>, y: Activity)
    requires acts != [] && GreedyOrdered(acts)
    requires y in multiset(acts)
    ensures FinishesFirst(acts[0], y)
  {
    var j :| 0 <= j < |acts| && acts[j] == y;
  }

  /** A candidate that does not use the head of `acts` is drawn from its tail. */
  lemma DrawnFromTail(c: seq<Activity>, acts: seq<Activity>)
    requires acts != [] && DrawnFrom(c, acts)
    requires acts[0] !in multiset(c)
    ensures DrawnFrom(c, acts[1..])
  {
    assert acts == [acts[0]] + acts[1..];
    forall y ensures multiset(c)[y] <= multiset(acts[1..])[y] {
      if y == acts[0] { assert multiset(c)[y] == 0; }
    }
  }

  /** A candidate that uses the head of `acts` at `k` is, without it, drawn from the tail. */
  lemma DrawnFromTailWithout(c: seq<Activity>, acts: seq<Activity>, k: nat)
    requires acts != [] && DrawnFrom(c, acts)
    requires k < |c| && c[k] == acts[0]
    ensures DrawnFrom(RemoveAt(c, k), acts[1..])
  {
    assert acts == [acts[0]] + acts[1..];
    assert multiset(acts) == multiset{acts[0]} + multiset(acts[1..]);
  }

  /**
   * The exchange step: if the candidate's `k`-th activity is the head of
   * `acts`, or starts before the head ends, every other activity of the
   * candidate starts at or after the head's end.
   */
  lemma OthersStartAfterHead(acts: seq<Activity>, c: seq<Activity>, k: nat)
    requires acts != [] && GreedyOrdered(acts) && WellFormed(acts)
    requires DrawnFrom(c, acts) && PairwiseCompatible(c)
    requires k < |c| && (c[k] == acts[0] || c[k].start < acts[0].end)
    ensures forall i :: 0 <= i < |c| - 1 ==> acts[0].end <= RemoveAt(c, k)[i].start
  {
    var a, c1 := acts[0], RemoveAt(c, k);
    assert a.start <= a.end;
    assert c[k] in multiset(c);
    HeadFinishesFirst(acts, c[k]);
    forall i | 0 <= i < |c1| ensures a.end <= c1[i].start {
      var j := if i < k then i else i + 1;
      assert c1[i] == c[j] && c[j] in multiset(c);
      assert Compatible(c[k], c[j]) by {
        if j < k { assert Compatible(c[j], c[k]); }
      }
      HeadFinishesFirst(acts, c[j]);
    }
  }

  lemma TailGreedyOrdered(acts: seq<Activity>)
    requires acts != [] && GreedyOrdered(acts) && WellFormed(acts)
    ensures GreedyOrdered(acts[1..]) && WellFormed(acts[1..])
  {
  }

  /**
   * Greedy stays ahead: in a greedy-ordered list of well-formed activities,
   * no non-overlapping candidate whose activities all start at or after the
   * watermark is longer than what the greedy walk accepts from there.
   */
  lemma {:induction false} StaysAhead(acts: seq<Activity>, watermark: int, c: seq<Activity>)
    requires GreedyOrdered(acts) && WellFormed(acts)
    requires DrawnFrom(c, acts) && PairwiseCompatible(c)
    requires forall i :: 0 <= i < |c| ==> watermark <= c[i].start
    ensures |c| <= |GreedyFrom(acts, watermark)|
    decreases |acts|, 1
  {
    if acts == [] {
      assert |multiset(c)| == 0;
    } else if acts[0] in multiset(c) {
      StaysAheadHeadChosen(acts, watermark, c);
    } else {
      StaysAheadHeadNotChosen(acts, watermark, c);
    }
  }

  /** The head is in the candidate: the walk accepts it too, and the rest of the candidate follows it. */
  lemma {:induction false} StaysAheadHeadChosen(acts: seq<Activity>, watermark: int, c: seq<Activity>)
    requires acts != [] && acts[0] in multiset(c)
    requires GreedyOrdered(acts) && WellFormed(acts)
    requires DrawnFrom(c, acts) && PairwiseCompatible(c)
    requires forall i :: 0 <= i < |c| ==> watermark <= c[i].start
    ensures |c| <= |GreedyFrom(acts, watermark)|
    decreases |acts|, 0
  {
    var a := acts[0];
    var k :| 0 <= k < |c| && c[k] == a;
    assert watermark <= a.start;
    TailGreedyOrdered(acts);
    OthersStartAfterHead(acts, c, k);
    DrawnFromTailWithout(c, acts, k);
    RemoveAtCompatible(c, k);
    StaysAhead(acts[1..], a.end, RemoveAt(c, k));
  }

  /**
   * The head is not in the candidate: if the walk rejects it nothing is
   * lost; if it accepts it, at most one candidate activity starts before
   * the head ends, and that one is given up for the head.
   */
  lemma {:induction false} StaysAheadHeadNotChosen(acts: seq<Activity>, watermark: int, c: seq<Activity>)
    requires acts != [] && acts[0] !in multiset(c)
    requires GreedyOrdered(acts) && WellFormed(acts)
    requires DrawnFrom(c, acts) && PairwiseCompatible(c)
    requires forall i :: 0 <= i < |c| ==> watermark <= c[i].start
    ensures |c| <= |GreedyFrom(acts, watermark)|
    decreases |acts|, 0
  {
    var a := acts[0];
    TailGreedyOrdered(acts);
    DrawnFromTail(c, acts);
    if watermark > a.start {
      StaysAhead(acts[1..], watermark, c);
    } else if k :| 0 <= k < |c| && c[k].start < a.end {
      OthersStartAfterHead(acts, c, k);
      RemoveAtCompatible(c, k);
      RemoveAtDrawnFrom(c, k, acts[1..]);
      StaysAhead(acts[1..], a.end, RemoveAt(c, k));
    } else {
      StaysAhead(acts[1..], a.end, c);
    }
  }

  /** The greedy result is itself a candidate schedule. */
  lemma SelectIsFeasible(start: seq<int>, end: seq<int>)
    ensures Feasible(Select(start, end), start, end)
  {
    SelectDrawsFromInput(start, end);
    SelectNonOverlapping(start, end);
  }

  /** Sorted by end time, activities of positive length are greedy-ordered. */
  lemma SortedByEndIsGreedyOrdered(acts: seq<Activity>)
    requires SortedBy(ByEnd, acts)
    requires forall i :: 0 <= i < |acts| ==> acts[i].start < acts[i].end
    ensures GreedyOrdered(acts)
  {
    forall i, j | 0 <= i < j < |acts| ensures FinishesFirst(acts[i], acts[j]) {
      assert Before(ByEnd, acts[i], acts[j]);
    }
  }

  /**
   * Maximality of the source's selector: when every activity satisfies
   * 0 <= start < end, no candidate schedule is longer than the result.
   */
  lemma SelectIsMaximum(start: seq<int>, end: seq<int>, c: seq<Activity>)
    requires forall i :: 0 <= i < Min(|start|, |end|) ==> 0 <= start[i] < end[i]
    requires Feasible(c, start, end)
    ensures |c| <= |Select(start, end)|
  {
    var sorted := Sort(ByEnd, Zip(start, end));
    forall y: Activity | y in multiset(sorted) ensures 0 <= y.start < y.end {
      MemberOfZip(start, end, y);
    }
    forall i | 0 <= i < |sorted| ensures 0 <= sorted[i].start < sorted[i].end {
      assert sorted[i] in multiset(sorted);
    }
    SortedByEndIsGreedyOrdered(sorted);
    forall i | 0 <= i < |c| ensures 0 <= c[i].start {
      assert c[i] in multiset(sorted);
    }
    StaysAhead(sorted, 0, c);
  }

  /**
   * The end-time-only sort keeps (5,5) ahead of (3,5); accepting (5,5) moves
   * the watermark to 5 and rejects (3,5), although the two do not overlap.
   */
  lemma ZeroLengthTieLosesOne()
    ensures Select([5, 3], [5, 5]) == [Activity(5, 5)]
    ensures Feasible([Activity(3, 5), Activity(5, 5)], [5, 3], [5, 5])
  {
    ZeroLengthTieSelection();
    ZeroLengthTieCandidate();
  }

  lemma ZeroLengthTieSelection()
    ensures Select([5, 3], [5, 5]) == [Activity(5, 5)]
  {
    var sorted := [Activity(5, 5), Activity(3, 5)];
    assert Zip([5, 3], [5, 5]) == sorted;
    assert SortedBy(ByEnd, sorted);
    SortSortedIsIdentity(ByEnd, sorted);
    GreedyStep(Activity(3, 5), [], 5);
    GreedyStep(Activity(5, 5), [Activity(3, 5)], 0);
  }

  lemma ZeroLengthTieCandidate()
    ensures Feasible([Activity(3, 5), Activity(5, 5)], [5, 3], [5, 5])
  {
    var pairs := [Activity(5, 5), Activity(3, 5)];
    assert Zip([5, 3], [5, 5]) == pairs;
    assert multiset([Activity(3, 5), Activity(5, 5)]) == multiset(pairs);
  }

  /**
   * The corrected selector: sort on (end, start), then the same greedy walk;
   * its result is a chain from watermark 0, at most one activity per pair.
   */
  function SelectEarliestFinish(start: seq<int>, end: seq<int>): (r: seq<Activity>)
    ensures ChainedFrom(r, 0)
    ensures |r| <= Min(|start|, |end|)
  {
    GreedyFrom(Sort(ByEndThenStart, Zip(start, end)), 0)
  }

  lemma SelectEarliestFinishIsFeasible(start: seq<int>, end: seq<int>)
    ensures Feasible(SelectEarliestFinish(start, end), start, end)
  {
    var sorted := Sort(ByEndThenStart, Zip(start, end));
    var r := SelectEarliestFinish(start, end);
    GreedySubsequence(sorted, 0);
    SubsequenceMultiset(r, sorted);
    SubsequenceSorted(ByEndThenStart, r, sorted);
    SortedByEndThenStartIsSortedByEnd(r);
    ChainedSortedDisjoint(r, 0);
  }

  /** Sorted on (end, start), well-formed activities are greedy-ordered. */
  lemma SortedByEndThenStartIsGreedyOrdered(acts: seq<Activity>)
    requires SortedBy(ByEndThenStart, acts) && WellFormed(acts)
    ensures GreedyOrdered(acts)
  {
    forall i, j | 0 <= i < j < |acts| ensures FinishesFirst(acts[i], acts[j]) {
      assert Before(ByEndThenStart, acts[i], acts[j]);
    }
  }

  /**
   * Maximality of the corrected selector for every input with
   * 0 <= start <= end, zero-length activities included.
   */
  lemma SelectEarliestFinishIsMaximum(start: seq<int>, end: seq<int>, c: seq<Activity>)
    requires forall i :: 0 <= i < Min(|start|, |end|) ==> 0 <= start[i] <= end[i]
    requires Feasible(c, start, end)
    ensures |c| <= |SelectEarliestFinish(start, end)|
  {
    var sorted := Sort(ByEndThenStart, Zip(start, end));
    forall y: Activity | y in multiset(sorted) ensures 0 <= y.start <= y.end {
      MemberOfZip(start, end, y);
    }
    forall i | 0 <= i < |sorted| ensures 0 <= sorted[i].start <= sorted[i].end {
      assert sorted[i] in multiset(sorted);
    }
    SortedByEndThenStartIsGreedyOrdered(sorted);
    forall i | 0 <= i < |c| ensures 0 <= c[i].start {
      assert c[i] in multiset(sorted);
    }
    StaysAhead(sorted, 0, c);
  }

  /** On the same input, the corrected selector keeps both activities. */
  lemma ZeroLengthTieCorrected()
    ensures SelectEarliestFinish([5, 3], [5, 5]) == [Activity(3, 5), Activity(5, 5)]
  {
    assert Zip([5, 3], [5, 5]) == [Activity(5, 5), Activity(3, 5)];
    var sorted := [Activity(3, 5), Activity(5, 5)];
    assert Sort(ByEndThenStart, [Activity(3, 5)]) == [Activity(3, 5)];
    assert Insert(ByEndThenStart, Activity(5, 5), [Activity(3, 5)]) == sorted;
    assert Sort(ByEndThenStart, [Activity(5, 5), Activity(3, 5)]) == sorted;
    assert GreedyFrom([Activity(5, 5)], 5) == [Activity(5, 5)];
    assert GreedyFrom(sorted, 0) == [Activity(3, 5)] + GreedyFrom(sorted[1..], 5);
  }

  /**
   * With the input order swapped, the source's own selector keeps both
   * activities of the zero-length tie: (3,5) is accepted first and (5,5)
   * starts exactly at its end.
   */
  lemma SwappedTieKeepsBoth()
    ensures Select([3, 5], [5, 5]) == [Activity(3, 5), Activity(5, 5)]
  {
    var sorted := [Activity(3, 5), Activity(5, 5)];
    assert Zip([3, 5], [5, 5]) == sorted;
    assert SortedBy(ByEnd, sorted);
    SortSortedIsIdentity(ByEnd, sorted);
    GreedyStep(Activity(5, 5), [], 5);
    GreedyStep(Activity(3, 5), [Activity(5, 5)], 0);
  }

  /**
   * The watermark starts at 0, so an activity that starts before 0 is never
   * accepted: for start=[-2], end=[-1] the result is empty, although (-2,-1)
   * alone is a candidate schedule.
   */
  lemma NegativeStartLosesOne()
    ensures Select([-2], [-1]) == []
    ensures Feasible([Activity(-2, -1)], [-2], [-1])
  {
    assert Zip([-2], [-1]) == [Activity(-2, -1)];
    assert Sort(ByEnd, [Activity(-2, -1)]) == [Activity(-2, -1)];
    GreedyStep(Activity(-2, -1), [], 0);
  }

  /** The earliest start time among `acts`, or 0 when there is none. */
  function LeastStart(acts: seq<Activity>): (m: int)
    ensures forall i :: 0 <= i < |acts| ==> m <= acts[i].start
    ensures acts != [] ==> exists i :: 0 <= i < |acts| && m == acts[i].start
  {
    if |acts| <= 1 then (if acts == [] then 0 else acts[0].start)
    else
      var m := LeastStart(acts[1..]);
      if acts[0].start <= m then acts[0].start
      else
        assert exists i :: 0 <= i < |acts[1..]| && m == acts[1..][i].start;
        var i :| 0 <= i < |acts[1..]| && m == acts[1..][i].start;
        assert m == acts[i + 1].start;
        m
  }

  /**
   * The selector with both corrections: end-time ties broken by start time,
   * and the watermark starting at the earliest start time instead of 0, so
   * that activities before time 0 can be accepted. Its result is a chain
   * from that watermark, at most one activity per input pair.
   */
  function SelectCorrected(start: seq<int>, end: seq<int>): (r: seq<Activity>)
    ensures ChainedFrom(r, LeastStart(Zip(start, end)))
    ensures |r| <= Min(|start|, |end|)
  {
    var pairs := Zip(start, end);
    GreedyFrom(Sort(ByEndThenStart, pairs), LeastStart(pairs))
  }

  lemma SelectCorrectedIsFeasible(start: seq<int>, end: seq<int>)
    ensures Feasible(SelectCorrected(start, end), start, end)
  {
    var pairs := Zip(start, end);
    var sorted := Sort(ByEndThenStart, pairs);
    var r := SelectCorrected(start, end);
    GreedySubsequence(sorted, LeastStart(pairs));
    SubsequenceMultiset(r, sorted);
    SubsequenceSorted(ByEndThenStart, r, sorted);
    SortedByEndThenStartIsSortedByEnd(r);
    ChainedSortedDisjoint(r, LeastStart(pairs));
  }

  /**
   * Maximality of the fully corrected selector for every input whose
   * activities start no later than they end, whatever the sign of the times.
   */
  lemma SelectCorrectedIsMaximum(start: seq<int>, end: seq<int>, c: seq<Activity>)
    requires forall i :: 0 <= i < Min(|start|, |end|) ==> start[i] <= end[i]
    requires Feasible(c, start, end)
    ensures |c| <= |SelectCorrected(start, end)|
  {
    var pairs := Zip(start, end);
    var sorted := Sort(ByEndThenStart, pairs);
    var m := LeastStart(pairs);
    forall i | 0 <= i < |sorted| ensures sorted[i].start <= sorted[i].end {
      assert sorted[i] in multiset(sorted);
      MemberOfZip(start, end, sorted[i]);
    }
    SortedByEndThenStartIsGreedyOrdered(sorted);
    forall i | 0 <= i < |c| ensures m <= c[i].start {
      assert c[i] in multiset(pairs);
      var j :| 0 <= j < |pairs| && pairs[j] == c[i];
    }
    StaysAhead(sorted, m, c);
  }

  /** On the negative-start input, the corrected selector keeps (-2,-1). */
  lemma NegativeStartCorrected()
    ensures SelectCorrected([-2], [-1]) == [Activity(-2, -1)]
  {
    assert Zip([-2], [-1]) == [Activity(-2, -1)];
    assert Sort(ByEndThenStart, [Activity(-2, -1)]) == [Activity(-2, -1)];
    GreedyStep(Activity(-2, -1), [], -2);
  }
}
