/**
 * Handler: what one form submission does once the two text fields have
 * been parsed. A field that did not parse is `None` (Python's `ValueError`
 * from `int()`); the lengths are checked before the selector runs; on
 * success the report carries the selected list and, for the chart, a mark
 * per input pair saying whether its value is in the selected set.
 */
module Handler {
  import opened Activities
  import opened Sorting
  import opened Selection
  import opened Optimality

  datatype Option<T> = None | Some(value: T)

  datatype Response =
    | ParseError
    | LengthMismatch
    | Success(selected: seq<Activity>, marks: seq<bool>)

  /**
   * The chart's colouring: the i-th input pair is marked selected when the
   * value `(start[i], end[i])` is a member of the set of selected pairs.
   */
  function Classify(start: seq<int>, end: seq<int>, selected: seq<Activity>): (marks: seq<bool>)
    ensures |marks| == Min(|start|, |end|)
    ensures forall i :: 0 <= i < |marks| ==>
              (marks[i] <==> exists j :: 0 <= j < |selected| && selected[j] == Activity(start[i], end[i]))
  {
    var chosen := set x | x in selected;
    var pairs := Zip(start, end);
    seq(|pairs|, i requires 0 <= i < |pairs| => pairs[i] in chosen)
  }

  /** One submission: parse failure, then the length check, then selection. */
  function HandleSubmission(startTimes: Option<seq<int>>, endTimes: Option<seq<int>>): (r: Response)
    ensures r.ParseError? <==> startTimes.None? || endTimes.None?
    ensures r.LengthMismatch? <==>
              startTimes.Some? && endTimes.Some? && |startTimes.value| != |endTimes.value|
    ensures r.Success? ==>
              && r.selected == Select(startTimes.value, endTimes.value)
              && |r.marks| == |startTimes.value| == |endTimes.value|
              && r.marks == Classify(startTimes.value, endTimes.value, r.selected)
  {
    match (startTimes, endTimes)
    case (Some(start), Some(end)) =>
      if |start| != |end| then LengthMismatch
      else
        var selected := Select(start, end);
        Success(selected, Classify(start, end, selected))
    case _ => ParseError
  }

  /** Two input pairs with the same value always get the same mark. */
  lemma EqualPairsSameMark(start: seq<int>, end: seq<int>, selected: seq<Activity>, i: nat, j: nat)
    requires i < Min(|start|, |end|) && j < Min(|start|, |end|)
    requires start[i] == start[j] && end[i] == end[j]
    ensures Classify(start, end, selected)[i] == Classify(start, end, selected)[j]
  {
  }

  /**
   * The marks cover the selection: every selected activity is the value of
   * some marked input pair, and a marked pair's value was selected.
   */
  lemma MarksCoverSelection(start: seq<int>, end: seq<int>)
    ensures var marks := Classify(start, end, Select(start, end));
      && (forall x :: x in Select(start, end) ==>
            exists i :: 0 <= i < |marks| && marks[i] && x == Activity(start[i], end[i]))
      && (forall i :: 0 <= i < |marks| && marks[i] ==> Activity(start[i], end[i]) in Select(start, end))
  {
    SelectDrawsFromInput(start, end);
  }

  /**
   * Value-equality marking: with two equal pairs (1,2), one is selected and
   * both are marked.
   */
  lemma DuplicatePairsBothMarked()
    ensures Select([1, 1], [2, 2]) == [Activity(1, 2)]
    ensures Classify([1, 1], [2, 2], [Activity(1, 2)]) == [true, true]
  {
    DuplicatePairsSelection();
    DuplicatePairsMarks();
  }

  lemma DuplicatePairsMarks()
    ensures Classify([1, 1], [2, 2], [Activity(1, 2)]) == [true, true]
  {
    assert Zip([1, 1], [2, 2]) == [Activity(1, 2), Activity(1, 2)];
  }

  lemma DuplicatePairsSelection()
    ensures Select([1, 1], [2, 2]) == [Activity(1, 2)]
  {
    var p := Activity(1, 2);
    assert Zip([1, 1], [2, 2]) == [p, p];
    assert SortedBy(ByEnd, [p, p]);
    SortSortedIsIdentity(ByEnd, [p, p]);
    GreedyStep(p, [], 2);
    GreedyStep(p, [p], 0);
  }

  /**
   * A successful submission of well-formed positive-length activities
   * reports a maximum schedule: feasible, and no candidate is longer.
   */
  lemma SuccessIsMaximum(start: seq<int>, end: seq<int>, c: seq<Activity>)
    requires HandleSubmission(Some(start), Some(end)).Success?
    requires forall i :: 0 <= i < |start| ==> 0 <= start[i] < end[i]
    requires Feasible(c, start, end)
    ensures var r := HandleSubmission(Some(start), Some(end));
      Feasible(r.selected, start, end) && |c| <= |r.selected|
  {
    SelectIsFeasible(start, end);
    SelectIsMaximum(start, end, c);
  }

  /** The form's default input, paired by index. */
  lemma DefaultPairs()
    ensures Zip([1, 3, 0, 5, 8, 5], [2, 4, 6, 7, 9, 9])
         == [Activity(1, 2), Activity(3, 4), Activity(0, 6), Activity(5, 7), Activity(8, 9), Activity(5, 9)]
  {
  }

  lemma DefaultPairsSorted()
    ensures SortedBy(ByEnd, [Activity(1, 2), Activity(3, 4), Activity(0, 6), Activity(5, 7), Activity(8, 9), Activity(5, 9)])
  {
  }

  /** The form's default pairs are already in end-time order, so sorting keeps them. */
  lemma DefaultSchedule()
    ensures Sort(ByEnd, Zip([1, 3, 0, 5, 8, 5], [2, 4, 6, 7, 9, 9]))
         == [Activity(1, 2), Activity(3, 4), Activity(0, 6), Activity(5, 7), Activity(8, 9), Activity(5, 9)]
  {
    DefaultPairs();
    DefaultPairsSorted();
    SortSortedIsIdentity(ByEnd, [Activity(1, 2), Activity(3, 4), Activity(0, 6), Activity(5, 7), Activity(8, 9), Activity(5, 9)]);
  }

  /** The walk over that list accepts A1, A2, A4 and A5 and rejects A3 and A6. */
  lemma DefaultWalk()
    ensures GreedyFrom([Activity(1, 2), Activity(3, 4), Activity(0, 6), Activity(5, 7), Activity(8, 9), Activity(5, 9)], 0)
         == [Activity(1, 2), Activity(3, 4), Activity(5, 7), Activity(8, 9)]
  {
    var a1, a2, a3 := Activity(1, 2), Activity(3, 4), Activity(0, 6);
    var a4, a5, a6 := Activity(5, 7), Activity(8, 9), Activity(5, 9);
    GreedyStep(a6, [], 9);
    GreedyStep(a5, [a6], 7);
    GreedyStep(a4, [a5, a6], 4);
    GreedyStep(a3, [a4, a5, a6], 4);
    GreedyStep(a2, [a3, a4, a5, a6], 2);
    GreedyStep(a1, [a2, a3, a4, a5, a6], 0);
  }

  /** On the form's default input the selector picks A1, A2, A4 and A5. */
  lemma DefaultSelection()
    ensures Select([1, 3, 0, 5, 8, 5], [2, 4, 6, 7, 9, 9])
         == [Activity(1, 2), Activity(3, 4), Activity(5, 7), Activity(8, 9)]
  {
    DefaultSchedule();
    DefaultWalk();
  }

  /** On the default input the chart marks A3 and A6 not selected. */
  lemma DefaultMarks()
    ensures Classify([1, 3, 0, 5, 8, 5], [2, 4, 6, 7, 9, 9],
                     [Activity(1, 2), Activity(3, 4), Activity(5, 7), Activity(8, 9)])
         == [true, true, false, true, true, false]
  {
    DefaultPairs();
  }

  /** The default submission reports those four activities with those marks. */
  lemma DefaultExample()
    ensures HandleSubmission(Some([1, 3, 0, 5, 8, 5]), Some([2, 4, 6, 7, 9, 9]))
         == Success([Activity(1, 2), Activity(3, 4), Activity(5, 7), Activity(8, 9)],
                    [true, true, false, true, true, false])
  {
    DefaultSelection();
    DefaultMarks();
  }

  /** Lists of different lengths are reported without running the selector. */
  lemma MismatchedLengths()
    ensures HandleSubmission(Some([1, 2]), Some([1])) == LengthMismatch
  {
  }
}
