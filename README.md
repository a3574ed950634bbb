# Greedy activity selection, modelled in Dafny

The system is a small interactive page. A user types two comma-separated lists,
start times and end times. The page pairs them by index and runs the
earliest-finish-time greedy algorithm for unweighted interval scheduling. It
reports the selected activities and draws a timeline. On the timeline, each input
pair is coloured by whether its value is in the selected set.

The model covers the selector `activity_selection` (`greedy.py:6-14`). It also
covers the length check in front of it (`greedy.py:62-65`) and the
selected/not-selected classification the chart uses (`greedy.py:20,25`).

- `activities.dfy` (module `Activities`): the `Activity` value `(start, end)` and
  `Zip`, Python's `zip`, which pairs the lists by index and stops at the shorter list.
- `sorting.dfy` (module `Sorting`): `sorted(..., key=end)` as a stable insertion
  sort. The sort is parameterised by its key: `ByEnd` is the source's key, and
  `ByEndThenStart` is used by the corrected selector below.
- `selection.dfy` (module `Selection`): `GreedyFrom`, the one-pass acceptance rule
  as a function, and `Select`, the whole selector as a function. `ActivitySelection`
  is the source's loop. It keeps the `selected` list and the `last_end_time`
  watermark, and it is proved to return `Select`. The lemmas state the promised
  properties of the result.
- `optimality.dfy` (module `Optimality`): a candidate schedule is a list of
  activities drawn from the input pairs with multiplicity (each pair used at most
  once) that pairwise do not overlap. Two activities do not overlap when one starts
  at or after the other ends. The greedy result is such a schedule. The lemma
  `StaysAhead` ("greedy stays ahead") shows that, over a greedy-ordered list of
  well-formed activities, no candidate is longer than what the walk accepts. The
  end-time sort produces such a list when every activity has `0 <= start < end`;
  for zero-length ties and negative starts the source's selector can fall short
  (see Findings).
- `handler.dfy` (module `Handler`): one form submission, starting from parsed
  integer lists (`None` stands for a field that failed to parse), and the
  chart's marks.

## Model

| member | source | states |
|---|---|---|
| Activities.Zip | greedy.py:7 | the pairs have the length of the shorter list, and the i-th pair is `(start[i], end[i])` |
| Sorting.Sort | greedy.py:7 | the result is ordered by the key and is a permutation of the input (same multiset, same length) |
| Sorting.SortIsStable | greedy.py:7 | for every end time, the activities with that end time keep their input order |
| Selection.GreedyFrom | greedy.py:8-14 | each accepted activity starts at or after the previous accepted end (the first at or after the starting watermark), and the walk accepts no more activities than the list holds |
| Selection.Select | greedy.py:6-14 | the whole selector, pairing then end-time sort then the walk from watermark 0: each selected activity starts at or after the previous one's end (the first at or after 0), and there are at most as many as input pairs |
| Selection.GreedySubsequence | greedy.py:10-12 | the walk only leaves activities out: its result is a subsequence of the list walked |
| Selection.ActivitySelection | greedy.py:6-14 | the loop, with its `selected` list and its `last_end_time` watermark (invariant: the end of the last accepted activity, or 0), returns exactly `Select(start, end)`, the sort followed by the walk from watermark 0 |
| Selection.SelectIsChainedSubsequence | greedy.py:7-13 | the selection is a subsequence of the end-sorted pairs (nothing invented or reordered), and each selected activity starts at or after the previous one's end, the first at or after 0 |
| Selection.SelectDrawsFromInput | greedy.py:7-12 | every selected activity is some index-aligned pair `(start[i], end[i])`, used no more often than it occurs in the input |
| Selection.SelectEndsNondecreasing | greedy.py:7-12 | the selection comes out in non-decreasing end-time order |
| Selection.SelectNonOverlapping | greedy.py:9-13 | the first selected activity starts at or after 0, and every later selected activity starts at or after the end of every earlier one |
| Selection.SelectLength | greedy.py:7-14 | at most `min(len(start), len(end))` activities are selected, and none for an empty list |
| Selection.WatermarkNeverDecreases | greedy.py:9-13 | when every activity starts no later than it ends, the watermark values (0, then each accepted end in turn) never decrease |
| Optimality.StaysAhead | greedy.py:9-13 | in a list ordered by the earliest-finish exchange property, no non-overlapping candidate that starts at or after the watermark is longer than what the walk accepts |
| Optimality.SelectIsFeasible | greedy.py:6-14 | the selection is itself a candidate schedule: drawn from the input pairs and pairwise non-overlapping |
| Optimality.SelectIsMaximum | greedy.py:6-14 | the "maximum number of non-overlapping activities" of line 46, for inputs with `0 <= start < end`: no candidate schedule is longer than the selection |
| Optimality.ZeroLengthTieLosesOne | greedy.py:7-13 | for `start=[5,3]`, `end=[5,5]` the selector returns only `(5,5)`, although `(3,5), (5,5)` is a candidate schedule of two |
| Optimality.SwappedTieKeepsBoth | greedy.py:7-13 | with the input order swapped, `start=[3,5]`, `end=[5,5]`, the source's selector keeps both `(3,5)` and `(5,5)`, so touching activities count as non-overlapping for the source too |
| Optimality.NegativeStartLosesOne | greedy.py:9-11 | for `start=[-2]`, `end=[-1]` the selector returns nothing, since the watermark starts at 0, although `(-2,-1)` alone is a candidate schedule |
| Optimality.SelectEarliestFinish | greedy.py:7 | the selector with the sort key corrected to (end, start): a chain from watermark 0, with at most as many activities as input pairs |
| Optimality.SelectEarliestFinishIsFeasible | greedy.py:6-14 | the corrected selector, which sorts on (end, start), also returns a candidate schedule |
| Optimality.SelectEarliestFinishIsMaximum | greedy.py:6-14 | the corrected selector returns a maximum schedule for every input with `0 <= start <= end`, zero-length activities included |
| Optimality.ZeroLengthTieCorrected | greedy.py:7-13 | on `start=[5,3]`, `end=[5,5]` the corrected selector returns both activities |
| Optimality.LeastStart | greedy.py:9 | the starting watermark of the fully corrected selector: no activity starts before it, and it is the start of some activity when there is one |
| Optimality.SelectCorrected | greedy.py:6-14 | the selector with both corrections, the (end, start) sort and the watermark starting at the earliest start time: a chain from that watermark, with at most as many activities as input pairs |
| Optimality.SelectCorrectedIsFeasible | greedy.py:6-14 | the fully corrected selector returns a candidate schedule |
| Optimality.SelectCorrectedIsMaximum | greedy.py:6-14 | the fully corrected selector returns a maximum schedule for every input with `start <= end`, whatever the sign of the times |
| Optimality.NegativeStartCorrected | greedy.py:9-13 | on `start=[-2]`, `end=[-1]` the fully corrected selector returns `(-2,-1)` |
| Handler.Classify | greedy.py:20-25 | one mark per input pair; a pair is marked exactly when some selected activity equals its value |
| Handler.EqualPairsSameMark | greedy.py:25 | two input pairs with equal values always get the same mark |
| Handler.MarksCoverSelection | greedy.py:20-25 | every selected activity is the value of some marked input pair, and every marked pair's value was selected |
| Handler.DuplicatePairsBothMarked | greedy.py:20-25 | with two equal pairs `(1,2)`, only one is selected but both are marked (value equality, not position) |
| Handler.HandleSubmission | greedy.py:57-71 | a field that does not parse gives the parse error; otherwise lists of different lengths give the length error; otherwise the response holds exactly `Select(start, end)` and one mark per pair, and the marks are the chart's colouring `Classify(start, end, selected)` |
| Handler.MismatchedLengths | greedy.py:62-63 | `start=[1,2]`, `end=[1]` is reported as a length mismatch |
| Handler.SuccessIsMaximum | greedy.py:62-66 | a successful submission of activities with `0 <= start < end` reports a schedule that is feasible and at least as long as every candidate |
| Handler.DefaultSchedule | greedy.py:51-53 | the form's default pairs are already in end-time order |
| Handler.DefaultWalk | greedy.py:9-13 | the walk over the default pairs accepts A1, A2, A4 and A5 |
| Handler.DefaultSelection | greedy.py:51-65 | the default input selects `[(1,2),(3,4),(5,7),(8,9)]`, four activities |
| Handler.DefaultMarks | greedy.py:20-25 | on the default input, A3 `(0,6)` and A6 `(5,9)` are marked not selected and the rest are marked selected |
| Handler.DefaultExample | greedy.py:51-68 | the default submission succeeds with those four activities and those marks |

## Left out

- The Streamlit page is not modelled (`greedy.py:44-56`): page configuration, title, form widgets and the error and success messages. The success report's count is the length of `selected` in the `Success` response.
- Drawing in `plot_activities` is left out (`greedy.py:17-19,26-41`): bar geometry, labels `A{i+1}`, axis limits, legend and `st.pyplot`. It is rendering through foreign libraries with float arithmetic. Only the colour choice (`Classify`) is modelled.
- Text-to-integer parsing with `str.split` and `int()` is left out (`greedy.py:59-60`). Its rules for whitespace and signs belong to Python's runtime. The handler takes each field as already parsed, and `None` stands for the `ValueError` it can raise. In the source an empty field is always a parse error (`''.strip().split(',')` is `['']`, and `int('')` fails), so `Some([])` never reaches the handler; the model accepts it and answers `Success([], [])`.
- `Sorting.Sort`: Python's `sorted` is Timsort; the model uses an insertion sort. Both are stable and on-key sorted permutations, which is what the lemmas use; the model does not prove that these properties fix the output uniquely.
- Optimality.SelectIsMaximum: stated for `0 <= start < end`, weaker than `start <= end`. With zero-length activities that tie on end time, the claim is false. It is also false when a start is negative, because the watermark starts at 0 and so an activity starting before 0 can never be accepted. Both cases are under Findings.
- Handler.SuccessIsMaximum: inherits the `0 <= start < end` condition from `Optimality.SelectIsMaximum`, because the handler calls the source's selector. A submission such as `start=[5,3]`, `end=[5,5]` succeeds with one activity although two fit, and one with a negative start can lose that activity; both are the Findings rows for `greedy.py:7` and `greedy.py:9`.
- The handler keeps the source's selector (`Select`), because line 65 calls it. The corrected selectors `SelectEarliestFinish` (sort key only) and `SelectCorrected` (sort key and starting watermark) sit alongside it in `Optimality`, with their proofs.

## Findings

| source | as written | input that shows it | evidently intended | confidence | as-written member | corrected member |
|---|---|---|---|---|---|---|
| greedy.py:7 | sorts by end time alone, keeping input order among ties, so a zero-length activity `(t,t)` can come before `(s,t)` with `s < t` and move the watermark to `t`, shutting `(s,t)` out | `start=[5,3]`, `end=[5,5]`: the result is `[(5,5)]` (1 activity), but `(3,5)` and `(5,5)` do not overlap (2); with the input order swapped, `start=[3,5]`, `end=[5,5]`, the source itself returns both (`Optimality.SwappedTieKeepsBoth`) | a maximum set of non-overlapping activities, as line 46 claims: break end-time ties by start time (key `(end, start)`) | medium; not executed | Optimality.ZeroLengthTieLosesOne | Optimality.SelectEarliestFinishIsMaximum |
| greedy.py:9 | starts the watermark `last_end_time` at 0, so an activity that starts before time 0 is always rejected | `start=[-2]`, `end=[-1]`: the result is empty (0 activities), but `(-2,-1)` alone is a schedule of one | a maximum set for any times, as line 46 claims: start the watermark below every start time (the model uses the earliest start time) | medium; not executed | Optimality.NegativeStartLosesOne | Optimality.SelectCorrectedIsMaximum |
