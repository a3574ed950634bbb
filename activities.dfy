/**
 * Activities: the value an activity is (a start time and an end time, as a
 * Python tuple `(s, e)` is in the source) and the pairing of the two input
 * lists by index that `zip(start, end)` performs.
 */
module Activities {

  /** One activity, compared by value like the source's `(s, e)` tuples. */
  datatype Activity = Activity(start: int, end: int)

  function Min(a: int, b: int): (m: int)
    ensures m <= a && m <= b && (m == a || m == b)
  {
    if a <= b then a else b
  }

  /**
   * Python's `zip(start, end)`: pairs the i-th start with the i-th end and
   * stops at the end of the shorter list.
   */
  function Zip(start: seq<int>, end: seq<int>): (pairs: seq<Activity>)
    ensures |pairs| == Min(|start|, |end|)
    ensures forall i :: 0 <= i < |pairs| ==> pairs[i] == Activity(start[i], end[i])
  {
    if start == [] || end == [] then []
    else [Activity(start[0], end[0])] + Zip(start[1..], end[1..])
  }

  /** Every activity of `acts` starts no later than it ends. */
  predicate WellFormed(acts: seq<Activity>) {
    forall i :: 0 <= i < |acts| ==> acts[i].start <= acts[i].end
  }

  /** An index of `pairs` holding `x`, for a value known to occur in it. */
  lemma MemberOfZip(start: seq<int>, end: seq<int>, x: Activity)
    requires x in multiset(Zip(start, end))
    ensures exists i :: 0 <= i < Min(|start|, |end|) && x == Activity(start[i], end[i])
  {
    var pairs := Zip(start, end);
    assert x in pairs;
    var i :| 0 <= i < |pairs| && pairs[i] == x;
  }
}
