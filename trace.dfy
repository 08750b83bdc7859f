/**
 * The trace generator of the binary search visualizer: a standard iterative
 * binary search over an ascending array that records one step per decision
 * point (src/App.jsx, handleSearch).
 *
 * `Rounds` and `SearchTrace` are the functional specification of the trace;
 * `GenerateTrace` is the loop that builds it, proved equal to `SearchTrace`.
 */
module Trace {

  datatype Option<T> = None | Some(value: T)

  /** The half of the window a step discarded. */
  datatype Half = Left | Right

  /**
   * One recorded decision point. `mid` is absent on the initial step and on
   * the "not found" step; `found` is present only on the terminal step;
   * `discard` is present only on the step that narrows the window. The
   * display message of each record is not modelled.
   */
  datatype Step = Step(low: int, high: int, mid: Option<int>, found: Option<bool>, discard: Option<Half>)

  /** Ascending (non-decreasing) order, as produced by the numeric sort of a new array. */
  predicate Sorted(a: seq<int>) {
    forall i, j :: 0 <= i <= j < |a| ==> a[i] <= a[j]
  }

  /** The first record: the whole array as the window, no midpoint yet. */
  function Initial(a: seq<int>): (s: Step) {
    Step(0, |a| - 1, None, None, None)
  }

  /**
   * The records the loop appends while searching the window [low, high]:
   * a midpoint record and its follow-up per round, then, if the window
   * empties, the "not found" record.
   */
  function Rounds(a: seq<int>, target: int, low: int, high: int): (r: seq<Step>)
    requires 0 <= low <= high + 1 <= |a|
    ensures r != []
    decreases high - low
  {
    if low > high then
      [Step(low, high, None, Some(false), None)]
    else
      var mid := (low + high) / 2;
      var probe := Step(low, high, Some(mid), None, None);
      if a[mid] == target then
        [probe, Step(low, high, Some(mid), Some(true), None)]
      else if a[mid] < target then
        [probe, Step(mid + 1, high, Some(mid), None, Some(Left))] + Rounds(a, target, mid + 1, high)
      else
        [probe, Step(low, mid - 1, Some(mid), None, Some(Right))] + Rounds(a, target, low, mid - 1)
  }

  /** The whole trace of a search for `target` in `a`. */
  function SearchTrace(a: seq<int>, target: int): (r: seq<Step>)
    ensures |r| >= 2 && r[0] == Initial(a)
  {
    [Initial(a)] + Rounds(a, target, 0, |a| - 1)
  }

  /** Pushing two records one at a time is appending the pair. */
  lemma AppendPair(s: seq<Step>, x: Step, y: Step, rest: seq<Step>)
    ensures (s + [x]) + [y] + rest == s + ([x, y] + rest)
  {
    assert (s + [x]) + [y] == s + [x, y];
  }

  /**
   * The loop of handleSearch: `low`/`high` bounds, a floor midpoint (both
   * bounds are non-negative inside the loop, so Dafny's division agrees with
   * Math.floor), a record pushed at every decision point and a `break` on a
   * match.
   */
  method GenerateTrace(a: seq<int>, target: int) returns (steps: seq<Step>)
    ensures steps == SearchTrace(a, target)
  {
    steps := [];
    var low := 0;
    var high := |a| - 1;
    var found := false;

    steps := steps + [Step(low, high, None, None, None)];

    while low <= high
      invariant 0 <= low <= high + 1 <= |a|
      invariant !found
      invariant steps + Rounds(a, target, low, high) == SearchTrace(a, target)
      decreases high - low
    {
      var mid := (low + high) / 2;
      var midValue := a[mid];
      ghost var before := steps;
      var probe := Step(low, high, Some(mid), None, None);

      steps := steps + [probe];

      if midValue == target {
        var hit := Step(low, high, Some(mid), Some(true), None);
        steps := steps + [hit];
        assert Rounds(a, target, low, high) == [probe, hit];
        assert steps == before + [probe, hit];
        found := true;
        break;
      } else if midValue < target {
        low := mid + 1;
        var left := Step(low, high, Some(mid), None, Some(Left));
        steps := steps + [left];
        AppendPair(before, probe, left, Rounds(a, target, low, high));
      } else {
        high := mid - 1;
        var right := Step(low, high, Some(mid), None, Some(Right));
        steps := steps + [right];
        AppendPair(before, probe, right, Rounds(a, target, low, high));
      }
    }

    if !found {
      steps := steps + [Step(low, high, None, Some(false), None)];
    }
  }
}
