/**
 * The search session of the visualizer (src/App.jsx, the App component): the
 * array of values, the finished trace, the cursor into it and the three-state search
 * status, with the handlers that start a search and step through the trace.
 */
module Visualizer {
  import opened Trace
  import opened TraceProperties

  /** The status shown by the controls: no trace yet, stepping through one, at its last record. */
  datatype SearchState = Idle | Searching | Finished

  class Session {
    var values: seq<int>
    var steps: seq<Step>
    var cursor: int
    var state: SearchState

    /** The target of the search whose trace is held, once one was started. */
    ghost var target: int

    /**
     * Idle means no trace and the cursor at -1. Otherwise the trace is that
     * of a search of the current array, the cursor is on one of its records,
     * and the status is Finished exactly when the cursor is on the last one.
     */
    ghost predicate Valid()
      reads this
    {
      Sorted(values) &&
      (state == Idle ==> steps == [] && cursor == -1) &&
      (state != Idle ==>
        steps == SearchTrace(values, target) &&
        0 <= cursor < |steps| &&
        (state == Finished <==> cursor == |steps| - 1))
    }

    /** The component as first shown: a fresh ascending array and an idle session. */
    constructor (a: seq<int>)
      requires Sorted(a)
      ensures Valid()
      ensures values == a && steps == [] && cursor == -1 && state == Idle
    {
      values := a;
      steps := [];
      cursor := -1;
      state := Idle;
    }

    /** resetState: drop the trace and return to Idle. */
    method Reset()
      requires Valid()
      modifies this
      ensures Valid()
      ensures values == old(values) && steps == [] && cursor == -1 && state == Idle
    {
      steps := [];
      cursor := -1;
      state := Idle;
    }

    /**
     * generateNewArray: install a new ascending array (how it is drawn is not
     * modelled) and reset the session, whatever state it was in. React applies
     * both updates together, so their order here does not matter.
     */
    method NewArray(a: seq<int>)
      requires Valid()
      requires Sorted(a)
      modifies this
      ensures Valid()
      ensures values == a && steps == [] && cursor == -1 && state == Idle
    {
      Reset();
      values := a;
    }

    /**
     * handleSearch: only from Idle and with a parsed target (`None` stands for
     * an empty or non-numeric input, which changes nothing but the message).
     * Then the trace of the search is stored, the cursor goes to its first
     * record and the status becomes Searching; the trace ends "found" exactly
     * when the target occurs in the array.
     */
    method Search(input: Option<int>)
      requires Valid()
      modifies this
      ensures Valid()
      ensures values == old(values)
      ensures if old(state) == Idle && input.Some? then
          steps == SearchTrace(values, input.value) && cursor == 0 && state == Searching &&
          (Last(steps).found == Some(true) <==> input.value in values)
        else
          steps == old(steps) && cursor == old(cursor) && state == old(state)
    {
      if state != Idle || input.None? {
        return;
      }
      var trace := GenerateTrace(values, input.value);
      TraceStart(values, input.value);
      FoundIffPresent(values, input.value);
      steps := trace;
      state := Searching;
      cursor := 0;
      target := input.value;
    }

    /**
     * handleNextStep: advance the cursor by one while it is before the last
     * record, and mark the session Finished when it reaches the last one.
     * The trace itself is never touched.
     */
    method Next()
      requires Valid()
      modifies this`cursor, this`state
      ensures Valid()
      ensures if old(cursor) < |steps| - 1 then
          cursor == old(cursor) + 1 &&
          state == (if cursor == |steps| - 1 then Finished else old(state))
        else
          cursor == old(cursor) && state == old(state)
    {
      if cursor < |steps| - 1 {
        var next := cursor + 1;
        cursor := next;
        if next == |steps| - 1 {
          state := Finished;
        }
      }
    }

    /**
     * handlePrevStep: move the cursor back by one while it is after the first
     * record, and turn Finished back into Searching. The trace itself is
     * never touched.
     */
    method Prev()
      requires Valid()
      modifies this`cursor, this`state
      ensures Valid()
      ensures if old(cursor) > 0 then
          cursor == old(cursor) - 1 &&
          state == (if old(state) == Finished then Searching else old(state))
        else
          cursor == old(cursor) && state == old(state)
    {
      if cursor > 0 {
        var prev := cursor - 1;
        cursor := prev;
        if state == Finished {
          state := Searching;
        }
      }
    }
  }
}
