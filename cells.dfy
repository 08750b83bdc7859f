/**
 * How the visualizer draws one array cell for the record under the cursor
 * (src/App.jsx, getCellClass and getPointerLabel), as cell states and
 * pointer flags rather than style strings, and what that drawing shows
 * about the array when the records come from a search trace.
 */
module CellView {
  import opened Trace
  import opened TraceProperties

  /**
   * The look of a cell. `Neutral` is the default before any search;
   * `FoundCell` and `NotFoundCell` are the two outcome highlights; otherwise
   * a cell may carry the midpoint highlight and the low/high borders, on top
   * of the active (inside the window) or inactive background.
   */
  datatype CellClass =
    | Neutral
    | FoundCell
    | NotFoundCell
    | Marked(mid: bool, lowBorder: bool, highBorder: bool, active: bool)

  /** The pointer labels under a cell. */
  datatype Labels = Labels(low: bool, high: bool, mid: bool)

  /** The record under the cursor; none before a search or when the cursor is off the trace. */
  function CurrentStep(steps: seq<Step>, cursor: int): (c: Option<Step>)
    ensures c.Some? <==> 0 <= cursor < |steps|
    ensures c.Some? ==> c.value == steps[cursor]
  {
    if 0 <= cursor < |steps| then Some(steps[cursor]) else None
  }

  /** getCellClass: the look of cell `index` for the current record. */
  function CellClassAt(current: Option<Step>, index: int): (c: CellClass)
    ensures c == Neutral <==> current.None?
    ensures c == NotFoundCell <==> current.Some? && current.value.found == Some(false)
    ensures c == FoundCell <==> current.Some? && current.value.found == Some(true) && current.value.mid == Some(index)
    ensures c.Marked? ==>
      current.Some? &&
      (c.active <==> current.value.low <= index <= current.value.high) &&
      (c.mid <==> current.value.mid == Some(index)) &&
      (c.lowBorder <==> index == current.value.low) &&
      (c.highBorder <==> index == current.value.high)
  {
    match current
    case None => Neutral
    case Some(s) =>
      if s.found == Some(true) && s.mid == Some(index) then FoundCell
      else if s.found == Some(false) then NotFoundCell
      else Marked(s.mid == Some(index), index == s.low, index == s.high, s.low <= index <= s.high)
  }

  /** getPointerLabel: no labels without a current record, else the Low/High/Mid flags of `index`. */
  function PointerLabelsAt(current: Option<Step>, index: int): (l: Option<Labels>)
    ensures l.None? <==> current.None?
    ensures l.Some? ==>
      (l.value.low <==> index == current.value.low) &&
      (l.value.high <==> index == current.value.high) &&
      (l.value.mid <==> current.value.mid == Some(index))
  {
    match current
    case None => None
    case Some(s) => Some(Labels(index == s.low, index == s.high, s.mid == Some(index)))
  }

  /**
   * The two views agree: labels are shown exactly when the cell is not in
   * its neutral look, and a marked cell carries the low border, the high
   * border and the midpoint highlight exactly when it carries the Low, High
   * and Mid labels.
   */
  lemma CellAgreesWithLabels(current: Option<Step>, index: int)
    ensures (CellClassAt(current, index) == Neutral) <==> PointerLabelsAt(current, index).None?
    ensures CellClassAt(current, index).Marked? ==>
      var c := CellClassAt(current, index);
      var l := PointerLabelsAt(current, index).value;
      c.lowBorder == l.low && c.highBorder == l.high && c.mid == l.mid
  {
  }

  /** At most one cell is marked found for any record. */
  lemma FoundCellUnique(current: Option<Step>, i: int, j: int)
    requires CellClassAt(current, i) == FoundCell && CellClassAt(current, j) == FoundCell
    ensures i == j
  {
  }

  /**
   * On a trace, a cell marked found is an array cell holding the target, and
   * the cursor is on the last record.
   */
  lemma FoundCellHoldsTarget(a: seq<int>, target: int, cursor: int, index: int)
    requires CellClassAt(CurrentStep(SearchTrace(a, target), cursor), index) == FoundCell
    ensures 0 <= index < |a| && a[index] == target
    ensures cursor == |SearchTrace(a, target)| - 1
  {
    var tr := SearchTrace(a, target);
    TraceEnd(a, target);
    assert tr[cursor].found.Some?;
    assert Last(tr) == tr[cursor];
  }

  /**
   * On a trace, every cell inside the window or under the midpoint is a cell
   * of the array. The low and high borders may point one place past either
   * end (after the window empties), where no cell is drawn.
   */
  lemma HighlightsInsideArray(a: seq<int>, target: int, cursor: int, index: int)
    requires CellClassAt(CurrentStep(SearchTrace(a, target), cursor), index).Marked?
    ensures var c := CellClassAt(CurrentStep(SearchTrace(a, target), cursor), index);
      (c.active || c.mid ==> 0 <= index < |a|) &&
      (c.lowBorder ==> 0 <= index <= |a|) &&
      (c.highBorder ==> -1 <= index < |a|)
  {
    var tr := SearchTrace(a, target);
    TraceInBounds(a, target);
    assert InBounds(|a|, tr[cursor]);
  }

  /**
   * On a trace over an ascending array, a cell holding the target is never
   * dimmed: at every record it is marked found or drawn inside the window.
   */
  lemma TargetCellsStayActive(a: seq<int>, target: int, cursor: int, index: int)
    requires Sorted(a)
    requires 0 <= cursor < |SearchTrace(a, target)|
    requires 0 <= index < |a| && a[index] == target
    ensures var c := CellClassAt(CurrentStep(SearchTrace(a, target), cursor), index);
      c == FoundCell || (c.Marked? && c.active)
  {
    var tr := SearchTrace(a, target);
    TraceKeepsTarget(a, target);
    assert WindowHolds(a, target, tr[cursor]);
    TraceEnd(a, target);
    FoundIffPresent(a, target);
    assert target in a;
    if cursor == |tr| - 1 {
      assert tr[cursor].found == Some(true);
    }
  }
}
