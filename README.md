# Binary search visualizer — verified model

This project models the logic of an interactive binary search visualizer
(a single React component, `src/App.jsx`). The visualizer keeps an ascending
array, runs a binary search for a target when the user clicks Search, and
records a trace of the search: one record per decision point. The user then
steps forward and backward through the trace, and every array cell is drawn
according to the record under the cursor.

The model has four modules:

- `Trace` (`trace.dfy`): the `Step` record, the trace as a recursive function
  (`Rounds`, `SearchTrace`), and `GenerateTrace`, the `while` loop of
  `handleSearch` with its `break` on a match, proved to build exactly
  `SearchTrace`.
- `TraceProperties` (`trace_properties.dfy`): what the trace promises. This
  includes a one-record-at-a-time reference reading of the algorithm
  (`Successor`) that characterises the trace uniquely. It also covers bounds
  on every record, the terminal record, the binary search invariant (every
  occurrence of the target stays in the window), "found exactly when present"
  for ascending arrays, and the length bound 2·⌈log2(n+1)⌉ + 2.
- `CellView` (`cells.dfy`): `getCellClass` and `getPointerLabel` as functions
  from the current record and a cell index. They return a cell state
  (neutral, found, not found, or marked with midpoint/low/high flags and
  active/inactive) and Low/High/Mid label flags. Lemmas tie these functions
  to the trace.
- `Visualizer` (`session.dfy`): the component's state as a class with the
  fields `values` (the array), `steps`, `cursor` and `state`
  (Idle/Searching/Finished). It has the handlers `Search`, `Next`, `Prev`
  and `NewArray`, `Reset` (the resetState helper that `NewArray` calls),
  and an invariant `Valid()`. That invariant says the trace is the search trace of the current array, the cursor stays on the
  trace, and the status is Finished exactly when the cursor is on the last
  record.

The three states are idle, searching and finished (src/App.jsx:87), and
"Prev" turns Finished back into Searching on any step back
(src/App.jsx:216-218).

## Model

| member | source | states |
|---|---|---|
| `Trace.SearchTrace` | src/App.jsx:127-190 | Every trace starts with the initial record (the whole array as the window, no midpoint) and has at least two records. The lemmas below pin down the remaining records of this function. |
| `Trace.GenerateTrace` | src/App.jsx:127-190 | The loop of handleSearch builds exactly the trace `SearchTrace(a, target)`, for every array and target. |
| `TraceProperties.TraceStart` | src/App.jsx:128-138 | The trace has at least two records. The first is `low = 0`, `high = n - 1` for an array of length n, with no midpoint. For an empty array the trace is `(0, -1)` followed directly by "not found". |
| `TraceProperties.TraceChained` | src/App.jsx:140-190 | Every record but the last is non-terminal and is followed by its successor. A midpoint record is followed by exactly one verdict: found with the same window, `low := mid + 1` tagged left, or `high := mid - 1` tagged right. After the initial or a discard record comes the next floor midpoint, or "not found" once `low > high`. The last record is terminal. |
| `TraceProperties.TraceInBounds` | src/App.jsx:140-178 | For an array of length n, every record has `0 <= low`, `high <= n - 1` and `low <= high + 1`. Every midpoint satisfies `0 <= mid < n`. On midpoint and found records, `low <= mid <= high` and `mid == (low + high) / 2` floored. A left discard has `mid == low - 1` and a right discard has `mid == high + 1`. |
| `TraceProperties.TraceEnd` | src/App.jsx:151-160 | Exactly the last record is terminal. A "found" last record has an in-bounds midpoint with `a[mid] == target`. A "not found" last record has no midpoint and `low > high`. |
| `TraceProperties.TraceKeepsTarget` | src/App.jsx:140-180 | On an ascending array, every index holding the target lies in `[low, high]` of every record. This is the loop invariant of binary search. |
| `TraceProperties.FoundIffPresent` | src/App.jsx:140-190 | On an ascending array, the trace ends "found" if and only if the target occurs in the array. |
| `TraceProperties.TraceIsUniqueChain` | src/App.jsx:127-190 | Any sequence that starts with the initial record, follows the successor relation and stops at its first terminal record equals the trace. So the successor reading is an independent, complete description of it. |
| `TraceProperties.TraceLength` | src/App.jsx:140-180 | The trace has between 2 and `2 * Bits(n) + 2` records for an array of length n. |
| `TraceProperties.ExampleSearches` | src/App.jsx:127-190 | Four example searches produce exactly the records the loop appends: 7 and 2 in `[1,3,5,7,9,11,13]`, 5 in `[]`, and 4 in `[4]`. |
| `CellView.CellClassAt` | src/App.jsx:223-251 | A cell has the neutral look exactly when there is no current record, and the "not found" look exactly when the current record is "not found". It has the found look exactly when the current record is "found" and the cell is its midpoint, so on a found record the midpoint cell and no other is marked found. Every other cell has the ordinary look. It is drawn active exactly when `low <= index <= high`, and it has the midpoint highlight, the low border and the high border exactly when it is the record's midpoint, low bound and high bound. |
| `CellView.PointerLabelsAt` | src/App.jsx:254-270 | There are no labels exactly when there is no current record. Otherwise a cell has the Low, High and Mid label exactly when it is the record's low bound, high bound and midpoint. |
| `CellView.CellAgreesWithLabels` | src/App.jsx:238-269 | A cell shows pointer labels exactly when it is not in its neutral look. A marked cell has the low border, high border and midpoint highlight exactly when it has the Low, High and Mid labels. |
| `CellView.FoundCellUnique` | src/App.jsx:231-233 | For any record, at most one cell is marked found. |
| `CellView.FoundCellHoldsTarget` | src/App.jsx:231-233 | On a trace, a cell marked found is an array cell holding the target, and the cursor is on the last record. |
| `CellView.HighlightsInsideArray` | src/App.jsx:238-248 | On a trace, a cell drawn active or under the midpoint is an array index. The low and high borders may point at most one place past either end. |
| `CellView.TargetCellsStayActive` | src/App.jsx:243-248 | On a trace over an ascending array, a cell holding the target is, at every record, either marked found or drawn inside the active window. It is never dimmed and never marked not found. |
| `Visualizer.Session.constructor` | src/App.jsx:83-87 | A new session holds an ascending array with no trace, cursor -1 and status Idle, and satisfies the invariant. |
| `Visualizer.Session.Reset` | src/App.jsx:105-111 | The trace is dropped, the cursor goes to -1 and the status becomes Idle. The array is kept. |
| `Visualizer.Session.NewArray` | src/App.jsx:94-102 | A new ascending array is installed and the session resets from any state. |
| `Visualizer.Session.Search` | src/App.jsx:119-196 | Only from Idle and with a parsed target, the session stores the search trace of its array, sets the cursor to 0 and the status to Searching. The trace ends "found" exactly when the target is present. In every other case nothing changes. |
| `Visualizer.Session.Next` | src/App.jsx:199-208 | While the cursor is before the last record, Next advances it by one and sets Finished exactly on reaching the last record. Otherwise nothing changes. The trace is never modified, and the invariant is kept. |
| `Visualizer.Session.Prev` | src/App.jsx:211-220 | While the cursor is after the first record, Prev moves it back by one and turns Finished into Searching. Otherwise nothing changes. The trace is never modified, and the invariant is kept. |

## Left out

- Random array generation (`Math.random` and the numeric sort) is left out. `NewArray` and the constructor take the array as a parameter and require it to be ascending.
- Target parsing (`parseInt`, `isNaN`) is left out. `Search` takes an already parsed `Option<int>`; `None` stands for an empty or non-numeric input, and both leave the state unchanged.
- The target text box is an input, not session state: `Search` takes the target as a parameter, so the clearing of the text box by resetState (and so by `Reset` and `NewArray`) is not modelled.
- The display message of each record and of the session is left out. It is cosmetic text only.
- React plumbing (`useState`, `useEffect`), JSX rendering, icons, CSS class strings and the array-size slider are left out. A new size only leads to `NewArray`.
- The `isNaN(low)` guard in getPointerLabel is left out. `low` is always an integer in this model, so the guard is dead.
- JavaScript numbers are modelled as unbounded integers. The array values and indices are small integers, so no rounding or overflow arises.
- Determinism of the trace generator has no lemma of its own. `SearchTrace` is a function, so equal inputs give equal traces by construction.
