/**
 * What the trace of handleSearch promises: where it starts, how each record
 * determines the next one, that every index it reads is in bounds, how it
 * ends, that a search of an ascending array finds the target exactly when
 * the target is present, and how long the trace can be.
 */
module TraceProperties {
  import opened Trace

  /** A midpoint record: a midpoint has been computed and not yet acted on. */
  predicate IsProbe(s: Step) {
    s.mid.Some? && s.found.None? && s.discard.None?
  }

  /** The record that ends the trace, "found" or "not found". */
  predicate IsTerminal(s: Step) {
    s.found.Some?
  }

  /**
   * An independent, one-record-at-a-time reading of the algorithm: the record
   * the search appends after `s`. After a midpoint record comes its verdict
   * (found, discard left, discard right); after the initial record or a
   * discard comes the next midpoint, or "not found" once the window is empty.
   */
  function Successor(a: seq<int>, target: int, s: Step): (r: Step)
    requires !IsTerminal(s)
    requires IsProbe(s) ==> 0 <= s.mid.value < |a|
    ensures IsProbe(s) ==> !IsProbe(r) && r.mid == s.mid
    ensures !IsProbe(s) ==> r.discard.None? && (IsProbe(r) || IsTerminal(r)) && r.low == s.low && r.high == s.high
  {
    if IsProbe(s) then
      var m := s.mid.value;
      if a[m] == target then s.(found := Some(true))
      else if a[m] < target then s.(low := m + 1, discard := Some(Left))
      else s.(high := m - 1, discard := Some(Right))
    else if s.low <= s.high then
      Step(s.low, s.high, Some((s.low + s.high) / 2), None, None)
    else
      Step(s.low, s.high, None, Some(false), None)
  }

  /** Record `k` of `tr` is non-terminal and is followed by its successor. */
  predicate Linked(a: seq<int>, target: int, tr: seq<Step>, k: int)
    requires 0 <= k < |tr| - 1
  {
    !IsTerminal(tr[k]) &&
    (IsProbe(tr[k]) ==> 0 <= tr[k].mid.value < |a|) &&
    tr[k + 1] == Successor(a, target, tr[k])
  }

  /** Every record but the last is non-terminal and is followed by its successor. */
  predicate Chained(a: seq<int>, target: int, tr: seq<Step>) {
    forall k :: 0 <= k < |tr| - 1 ==> Linked(a, target, tr, k)
  }

  /**
   * The shape every record has in an array of length `n`: the window stays
   * inside the array and is empty by at most one index; a midpoint record and
   * the "found" record carry the floor midpoint of their window; a discard
   * record carries the midpoint just outside the narrowed window; the
   * "not found" record has no midpoint and an empty window.
   */
  predicate InBounds(n: int, s: Step) {
    0 <= s.low && s.high <= n - 1 && s.low <= s.high + 1 &&
    (s.mid.Some? ==> 0 <= s.mid.value < n) &&
    (s.mid.Some? && s.discard.None? ==>
      s.low <= s.mid.value <= s.high && s.mid.value == (s.low + s.high) / 2) &&
    (s.discard == Some(Left) ==> s.mid == Some(s.low - 1) && s.found.None?) &&
    (s.discard == Some(Right) ==> s.mid == Some(s.high + 1) && s.found.None?) &&
    (s.found == Some(false) ==> s.mid.None? && s.discard.None? && s.low == s.high + 1)
  }

  /** Every index holding `target` lies in the window of `s`. */
  predicate WindowHolds(a: seq<int>, target: int, s: Step) {
    forall i :: 0 <= i < |a| && a[i] == target ==> s.low <= i <= s.high
  }

  /** Every record of `rs` is in bounds for an array of length `n`. */
  predicate AllInBounds(n: int, rs: seq<Step>) {
    forall k :: 0 <= k < |rs| ==> InBounds(n, rs[k])
  }

  /** Every window of `rs` holds every occurrence of `target`. */
  predicate AllWindowsHold(a: seq<int>, target: int, rs: seq<Step>) {
    forall k :: 0 <= k < |rs| ==> WindowHolds(a, target, rs[k])
  }

  function Last(rs: seq<Step>): (s: Step)
    requires rs != []
    ensures s in rs
  {
    rs[|rs| - 1]
  }

  // ---------------------------------------------------------------------
  // The rounds of the loop

  /** Prefixing a midpoint record and its discard record keeps a chain a chain. */
  lemma ChainedCons(a: seq<int>, target: int, probe: Step, verdict: Step, rest: seq<Step>)
    requires IsProbe(probe) && 0 <= probe.mid.value < |a|
    requires verdict == Successor(a, target, probe) && verdict.discard.Some?
    requires rest != [] && rest[0] == Successor(a, target, verdict)
    requires Chained(a, target, rest)
    ensures Chained(a, target, [probe, verdict] + rest)
  {
    var r := [probe, verdict] + rest;
    forall k | 0 <= k < |r| - 1
      ensures Linked(a, target, r, k)
    {
      if k >= 2 {
        assert Linked(a, target, rest, k - 2);
        assert r[k] == rest[k - 2] && r[k + 1] == rest[k - 1];
      }
    }
  }

  /** Prefixing two in-bounds records keeps every record in bounds. */
  lemma InBoundsCons(n: int, probe: Step, verdict: Step, rest: seq<Step>)
    requires InBounds(n, probe) && InBounds(n, verdict) && AllInBounds(n, rest)
    ensures AllInBounds(n, [probe, verdict] + rest)
  {
    var r := [probe, verdict] + rest;
    forall k | 2 <= k < |r|
      ensures InBounds(n, r[k])
    {
      assert r[k] == rest[k - 2];
    }
  }

  /** Prefixing two records whose windows hold the target keeps every window holding it. */
  lemma WindowsCons(a: seq<int>, target: int, probe: Step, verdict: Step, rest: seq<Step>)
    requires WindowHolds(a, target, probe) && WindowHolds(a, target, verdict)
    requires AllWindowsHold(a, target, rest)
    ensures AllWindowsHold(a, target, [probe, verdict] + rest)
  {
    var r := [probe, verdict] + rest;
    forall k | 2 <= k < |r|
      ensures WindowHolds(a, target, r[k])
    {
      assert r[k] == rest[k - 2];
    }
  }

  /** The first record the rounds over [low, high] append is the successor of a record for that window. */
  lemma RoundsHead(a: seq<int>, target: int, low: int, high: int)
    requires 0 <= low <= high + 1 <= |a|
    ensures Rounds(a, target, low, high) != []
    ensures Rounds(a, target, low, high)[0] == Successor(a, target, Step(low, high, None, None, None))
  {
  }

  /** A midpoint record followed by its "found" verdict is a chain. */
  lemma FoundPairChained(a: seq<int>, target: int, probe: Step)
    requires IsProbe(probe) && 0 <= probe.mid.value < |a| && a[probe.mid.value] == target
    ensures Chained(a, target, [probe, Successor(a, target, probe)])
    ensures IsTerminal(Successor(a, target, probe))
  {
  }

  /** Both halves left after a midpoint are at most half the window. */
  lemma HalvesShrink(low: int, high: int)
    requires low <= high
    ensures var mid := (low + high) / 2;
      0 <= high - mid <= (high - low + 1) / 2 && 0 <= mid - low <= (high - low + 1) / 2
  {
  }

  /**
   * The verdict on a midpoint that misses the target: discard the left half
   * (`low := mid + 1`) when the midpoint is too small, else the right half
   * (`high := mid - 1`); the narrowed window is still inside the array.
   */
  lemma MissVerdict(a: seq<int>, target: int, low: int, high: int)
    requires 0 <= low <= high < |a|
    requires a[(low + high) / 2] != target
    ensures var mid := (low + high) / 2;
      var verdict := Successor(a, target, Step(low, high, Some(mid), None, None));
      low <= mid <= high &&
      verdict == (if a[mid] < target then Step(mid + 1, high, Some(mid), None, Some(Left))
                  else Step(low, mid - 1, Some(mid), None, Some(Right))) &&
      0 <= verdict.low <= verdict.high + 1 <= |a|
  {
    HalvesShrink(low, high);
  }

  /** A round that misses the target appends the midpoint record and its verdict, then goes on with the narrowed window. */
  lemma MissRounds(a: seq<int>, target: int, low: int, high: int)
    requires 0 <= low <= high < |a|
    requires a[(low + high) / 2] != target
    ensures var mid := (low + high) / 2;
      var probe := Step(low, high, Some(mid), None, None);
      var verdict := Successor(a, target, probe);
      0 <= verdict.low <= verdict.high + 1 <= |a| &&
      Rounds(a, target, low, high) == [probe, verdict] + Rounds(a, target, verdict.low, verdict.high)
  {
    var mid := (low + high) / 2;
    var probe := Step(low, high, Some(mid), None, None);
    MissVerdict(a, target, low, high);
    if a[mid] < target {
      var verdict := Step(mid + 1, high, Some(mid), None, Some(Left));
      assert Rounds(a, target, low, high) == [probe, verdict] + Rounds(a, target, mid + 1, high);
    } else {
      var verdict := Step(low, mid - 1, Some(mid), None, Some(Right));
      assert Rounds(a, target, low, high) == [probe, verdict] + Rounds(a, target, low, mid - 1);
    }
  }

  /**
   * A round that misses the target is a midpoint record, its discard verdict,
   * and the rounds over the narrowed window, which start with the successor
   * of that verdict.
   */
  lemma MissUnfolds(a: seq<int>, target: int, low: int, high: int)
    requires 0 <= low <= high < |a|
    requires a[(low + high) / 2] != target
    ensures var mid := (low + high) / 2;
      var probe := Step(low, high, Some(mid), None, None);
      var verdict := Successor(a, target, probe);
      low <= mid <= high &&
      verdict == (if a[mid] < target then Step(mid + 1, high, Some(mid), None, Some(Left))
                  else Step(low, mid - 1, Some(mid), None, Some(Right))) &&
      0 <= verdict.low <= verdict.high + 1 <= |a| &&
      Rounds(a, target, low, high) == [probe, verdict] + Rounds(a, target, verdict.low, verdict.high) &&
      Rounds(a, target, verdict.low, verdict.high)[0] == Successor(a, target, verdict)
  {
    MissVerdict(a, target, low, high);
    MissRounds(a, target, low, high);
    var verdict := Successor(a, target, Step(low, high, Some((low + high) / 2), None, None));
    RoundsHead(a, target, verdict.low, verdict.high);
  }

  /** The midpoint record of a round and its discard verdict are in bounds. */
  lemma MissInBounds(a: seq<int>, target: int, low: int, high: int)
    requires 0 <= low <= high < |a|
    requires a[(low + high) / 2] != target
    ensures var mid := (low + high) / 2;
      var probe := Step(low, high, Some(mid), None, None);
      InBounds(|a|, probe) && InBounds(|a|, Successor(a, target, probe))
  {
    MissVerdict(a, target, low, high);
  }

  /**
   * The rounds over the window [low, high] follow the successor relation.
   * (That they end on a terminal record is `RoundsEnd`.)
   */
  lemma {:induction false} RoundsChained(a: seq<int>, target: int, low: int, high: int)
    requires 0 <= low <= high + 1 <= |a|
    ensures Chained(a, target, Rounds(a, target, low, high))
    decreases high - low
  {
    if low <= high {
      var mid := (low + high) / 2;
      var probe := Step(low, high, Some(mid), None, None);
      if a[mid] == target {
        FoundPairChained(a, target, probe);
        assert Rounds(a, target, low, high) == [probe, Successor(a, target, probe)];
      } else {
        MissUnfolds(a, target, low, high);
        var verdict := Successor(a, target, probe);
        RoundsChained(a, target, verdict.low, verdict.high);
        ChainedCons(a, target, probe, verdict, Rounds(a, target, verdict.low, verdict.high));
      }
    }
  }

  lemma {:induction false} RoundsInBounds(a: seq<int>, target: int, low: int, high: int)
    requires 0 <= low <= high + 1 <= |a|
    ensures AllInBounds(|a|, Rounds(a, target, low, high))
    decreases high - low
  {
    if low <= high {
      var mid := (low + high) / 2;
      var probe := Step(low, high, Some(mid), None, None);
      if a[mid] == target {
        HalvesShrink(low, high);
      } else {
        MissUnfolds(a, target, low, high);
        MissInBounds(a, target, low, high);
        var verdict := Successor(a, target, probe);
        RoundsInBounds(a, target, verdict.low, verdict.high);
        InBoundsCons(|a|, probe, verdict, Rounds(a, target, verdict.low, verdict.high));
      }
    }
  }

  /** A "found" record at the end of the rounds has a midpoint that holds the target. */
  lemma {:induction false} RoundsEnd(a: seq<int>, target: int, low: int, high: int)
    requires 0 <= low <= high + 1 <= |a|
    ensures IsTerminal(Last(Rounds(a, target, low, high)))
    ensures Last(Rounds(a, target, low, high)).found == Some(true) ==>
      var m := Last(Rounds(a, target, low, high)).mid;
      m.Some? && 0 <= m.value < |a| && a[m.value] == target
    decreases high - low
  {
    if low <= high {
      var mid := (low + high) / 2;
      if a[mid] != target {
        MissUnfolds(a, target, low, high);
        var verdict := Successor(a, target, Step(low, high, Some(mid), None, None));
        var rest := Rounds(a, target, verdict.low, verdict.high);
        RoundsEnd(a, target, verdict.low, verdict.high);
        assert Last(Rounds(a, target, low, high)) == Last(rest);
      }
    }
  }

  /**
   * The loop invariant of binary search on an ascending array: if every
   * occurrence of the target is in the window when the rounds start, it is in
   * the window of every record they append.
   */
  lemma {:induction false} RoundsKeepTarget(a: seq<int>, target: int, low: int, high: int)
    requires Sorted(a)
    requires 0 <= low <= high + 1 <= |a|
    requires WindowHolds(a, target, Step(low, high, None, None, None))
    ensures AllWindowsHold(a, target, Rounds(a, target, low, high))
    decreases high - low
  {
    if low <= high {
      var mid := (low + high) / 2;
      var probe := Step(low, high, Some(mid), None, None);
      if a[mid] != target {
        MissUnfolds(a, target, low, high);
        var verdict := Successor(a, target, probe);
        assert WindowHolds(a, target, verdict) by {
          forall i | 0 <= i < |a| && a[i] == target
            ensures verdict.low <= i <= verdict.high
          {
            if i <= mid { assert a[i] <= a[mid]; }
            if i >= mid { assert a[mid] <= a[i]; }
          }
        }
        assert WindowHolds(a, target, Step(verdict.low, verdict.high, None, None, None));
        RoundsKeepTarget(a, target, verdict.low, verdict.high);
        WindowsCons(a, target, probe, verdict, Rounds(a, target, verdict.low, verdict.high));
      }
    }
  }


  // ---------------------------------------------------------------------
  // The whole trace

  /**
   * The trace starts with the whole array as the window and no midpoint, has
   * at least two records, and for an empty array is the initial record
   * (0, -1) followed directly by "not found".
   */
  lemma TraceStart(a: seq<int>, target: int)
    ensures |SearchTrace(a, target)| >= 2
    ensures SearchTrace(a, target)[0] == Step(0, |a| - 1, None, None, None)
    ensures a == [] ==>
      SearchTrace(a, target) == [Step(0, -1, None, None, None), Step(0, -1, None, Some(false), None)]
  {
  }

  /** Putting a non-terminal record in front of a chain that starts with its successor gives a chain. */
  lemma ChainedAfter(a: seq<int>, target: int, s: Step, r: seq<Step>)
    requires !IsTerminal(s) && !IsProbe(s)
    requires r != [] && r[0] == Successor(a, target, s) && Chained(a, target, r)
    ensures Chained(a, target, [s] + r) && Last([s] + r) == Last(r)
  {
    var tr := [s] + r;
    forall k | 0 <= k < |tr| - 1
      ensures Linked(a, target, tr, k)
    {
      if k >= 1 {
        assert Linked(a, target, r, k - 1);
        assert tr[k] == r[k - 1] && tr[k + 1] == r[k];
      }
    }
  }

  /**
   * Each record determines the next: every record but the last is
   * non-terminal and is followed by exactly its successor, and the last
   * record is terminal. In particular every midpoint record is followed by
   * exactly one verdict record.
   */
  lemma TraceChained(a: seq<int>, target: int)
    ensures Chained(a, target, SearchTrace(a, target))
    ensures IsTerminal(Last(SearchTrace(a, target)))
  {
    var r := Rounds(a, target, 0, |a| - 1);
    RoundsHead(a, target, 0, |a| - 1);
    RoundsChained(a, target, 0, |a| - 1);
    RoundsEnd(a, target, 0, |a| - 1);
    ChainedAfter(a, target, Initial(a), r);
  }

  /**
   * Every record is in bounds: every midpoint lies in its window, is the
   * floor of (low + high) / 2 and indexes the array, so reading it is safe.
   */
  lemma TraceInBounds(a: seq<int>, target: int)
    ensures AllInBounds(|a|, SearchTrace(a, target))
  {
    var tr := SearchTrace(a, target);
    var r := Rounds(a, target, 0, |a| - 1);
    RoundsInBounds(a, target, 0, |a| - 1);
    forall k | 1 <= k < |tr|
      ensures InBounds(|a|, tr[k])
    {
      assert tr[k] == r[k - 1];
    }
  }

  /**
   * The trace ends in exactly one terminal record: "found" with a midpoint
   * that holds the target, or "not found" with no midpoint and an empty window.
   */
  lemma TraceEnd(a: seq<int>, target: int)
    ensures IsTerminal(Last(SearchTrace(a, target)))
    ensures forall k :: 0 <= k < |SearchTrace(a, target)| - 1 ==> !IsTerminal(SearchTrace(a, target)[k])
    ensures Last(SearchTrace(a, target)).found == Some(true) ==>
      var m := Last(SearchTrace(a, target)).mid;
      m.Some? && 0 <= m.value < |a| && a[m.value] == target
    ensures Last(SearchTrace(a, target)).found == Some(false) ==>
      Last(SearchTrace(a, target)).mid.None? &&
      Last(SearchTrace(a, target)).low > Last(SearchTrace(a, target)).high
  {
    var tr := SearchTrace(a, target);
    TraceChained(a, target);
    forall k | 0 <= k < |tr| - 1
      ensures !IsTerminal(tr[k])
    {
      assert Linked(a, target, tr, k);
    }
    TraceInBounds(a, target);
    RoundsEnd(a, target, 0, |a| - 1);
    assert Last(tr) == Last(Rounds(a, target, 0, |a| - 1));
    assert InBounds(|a|, tr[|tr| - 1]);
  }

  /** On an ascending array, every occurrence of the target stays inside every window of the trace. */
  lemma TraceKeepsTarget(a: seq<int>, target: int)
    requires Sorted(a)
    ensures AllWindowsHold(a, target, SearchTrace(a, target))
  {
    var tr := SearchTrace(a, target);
    var r := Rounds(a, target, 0, |a| - 1);
    RoundsKeepTarget(a, target, 0, |a| - 1);
    forall k | 1 <= k < |tr|
      ensures WindowHolds(a, target, tr[k])
    {
      assert tr[k] == r[k - 1];
    }
  }

  /** On an ascending array the trace ends "found" exactly when the target occurs in the array. */
  lemma FoundIffPresent(a: seq<int>, target: int)
    requires Sorted(a)
    ensures Last(SearchTrace(a, target)).found == Some(true) <==> target in a
  {
    var tr := SearchTrace(a, target);
    var last := Last(tr);
    TraceEnd(a, target);
    if last.found == Some(true) {
      assert a[last.mid.value] in a;
    }
    if target in a {
      var i :| 0 <= i < |a| && a[i] == target;
      TraceKeepsTarget(a, target);
      assert WindowHolds(a, target, tr[|tr| - 1]);
      assert last.low <= i <= last.high;
      assert last.found == Some(last.found.value) && last.found.value;
    }
  }

  /**
   * Two chains that start from the same record and each end at their first
   * terminal record are the same sequence.
   */
  lemma {:induction false} ChainsAgree(a: seq<int>, target: int, x: seq<Step>, y: seq<Step>)
    requires x != [] && y != [] && x[0] == y[0]
    requires Chained(a, target, x) && IsTerminal(Last(x))
    requires Chained(a, target, y) && IsTerminal(Last(y))
    ensures x == y
    decreases |x|
  {
    if |x| > 1 {
      assert Linked(a, target, x, 0);
    }
    if |y| > 1 {
      assert Linked(a, target, y, 0);
    }
    if |x| > 1 {
      assert x[1] == y[1];
      var x', y' := x[1..], y[1..];
      assert Last(x') == Last(x) && Last(y') == Last(y);
      forall k | 0 <= k < |x'| - 1
        ensures Linked(a, target, x', k)
      {
        assert Linked(a, target, x, k + 1);
        assert x'[k] == x[k + 1] && x'[k + 1] == x[k + 2];
      }
      forall k | 0 <= k < |y'| - 1
        ensures Linked(a, target, y', k)
      {
        assert Linked(a, target, y, k + 1);
        assert y'[k] == y[k + 1] && y'[k + 1] == y[k + 2];
      }
      ChainsAgree(a, target, x', y');
      assert x == [x[0]] + x' && y == [y[0]] + y';
    }
  }

  /**
   * The successor relation characterises the trace: the only sequence that
   * starts with the initial record, follows the successor relation and stops
   * at its first terminal record is the trace of the search.
   */
  lemma TraceIsUniqueChain(a: seq<int>, target: int, tr: seq<Step>)
    requires tr != [] && tr[0] == Initial(a)
    requires Chained(a, target, tr) && IsTerminal(Last(tr))
    ensures tr == SearchTrace(a, target)
  {
    TraceChained(a, target);
    ChainsAgree(a, target, tr, SearchTrace(a, target));
  }

  /** Four example searches, worked through record by record. */
  lemma ExampleSearches()
    ensures SearchTrace([1, 3, 5, 7, 9, 11, 13], 7) ==
      [Step(0, 6, None, None, None),
       Step(0, 6, Some(3), None, None),
       Step(0, 6, Some(3), Some(true), None)]
    ensures SearchTrace([1, 3, 5, 7, 9, 11, 13], 2) ==
      [Step(0, 6, None, None, None),
       Step(0, 6, Some(3), None, None), Step(0, 2, Some(3), None, Some(Right)),
       Step(0, 2, Some(1), None, None), Step(0, 0, Some(1), None, Some(Right)),
       Step(0, 0, Some(0), None, None), Step(1, 0, Some(0), None, Some(Left)),
       Step(1, 0, None, Some(false), None)]
    ensures SearchTrace([], 5) ==
      [Step(0, -1, None, None, None), Step(0, -1, None, Some(false), None)]
    ensures SearchTrace([4], 4) ==
      [Step(0, 0, None, None, None), Step(0, 0, Some(0), None, None), Step(0, 0, Some(0), Some(true), None)]
  {
  }

  // ---------------------------------------------------------------------
  // Length of the trace

  /** The number of binary digits of `n`, which is the ceiling of log2(n + 1). */
  function Bits(n: nat): (b: nat) {
    if n == 0 then 0 else 1 + Bits(n / 2)
  }

  function Pow2(e: nat): (p: nat) {
    if e == 0 then 1 else 2 * Pow2(e - 1)
  }

  /** `Bits(n)` is the least `e` with n < 2^e, i.e. the ceiling of log2(n + 1). */
  lemma {:induction false} BitsIsCeilLog2(n: nat)
    ensures n < Pow2(Bits(n))
    ensures n > 0 ==> Pow2(Bits(n) - 1) <= n
  {
    if n > 0 {
      BitsIsCeilLog2(n / 2);
    }
  }

  lemma {:induction false} BitsMonotone(m: nat, n: nat)
    requires m <= n
    ensures Bits(m) <= Bits(n)
  {
    if m > 0 {
      BitsMonotone(m / 2, n / 2);
    }
  }

  /** One round costs two records and halves the window, which costs one bit. */
  lemma RoundBudget(w: nat, w': nat, len: int, len': int)
    requires w > 0 && w' <= w / 2
    requires len == 2 + len' && len' <= 2 * Bits(w') + 1
    ensures len <= 2 * Bits(w) + 1
  {
    BitsMonotone(w', w / 2);
  }

  /** Rounds that end at once, on an empty window or a first-probe hit, fit the bound. */
  lemma ShortRounds(a: seq<int>, target: int, low: int, high: int)
    requires 0 <= low <= high + 1 <= |a|
    requires low > high || a[(low + high) / 2] == target
    ensures |Rounds(a, target, low, high)| <= 2 * Bits(high - low + 1) + 1
  {
    if low <= high {
      assert |Rounds(a, target, low, high)| == 2;
      assert Bits(high - low + 1) >= 1;
    }
  }

  /** A round that misses costs two records and continues on a window at most half as wide. */
  lemma MissLength(a: seq<int>, target: int, low: int, high: int) returns (low': int, high': int)
    requires 0 <= low <= high < |a|
    requires a[(low + high) / 2] != target
    ensures 0 <= low' <= high' + 1 <= |a| && high' - low' < high - low
    ensures high' - low' + 1 <= (high - low + 1) / 2
    ensures |Rounds(a, target, low, high)| == 2 + |Rounds(a, target, low', high')|
  {
    var mid := (low + high) / 2;
    HalvesShrink(low, high);
    if a[mid] < target {
      low', high' := mid + 1, high;
    } else {
      low', high' := low, mid - 1;
    }
  }

  lemma {:induction false} RoundsLength(a: seq<int>, target: int, low: int, high: int)
    requires 0 <= low <= high + 1 <= |a|
    ensures |Rounds(a, target, low, high)| <= 2 * Bits(high - low + 1) + 1
    decreases high - low, 1
  {
    if low > high || a[(low + high) / 2] == target {
      ShortRounds(a, target, low, high);
    } else {
      MissRoundsLength(a, target, low, high);
    }
  }

  /** The bound for rounds whose first probe misses, from the bound for the narrowed window. */
  lemma {:induction false} MissRoundsLength(a: seq<int>, target: int, low: int, high: int)
    requires 0 <= low <= high < |a|
    requires a[(low + high) / 2] != target
    ensures |Rounds(a, target, low, high)| <= 2 * Bits(high - low + 1) + 1
    decreases high - low, 0
  {
    var low', high' := MissLength(a, target, low, high);
    RoundsLength(a, target, low', high');
    RoundBudget(high - low + 1, high' - low' + 1, |Rounds(a, target, low, high)|, |Rounds(a, target, low', high')|);
  }

  /**
   * The trace has between 2 and 2 * ceil(log2(n + 1)) + 2 records for an
   * array of length n.
   */
  lemma TraceLength(a: seq<int>, target: int)
    ensures 2 <= |SearchTrace(a, target)| <= 2 * Bits(|a|) + 2
  {
    TraceStart(a, target);
    RoundsLength(a, target, 0, |a| - 1);
  }
}
