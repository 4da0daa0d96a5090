/**
 * Value-level specification of the Zone queries and of the guard/zone
 * translation: functions over the flat matrix `d` of a zone of dimension `size`.
 * Entry `d[i]` (row 0) is clock i's lower-bound raw, entry `d[size * i]`
 * (column 0) its upper-bound raw.
 */
module ZoneSpec {
  import opened Wrappers
  import opened RawBound
  import opened NativeDbm
  import opened Models

  /** A flat `size` by `size` matrix. */
  ghost predicate Square(d: seq<int>, size: int) {
    0 <= size && |d| == size * size
  }

  lemma MulMono(a: int, x: int, y: int)
    requires 0 <= a && x <= y
    ensures a * x <= a * y
  {
    assert a * y - a * x == a * (y - x);
  }

  /** Row i and column 0 of row i lie inside the matrix. */
  lemma CellInRange(size: int, i: int)
    requires 0 <= i < size
    ensures 0 <= size * i && size * i + size <= size * size
    ensures i < size * size
  {
    MulMono(size, i, size - 1);
    MulMono(size, 0, i);
  }

  /** Lower-bound raw of clock i (row 0). */
  function Lower(d: seq<int>, size: int, i: int): int
    requires Square(d, size) && 0 <= i < size
  {
    CellInRange(size, i);
    d[i]
  }

  /** Upper-bound raw of clock i (column 0). */
  function Upper(d: seq<int>, size: int, i: int): int
    requires Square(d, size) && 0 <= i < size
  {
    CellInRange(size, i);
    d[size * i]
  }

  /** Number of real clocks, i.e. of indices 1..size-1. */
  function ClockCount(size: int): nat {
    if size <= 1 then 0 else size - 1
  }

  /** The running minimum the scan loops keep after n elements: `init`, lowered by each in turn. */
  function MinOfFirst(init: int, s: seq<int>, n: nat): int
    requires n <= |s|
  {
    if n == 0 then init
    else
      var m := MinOfFirst(init, s, n - 1);
      if s[n - 1] < m then s[n - 1] else m
  }

  /** The minimum of `init` and all the elements of `s`. */
  function MinWith(init: int, s: seq<int>): int {
    MinOfFirst(init, s, |s|)
  }

  /** The running minimum is the least of `init` and the first n elements, and is one of them. */
  lemma {:induction false} MinOfFirstIsLeast(init: int, s: seq<int>, n: nat)
    requires n <= |s|
    ensures MinOfFirst(init, s, n) <= init
    ensures forall k :: 0 <= k < n ==> MinOfFirst(init, s, n) <= s[k]
    ensures MinOfFirst(init, s, n) == init || exists k :: 0 <= k < n && MinOfFirst(init, s, n) == s[k]
  {
    if n > 0 {
      MinOfFirstIsLeast(init, s, n - 1);
    }
  }

  /** MinWith is the least of `init` and the elements, and is one of them. */
  lemma MinWithIsLeast(init: int, s: seq<int>)
    ensures MinWith(init, s) <= init
    ensures forall k :: 0 <= k < |s| ==> MinWith(init, s) <= s[k]
    ensures MinWith(init, s) == init || exists k :: 0 <= k < |s| && MinWith(init, s) == s[k]
  {
    MinOfFirstIsLeast(init, s, |s|);
  }

  /** Lower-bound raws of clocks 1..size-1. */
  function LowerRow(d: seq<int>, size: int): seq<int>
    requires Square(d, size)
  {
    seq(ClockCount(size), k requires 0 <= k < ClockCount(size) => Lower(d, size, k + 1))
  }

  /** Upper-bound raws of clocks 1..size-1. */
  function UpperColumn(d: seq<int>, size: int): seq<int>
    requires Square(d, size)
  {
    seq(ClockCount(size), k requires 0 <= k < ClockCount(size) => Upper(d, size, k + 1))
  }

  /** Per clock, the raw sum of its upper and lower bound: the width of its interval. */
  function RawDelays(d: seq<int>, size: int): seq<int>
    requires Square(d, size)
  {
    seq(ClockCount(size), k requires 0 <= k < ClockCount(size) =>
      AddRawRaw(Upper(d, size, k + 1), Lower(d, size, k + 1)))
  }

  /** getRawRowMaxColumnMin's first component: min(<= 0, lower raws). */
  function RowMax(d: seq<int>, size: int): int
    requires Square(d, size)
  {
    MinWith(LE_ZERO, LowerRow(d, size))
  }

  /** getRawRowMaxColumnMin's second component: min(DBM_INF, upper raws). */
  function ColumnMin(d: seq<int>, size: int): int
    requires Square(d, size)
  {
    MinWith(DBM_INF, UpperColumn(d, size))
  }

  /** absoluteZonesIntersect on the matrices of two zones. */
  function AbsoluteIntersect(d1: seq<int>, size1: int, d2: seq<int>, size2: int): bool
    requires Square(d1, size1) && Square(d2, size2)
  {
    AddRawRaw(RowMax(d1, size1), ColumnMin(d2, size2)) > 0 &&
    AddRawRaw(RowMax(d2, size2), ColumnMin(d1, size1)) > 0
  }

  lemma AbsoluteIntersectSymmetric(d1: seq<int>, size1: int, d2: seq<int>, size2: int)
    requires Square(d1, size1) && Square(d2, size2)
    ensures AbsoluteIntersect(d1, size1, d2, size2) == AbsoluteIntersect(d2, size2, d1, size1)
  {
  }

  /** The row maximum never exceeds "<= 0" and lies below every lower-bound raw. */
  lemma RowMaxBounds(d: seq<int>, size: int)
    requires Square(d, size)
    ensures RowMax(d, size) <= LE_ZERO
    ensures forall i :: 1 <= i < size ==> RowMax(d, size) <= Lower(d, size, i)
  {
    var row := LowerRow(d, size);
    MinWithIsLeast(LE_ZERO, row);
    forall i | 1 <= i < size ensures RowMax(d, size) <= Lower(d, size, i) {
      assert row[i - 1] == Lower(d, size, i);
    }
  }

  // ---------------------------------------------------------------- timeline

  /** The guard zone is long enough for every index createTimeline reads. */
  ghost predicate CoversClocks(g: seq<int>, size: int) {
    0 <= size && (size <= 1 || size * (size - 1) < |g|)
  }

  /** Both entries createTimeline reads from the guard zone for clock i exist. */
  lemma GuardCellsInRange(g: seq<int>, size: int, i: int)
    requires CoversClocks(g, size) && 1 <= i < size
    ensures 0 <= i < |g| && 0 <= size * i < |g|
  {
    MulMono(size, i, size - 1);
    MulMono(size - 1, 1, size);
    MulMono(size, 0, i);
  }

  function GuardLower(g: seq<int>, size: int, i: int): int
    requires CoversClocks(g, size) && 1 <= i < size
  {
    MulMono(size, i, size - 1);
    MulMono(size - 1, 1, size);
    g[i]
  }

  function GuardUpper(g: seq<int>, size: int, i: int): int
    requires CoversClocks(g, size) && 1 <= i < size
  {
    MulMono(size, i, size - 1);
    g[size * i]
  }

  /** A timeline's start is never a strictly positive bound: clamp at "<= 0". */
  function ClampLower(raw: int): int {
    if raw > LE_ZERO then LE_ZERO else raw
  }

  /** Per clock: arrival upper bound plus guard lower bound, clamped. */
  function TimelineLows(d: seq<int>, g: seq<int>, size: int): seq<int>
    requires Square(d, size) && CoversClocks(g, size)
  {
    seq(ClockCount(size), k requires 0 <= k < ClockCount(size) =>
      ClampLower(AddRawRaw(Upper(d, size, k + 1), GuardLower(g, size, k + 1))))
  }

  /** Per clock: arrival lower bound plus guard upper bound. */
  function TimelineUps(d: seq<int>, g: seq<int>, size: int): seq<int>
    requires Square(d, size) && CoversClocks(g, size)
  {
    seq(ClockCount(size), k requires 0 <= k < ClockCount(size) =>
      AddRawRaw(Lower(d, size, k + 1), GuardUpper(g, size, k + 1)))
  }

  /** The entries of clock i in both timeline sequences, read straight off the two matrices. */
  lemma TimelineEntry(d: seq<int>, g: seq<int>, size: int, i: int)
    requires Square(d, size) && CoversClocks(g, size) && 1 <= i < size
    ensures 0 <= size * i < |d| && i < |d| && 0 <= size * i < |g| && i < |g|
    ensures |TimelineLows(d, g, size)| == |TimelineUps(d, g, size)| == size - 1
    ensures TimelineLows(d, g, size)[i - 1] == ClampLower(AddRawRaw(d[size * i], g[i]))
    ensures TimelineUps(d, g, size)[i - 1] == AddRawRaw(d[i], g[size * i])
  {
    CellInRange(size, i);
    GuardCellsInRange(g, size, i);
  }

  /**
   * The timeline of arrival zone `d` against guard zone `g`: absent when some
   * clock's combined upper bound is below "<= 0", otherwise the 2x2 matrix
   * [<= 0, FLB, FUB, <= 0] of the tightest combined bounds.
   */
  function Timeline(d: seq<int>, g: seq<int>, size: int): Option<seq<int>>
    requires Square(d, size) && CoversClocks(g, size)
  {
    var ups := TimelineUps(d, g, size);
    if exists k :: 0 <= k < |ups| && ups[k] < LE_ZERO then None
    else Some([LE_ZERO, MinWith(LE_ZERO, TimelineLows(d, g, size)), MinWith(DBM_INF, ups), LE_ZERO])
  }

  /** There is no timeline exactly when some clock's arrival lower raw plus guard upper raw is below "<= 0". */
  lemma TimelineAbsentIff(d: seq<int>, g: seq<int>, size: int)
    requires Square(d, size) && CoversClocks(g, size)
    ensures Timeline(d, g, size) == None <==>
              exists i :: 1 <= i < size && AddRawRaw(Lower(d, size, i), GuardUpper(g, size, i)) < LE_ZERO
  {
    var ups := TimelineUps(d, g, size);
    if exists k :: 0 <= k < |ups| && ups[k] < LE_ZERO {
      var k :| 0 <= k < |ups| && ups[k] < LE_ZERO;
      assert AddRawRaw(Lower(d, size, k + 1), GuardUpper(g, size, k + 1)) < LE_ZERO;
    }
    if exists i :: 1 <= i < size && AddRawRaw(Lower(d, size, i), GuardUpper(g, size, i)) < LE_ZERO {
      var i :| 1 <= i < size && AddRawRaw(Lower(d, size, i), GuardUpper(g, size, i)) < LE_ZERO;
      assert ups[i - 1] < LE_ZERO;
    }
  }

  /** A timeline is a 2x2 matrix whose lower bound is at most, and upper bound at least, "<= 0". */
  lemma TimelineShape(d: seq<int>, g: seq<int>, size: int)
    requires Square(d, size) && CoversClocks(g, size)
    ensures Timeline(d, g, size).Some? ==>
              var t := Timeline(d, g, size).value;
              Square(t, 2) && t[0] == LE_ZERO && t[3] == LE_ZERO && t[1] <= LE_ZERO <= t[2]
  {
    var ups := TimelineUps(d, g, size);
    MinWithIsLeast(LE_ZERO, TimelineLows(d, g, size));
    MinWithIsLeast(DBM_INF, ups);
  }

  /** An arrival zone with y == 5 and a guard zone with y <= 3 have no timeline. */
  lemma TimelineDisjointExample()
    ensures Timeline([LE_ZERO, BoundBool2Raw(-5, false), BoundBool2Raw(5, false), LE_ZERO],
                     [LE_ZERO, LE_ZERO, BoundBool2Raw(3, false), LE_ZERO], 2) == None
  {
    var ups := TimelineUps([LE_ZERO, -9, 11, LE_ZERO], [LE_ZERO, LE_ZERO, 7, LE_ZERO], 2);
    assert ups[0] < LE_ZERO;
  }

  // ------------------------------------------------- guards to constraints

  /** The constrain1 calls buildConstraintsForGuard issues for guard `g` on clock `index`. */
  function GuardConstraints(g: Guard, index: int): seq<Op> {
    var lo := g.LowerBound();
    var up := g.UpperBound();
    var strict := g.IsStrict();
    (if lo == up then [ConstrainBound(0, index, -lo, strict), ConstrainBound(index, 0, up, strict)] else [])
    + (if up == INT_MAX then [ConstrainBound(0, index, -lo, strict)] else [])
    + (if lo == 0 then [ConstrainBound(index, 0, up, strict)] else [])
  }

  /** The guards buildGuardsFromZone emits for one clock with lower raw `lb` and upper raw `ub`. */
  function ClockGuards(c: Clock, lb: int, ub: int): seq<Guard> {
    (if lb != LE_ZERO then [Guard(Some(c), -Raw2Bound(lb), true, RawIsStrict(lb))] else [])
    + (if ub != DBM_INF then [Guard(Some(c), Raw2Bound(ub), false, RawIsStrict(ub))] else [])
  }

  /** At most two guards per clock: a lower one iff lb != "<= 0", then an upper one iff ub is finite. */
  lemma ClockGuardsShape(c: Clock, lb: int, ub: int)
    ensures var gs := ClockGuards(c, lb, ub);
      |gs| == (if lb != LE_ZERO then 1 else 0) + (if ub != DBM_INF then 1 else 0) &&
      (lb != LE_ZERO ==> gs[0] == Guard(Some(c), -Raw2Bound(lb), true, RawIsStrict(lb))) &&
      (ub != DBM_INF ==> gs[|gs| - 1] == Guard(Some(c), Raw2Bound(ub), false, RawIsStrict(ub)))
  {
  }

  /** The guards buildGuardsFromZone emits for clocks 1..n-1, the guards of clock i named clocks[i-1]. */
  function GuardsFromZone(d: seq<int>, size: int, clocks: seq<Clock>, n: int): seq<Guard>
    requires Square(d, size) && n <= size && n - 1 <= |clocks|
    decreases n
  {
    if n <= 1 then []
    else GuardsFromZone(d, size, clocks, n - 1) + ClockGuards(clocks[n - 2], Lower(d, size, n - 1), Upper(d, size, n - 1))
  }

  /** Guards come clock by clock: those of clocks below n form a prefix, at most two per clock. */
  lemma {:induction false} GuardsFromZoneGrows(d: seq<int>, size: int, clocks: seq<Clock>, n: int, m: int)
    requires Square(d, size) && n <= m <= size && m - 1 <= |clocks|
    ensures var small := GuardsFromZone(d, size, clocks, n);
            var big := GuardsFromZone(d, size, clocks, m);
            |small| <= |big| && big[..|small|] == small
    ensures |GuardsFromZone(d, size, clocks, m)| <= 2 * ClockCount(m)
    decreases m
  {
    if m > 1 {
      var prev := GuardsFromZone(d, size, clocks, m - 1);
      ClockGuardsShape(clocks[m - 2], Lower(d, size, m - 1), Upper(d, size, m - 1));
      if n < m {
        GuardsFromZoneGrows(d, size, clocks, n, m - 1);
        var small := GuardsFromZone(d, size, clocks, n);
        assert GuardsFromZone(d, size, clocks, m)[..|small|] == prev[..|small|];
      } else {
        GuardsFromZoneGrows(d, size, clocks, m - 1, m - 1);
      }
    }
  }

  /**
   * Guard round trip: the single constraint a strict-or-not bound guard issues
   * writes a raw from which buildGuardsFromZone reads back the same guard; an
   * equality guard issues both directions and reads back as a lower and an
   * upper guard.
   */
  lemma GuardRoundTrip(g: Guard, c: Clock, index: int)
    requires g.clock == Some(c) && g.value != 0 && g.value != INT_MAX
    ensures match g
      case Guard(_, v, greater, s) =>
        if greater then
          GuardConstraints(g, index) == [ConstrainBound(0, index, -v, s)] &&
          ClockGuards(c, BoundBool2Raw(-v, s), DBM_INF) == [g]
        else
          GuardConstraints(g, index) == [ConstrainBound(index, 0, v, s)] &&
          (BoundBool2Raw(v, s) != DBM_INF ==> ClockGuards(c, LE_ZERO, BoundBool2Raw(v, s)) == [g])
      case EqGuard(_, v) =>
        GuardConstraints(g, index) == [ConstrainBound(0, index, -v, false), ConstrainBound(index, 0, v, false)] &&
        ClockGuards(c, BoundBool2Raw(-v, false), BoundBool2Raw(v, false)) ==
          [Guard(Some(c), v, true, false), Guard(Some(c), v, false, false)]
  {
  }

  /**
   * At value 0 the three independent tests of buildConstraintsForGuard overlap:
   * `x >= v` with v = 0 also bounds x from above by Integer.MAX_VALUE, and
   * `x <= 0` issues its upper constraint twice after the lower one.
   */
  lemma GuardConstraintsAtZero(c: Option<Clock>, s: bool, index: int)
    ensures GuardConstraints(Guard(c, 0, true, s), index) ==
              [ConstrainBound(0, index, 0, s), ConstrainBound(index, 0, INT_MAX, s)]
    ensures GuardConstraints(Guard(c, 0, false, s), index) ==
              [ConstrainBound(0, index, 0, s), ConstrainBound(index, 0, 0, s), ConstrainBound(index, 0, 0, s)]
  {
  }
}
