/**
 * The class Zone: a zone of `size - 1` clocks kept as a flat `size` by `size`
 * matrix of raw bounds. Every mutating operation replaces the `dbm` field by
 * the matrix a native primitive returns; the queries scan row 0 (lower bounds)
 * and column 0 (upper bounds).
 */
module Zones {
  import opened Wrappers
  import opened RawBound
  import opened NativeDbm
  import opened Models
  import opened ZoneSpec
  import opened AbsoluteZone
  import opened SyncSpec

  /** (int) Math.sqrt(n): the integer square root, rounded down. */
  function ISqrt(n: nat): (r: nat)
    ensures r * r <= n < (r + 1) * (r + 1)
  {
    ISqrtFrom(n, 0)
  }

  function ISqrtFrom(n: nat, r: nat): (s: nat)
    requires r * r <= n
    ensures s * s <= n < (s + 1) * (s + 1)
    decreases n - r
  {
    if (r + 1) * (r + 1) > n then r
    else
      MulMono(r + 1, 1, r + 1);
      ISqrtFrom(n, r + 1)
  }

  /** The square root of a square length is exact, so `new Zone(int[])` recovers the dimension. */
  lemma ISqrtOfSquare(k: nat)
    ensures ISqrt(k * k) == k
  {
    var r := ISqrt(k * k);
    if r < k {
      MulMono(r + 1, r + 1, k);
      MulMono(k, r + 1, k);
    } else if r > k {
      MulMono(k + 1, k + 1, r);
      MulMono(r, k + 1, r);
    }
  }

  /** A call into the library: a fresh array holding the primitive's result. */
  method Primitive(lib: Natives, a: array<int>, dim: int, op: Op) returns (r: array<int>)
    ensures fresh(r) && r[..] == lib.transform(a[..], dim, op)
  {
    var s := lib.transform(a[..], dim, op);
    r := new int[|s|](k requires 0 <= k < |s| => s[k]);
  }

  /** Issue one more primitive call on a matrix that so far has received `calls`. */
  method IssueOn(lib: Natives, a: array<int>, dim: int, op: Op, ghost d: seq<int>, ghost calls: seq<Op>)
    returns (r: array<int>)
    requires LengthPreserving(lib) && a[..] == Run(lib, d, dim, calls)
    ensures fresh(r) && r[..] == Run(lib, d, dim, calls + [op])
  {
    RunSnoc(lib, d, dim, calls, op);
    r := Primitive(lib, a, dim, op);
  }

  /** dbm_extrapolateMaxBounds' argument: 0 for the reference clock, `constant` for every clock. */
  function MaxBoundsFor(size: nat, constant: int): (b: seq<int>)
    ensures |b| == size
    ensures forall k :: 0 <= k < size ==> b[k] == if k == 0 then 0 else constant
  {
    seq(size, k => if k == 0 then 0 else constant)
  }

  class Zone {
    var dbm: array<int>
    var size: int
    var actualSize: int

    /** The matrix is square: `actualSize == size * size == dbm.Length`. */
    ghost predicate Valid()
      reads this
    {
      0 <= size && actualSize == size * size && dbm.Length == actualSize
    }

    /** Zone(size, delay): dbm_zero on a fresh zeroed buffer, then dbm_up when `delay` is set. */
    constructor (lib: Natives, size: nat, delay: bool)
      requires LengthPreserving(lib)
      ensures Valid() && this.size == size && fresh(dbm)
      ensures dbm[..] == Run(lib, seq(size * size, _ => 0), size, [Zero] + if delay then [Up] else [])
    {
      this.size := size;
      this.actualSize := size * size;
      var temp := new int[size * size](_ => 0);
      assert temp[..] == seq(size * size, _ => 0);
      var d := Primitive(lib, temp, size, Zero);
      this.dbm := d;
      new;
      RunSnoc(lib, temp[..], size, [], Zero);
      if delay {
        RunSnoc(lib, temp[..], size, [Zero], Up);
        Delay(lib);
      }
    }

    /** Zone(int[]): a clone of the buffer; the dimension is the square root of its length. */
    constructor FromArray(a: array<int>)
      ensures fresh(dbm) && dbm[..] == a[..]
      ensures size == ISqrt(a.Length) && actualSize == a.Length
      ensures Valid() <==> ISqrt(a.Length) * ISqrt(a.Length) == a.Length
    {
      dbm := new int[a.Length](k requires 0 <= k < a.Length reads a => a[k]);
      size := ISqrt(a.Length);
      actualSize := a.Length;
    }

    /** The copy constructor: same dimension, a clone of the other zone's matrix. */
    constructor Copy(oldZone: Zone)
      ensures fresh(dbm) && dbm[..] == oldZone.dbm[..]
      ensures size == oldZone.size && actualSize == oldZone.actualSize
      ensures Valid() <==> oldZone.Valid()
    {
      size := oldZone.size;
      actualSize := oldZone.actualSize;
      var src := oldZone.dbm;
      dbm := new int[src.Length](k requires 0 <= k < src.Length reads src => src[k]);
    }

    function GetSize(): int
      reads this
    {
      size
    }

    function GetElementAt(i: int): int
      requires 0 <= i < dbm.Length
      reads this, dbm
    {
      dbm[i]
    }

    /** The whole matrix decoded entry by entry. */
    method GetZoneValues() returns (values: array<int>)
      requires Valid()
      ensures fresh(values) && values.Length == actualSize
      ensures forall k :: 0 <= k < actualSize ==> values[k] == Raw2Bound(dbm[k])
    {
      values := new int[actualSize];
      for i := 0 to actualSize
        invariant forall k :: 0 <= k < i ==> values[k] == Raw2Bound(dbm[k])
      {
        values[i] := Raw2Bound(dbm[i]);
      }
    }

    /** The narrowest clock interval: min(DBM_INF, upper + lower raw over every clock). */
    method GetMaxRawDelay() returns (max: int)
      requires Valid()
      ensures max == MinWith(DBM_INF, RawDelays(dbm[..], size))
      ensures max <= DBM_INF
      ensures forall i :: 1 <= i < size ==> max <= AddRawRaw(Upper(dbm[..], size, i), Lower(dbm[..], size, i))
      ensures size <= 1 ==> max == DBM_INF
    {
      ghost var delays := RawDelays(dbm[..], size);
      max := DBM_INF;
      var i := 1;
      while i < size
        invariant 1 <= i && i - 1 <= ClockCount(size)
        invariant max == MinOfFirst(DBM_INF, delays, i - 1)
      {
        CellInRange(size, i);
        var ub := dbm[size * i];
        var lb := dbm[i];
        var diff := AddRawRaw(ub, lb);
        if diff < max {
          max := diff;
        }
        i := i + 1;
      }
      assert i - 1 == |delays|;
      MinWithIsLeast(DBM_INF, delays);
      forall i | 1 <= i < size
        ensures max <= AddRawRaw(Upper(dbm[..], size, i), Lower(dbm[..], size, i))
      {
        assert delays[i - 1] == AddRawRaw(Upper(dbm[..], size, i), Lower(dbm[..], size, i));
      }
    }

    /** Both scans at once: the row maximum and the column minimum. */
    method GetRawRowMaxColumnMin() returns (rowMax: int, columnMin: int)
      requires Valid()
      ensures rowMax == RowMax(dbm[..], size) && columnMin == ColumnMin(dbm[..], size)
    {
      ghost var row := LowerRow(dbm[..], size);
      ghost var column := UpperColumn(dbm[..], size);
      rowMax := LE_ZERO;
      columnMin := DBM_INF;
      var i := 1;
      while i < size
        invariant 1 <= i && i - 1 <= ClockCount(size)
        invariant rowMax == MinOfFirst(LE_ZERO, row, i - 1)
        invariant columnMin == MinOfFirst(DBM_INF, column, i - 1)
      {
        CellInRange(size, i);
        var curr := dbm[i];
        if curr < rowMax {
          rowMax := curr;
        }
        curr := dbm[size * i];
        if curr < columnMin {
          columnMin := curr;
        }
        i := i + 1;
      }
      assert i - 1 == |row| == |column|;
    }

    /** min("<= 0", every lower-bound raw). */
    method GetRawRowMax() returns (rowMax: int)
      requires Valid()
      ensures rowMax == RowMax(dbm[..], size)
      ensures rowMax <= LE_ZERO
      ensures forall i :: 1 <= i < size ==> rowMax <= Lower(dbm[..], size, i)
    {
      ghost var row := LowerRow(dbm[..], size);
      rowMax := LE_ZERO;
      var i := 1;
      while i < size
        invariant 1 <= i && i - 1 <= ClockCount(size)
        invariant rowMax == MinOfFirst(LE_ZERO, row, i - 1)
      {
        var curr := dbm[i];
        if curr < rowMax {
          rowMax := curr;
        }
        i := i + 1;
      }
      assert i - 1 == |row|;
      RowMaxBounds(dbm[..], size);
    }

    /** min(DBM_INF, every upper-bound raw). */
    method GetRawColumnMin() returns (colMin: int)
      requires Valid()
      ensures colMin == ColumnMin(dbm[..], size)
      ensures colMin <= DBM_INF
      ensures forall i :: 1 <= i < size ==> colMin <= Upper(dbm[..], size, i)
    {
      ghost var column := UpperColumn(dbm[..], size);
      colMin := DBM_INF;
      var i := 1;
      while i < size
        invariant 1 <= i && i - 1 <= ClockCount(size)
        invariant colMin == MinOfFirst(DBM_INF, column, i - 1)
      {
        CellInRange(size, i);
        var curr := dbm[i * size];
        if curr < colMin {
          colMin := curr;
        }
        i := i + 1;
      }
      assert i - 1 == |column|;
      MinWithIsLeast(DBM_INF, column);
      forall i | 1 <= i < size ensures colMin <= Upper(dbm[..], size, i) {
        assert column[i - 1] == Upper(dbm[..], size, i);
      }
    }

    /** Some entry outside row 0 is a raw of at most "< 0", checked only for two or more clocks. */
    method ContainsNegatives() returns (r: bool)
      requires Valid()
      ensures r <==> size > 2 && exists i :: size <= i < actualSize && dbm[i] <= 0
    {
      if size > 2 {
        for i := size to actualSize
          invariant forall k :: size <= k < i ==> dbm[k] > 0
        {
          if dbm[i] <= 0 {
            return true;
          }
        }
      }
      return false;
    }

    /** The absolute (delay) projections of the two zones overlap. */
    method AbsoluteZonesIntersect(zone: Zone) returns (r: bool)
      requires Valid() && zone.Valid()
      ensures r == AbsoluteIntersect(dbm[..], size, zone.dbm[..], zone.size)
    {
      var rowMax1, columnMin1 := GetRawRowMaxColumnMin();
      var rowMax2, columnMin2 := zone.GetRawRowMaxColumnMin();
      var raw1 := AddRawRaw(rowMax1, columnMin2);
      var raw2 := AddRawRaw(rowMax2, columnMin1);
      return raw1 > 0 && raw2 > 0;
    }

    /** No clock has a finite upper bound. */
    method CanDelayIndefinitely() returns (r: bool)
      requires Valid()
      ensures r <==> forall i :: 1 <= i < size ==> Upper(dbm[..], size, i) >= DBM_INF
    {
      var i := 1;
      while i < size
        invariant 1 <= i && i - 1 <= ClockCount(size)
        invariant forall k :: 1 <= k < i ==> Upper(dbm[..], size, k) >= DBM_INF
      {
        CellInRange(size, i);
        var curr := dbm[size * i];
        if curr < DBM_INF {
          assert Upper(dbm[..], size, i) == curr;
          return false;
        }
        i := i + 1;
      }
      return true;
    }

    /** Every clock's lower and upper raw add up to "<= 0": no time can elapse. */
    method IsUrgent() returns (r: bool)
      requires Valid()
      ensures r <==> forall i :: 1 <= i < size ==> AddRawRaw(Lower(dbm[..], size, i), Upper(dbm[..], size, i)) == LE_ZERO
    {
      var i := 1;
      while i < size
        invariant 1 <= i && i - 1 <= ClockCount(size)
        invariant forall k :: 1 <= k < i ==> AddRawRaw(Lower(dbm[..], size, k), Upper(dbm[..], size, k)) == LE_ZERO
      {
        CellInRange(size, i);
        var currLower := dbm[i];
        var currUpper := dbm[size * i];
        if AddRawRaw(currLower, currUpper) != LE_ZERO {
          assert AddRawRaw(Lower(dbm[..], size, i), Upper(dbm[..], size, i)) != LE_ZERO;
          return false;
        }
        i := i + 1;
      }
      return true;
    }

    /** dbm_isSubsetEq on the two matrices; the dimensions are not compared. */
    method IsSubset(lib: Natives, zone2: Zone) returns (r: bool)
      ensures r == lib.isSubsetEq(dbm[..], zone2.dbm[..], size)
    {
      r := lib.isSubsetEq(dbm[..], zone2.dbm[..], size);
    }

    method IsValid(lib: Natives) returns (r: bool)
      ensures r == lib.isValid(dbm[..], size)
    {
      r := lib.isValid(dbm[..], size);
    }

    /** dbm_intersection, refused with IllegalArgumentException for zones of different sizes. */
    method Intersects(lib: Natives, zone: Zone) returns (r: Result<bool, string>)
      ensures r.Failure? <==> size != zone.size
      ensures r.Success? ==> r.value == lib.intersection(dbm[..], zone.dbm[..], size)
    {
      if size != zone.size {
        return Failure("Zones must be of the same size");
      }
      return Success(lib.intersection(dbm[..], zone.dbm[..], size));
    }

    /**
     * The timeline of this arrival zone against `guardZone`: none when the two
     * never meet, otherwise a fresh one-clock zone of the offsets at which they do.
     */
    method CreateTimeline(guardZone: Zone) returns (t: Zone?)
      requires Valid() && CoversClocks(guardZone.dbm[..], size)
      ensures t == null <==> exists i :: 1 <= i < size && AddRawRaw(Lower(dbm[..], size, i), GuardUpper(guardZone.dbm[..], size, i)) < LE_ZERO
      ensures t == null <==> Timeline(dbm[..], guardZone.dbm[..], size) == None
      ensures t != null ==> fresh(t) && fresh(t.dbm) && t.Valid() && t.size == 2 &&
                            t.dbm[..] == Timeline(dbm[..], guardZone.dbm[..], size).value
    {
      var absent, flb, fub := ScanTimeline(guardZone);
      TimelineAbsentIff(dbm[..], guardZone.dbm[..], size);
      if absent {
        return null;
      }
      var arr := new int[4];
      arr[0], arr[1], arr[2], arr[3] := LE_ZERO, flb, fub, LE_ZERO;
      ISqrtOfSquare(2);
      t := new Zone.FromArray(arr);
    }

    /**
     * createTimeline's loop over clocks 1..size-1: it stops at the first clock whose
     * combined upper bound is below "<= 0", and otherwise keeps the tightest bounds.
     */
    method ScanTimeline(guardZone: Zone) returns (absent: bool, flb: int, fub: int)
      requires Valid() && CoversClocks(guardZone.dbm[..], size)
      ensures absent <==> exists k :: 0 <= k < |TimelineUps(dbm[..], guardZone.dbm[..], size)| &&
                                      TimelineUps(dbm[..], guardZone.dbm[..], size)[k] < LE_ZERO
      ensures !absent ==> flb == MinWith(LE_ZERO, TimelineLows(dbm[..], guardZone.dbm[..], size)) &&
                          fub == MinWith(DBM_INF, TimelineUps(dbm[..], guardZone.dbm[..], size))
    {
      ghost var d, g := dbm[..], guardZone.dbm[..];
      ghost var lows, ups := TimelineLows(d, g, size), TimelineUps(d, g, size);
      flb, fub := LE_ZERO, DBM_INF;
      var i := 1;
      while i < size
        invariant 1 <= i && i - 1 <= ClockCount(size) == |ups| == |lows|
        invariant flb == MinOfFirst(LE_ZERO, lows, i - 1) && fub == MinOfFirst(DBM_INF, ups, i - 1)
        invariant fub >= LE_ZERO
        invariant dbm[..] == d && guardZone.dbm[..] == g
      {
        TimelineEntry(d, g, size, i);
        var lb := AddRawRaw(dbm[size * i], guardZone.dbm[i]);
        var ub := AddRawRaw(dbm[i], guardZone.dbm[size * i]);
        if lb > LE_ZERO {
          lb := LE_ZERO;
        }
        assert lb == lows[i - 1] && ub == ups[i - 1];
        if ub < LE_ZERO {
          assert 0 <= i - 1 < |ups| && ups[i - 1] < LE_ZERO;
          return true, flb, fub;
        }
        if lb < flb {
          flb := lb;
        }
        if ub < fub {
          fub := ub;
        }
        assert flb == MinOfFirst(LE_ZERO, lows, i) && fub == MinOfFirst(DBM_INF, ups, i);
        i := i + 1;
      }
      assert i - 1 == |lows| == |ups|;
      MinWithIsLeast(DBM_INF, ups);
      absent := false;
    }

    /** dbm_up: let time elapse. */
    method Delay(lib: Natives)
      requires Valid() && LengthPreserving(lib)
      modifies this
      ensures Valid() && size == old(size) && fresh(dbm)
      ensures dbm[..] == lib.transform(old(dbm[..]), size, Up)
    {
      dbm := Primitive(lib, dbm, size, Up);
    }

    /** dbm_updateValue: reset clock `index` to `value`. */
    method UpdateValue(lib: Natives, index: int, value: int)
      requires Valid() && LengthPreserving(lib)
      modifies this
      ensures Valid() && size == old(size) && fresh(dbm)
      ensures dbm[..] == lib.transform(old(dbm[..]), size, Op.UpdateValue(index, value))
    {
      dbm := Primitive(lib, dbm, size, Op.UpdateValue(index, value));
    }

    /** dbm_constrainBound(i, j, constraint, isStrict). */
    method Constrain1(lib: Natives, i: int, j: int, constraint: int, isStrict: bool)
      requires Valid() && LengthPreserving(lib)
      modifies this
      ensures Valid() && size == old(size) && fresh(dbm)
      ensures dbm[..] == lib.transform(old(dbm[..]), size, ConstrainBound(i, j, constraint, isStrict))
    {
      dbm := Primitive(lib, dbm, size, ConstrainBound(i, j, constraint, isStrict));
    }

    /** dbm_init. */
    method Init(lib: Natives)
      requires Valid() && LengthPreserving(lib)
      modifies this
      ensures Valid() && size == old(size) && fresh(dbm)
      ensures dbm[..] == lib.transform(old(dbm[..]), size, Op.Init)
    {
      dbm := Primitive(lib, dbm, size, Op.Init);
    }

    /** Issue one more primitive call on this zone's matrix, which so far has received `calls`. */
    method Issue(lib: Natives, op: Op, ghost d: seq<int>, ghost calls: seq<Op>)
      requires Valid() && LengthPreserving(lib) && dbm[..] == Run(lib, d, size, calls)
      modifies this
      ensures Valid() && size == old(size) && fresh(dbm)
      ensures dbm[..] == Run(lib, d, size, calls + [op])
    {
      RunSnoc(lib, d, size, calls, op);
      dbm := Primitive(lib, dbm, size, op);
    }

    /**
     * dbm_extrapolateMaxBounds with the same maximal constant for every clock.
     * Filling indices 1 to size of an empty array fails (fromIndex > toIndex),
     * so a zero-clock zone with a non-zero constant raises that exception and
     * keeps its matrix.
     */
    method ExtrapolateMaxBounds(lib: Natives, constant: int) returns (r: Result<(), string>)
      requires Valid() && LengthPreserving(lib)
      modifies this
      ensures Valid() && size == old(size)
      ensures r.Failure? <==> size == 0 && constant != 0
      ensures r.Failure? ==> dbm == old(dbm) && dbm[..] == old(dbm[..])
      ensures r.Success? ==> fresh(dbm) && dbm[..] == lib.transform(old(dbm[..]), size, Op.ExtrapolateMaxBounds(MaxBoundsFor(size, constant)))
    {
      var maxBounds := new int[size](_ => 0);
      if constant != 0 {
        if size < 1 {
          return Failure("IllegalArgumentException: fromIndex(1) > toIndex(0)");
        }
        for k := 1 to size
          invariant unchanged(this)
          invariant forall m :: 0 <= m < size ==> maxBounds[m] == if 1 <= m < k then constant else 0
        {
          maxBounds[k] := constant;
        }
      }
      assert maxBounds[..] == MaxBoundsFor(size, constant);
      dbm := Primitive(lib, dbm, size, Op.ExtrapolateMaxBounds(maxBounds[..]));
      return Success(());
    }

    /** The constrain1 calls that impose guard `g` on clock `index`. */
    method BuildConstraintsForGuard(lib: Natives, g: Guard, index: int)
      requires Valid() && LengthPreserving(lib)
      modifies this
      ensures Valid() && size == old(size)
      ensures dbm[..] == Run(lib, old(dbm[..]), size, GuardConstraints(g, index))
    {
      ghost var d := dbm[..];
      var isStrict := g.IsStrict();
      var lowerBoundI := g.LowerBound();
      var upperBoundI := g.UpperBound();
      ghost var toLower := ConstrainBound(0, index, -1 * lowerBoundI, isStrict);
      ghost var toUpper := ConstrainBound(index, 0, upperBoundI, isStrict);
      ghost var eqPart := if lowerBoundI == upperBoundI then [toLower, toUpper] else [];
      ghost var gePart := if upperBoundI == INT_MAX then [toLower] else [];
      ghost var lePart := if lowerBoundI == 0 then [toUpper] else [];
      assert GuardConstraints(g, index) == eqPart + gePart + lePart;
      if lowerBoundI == upperBoundI {
        Constrain1(lib, 0, index, -1 * lowerBoundI, isStrict);
        Constrain1(lib, index, 0, upperBoundI, isStrict);
        RunSnoc(lib, d, size, [], toLower);
        RunSnoc(lib, d, size, [toLower], toUpper);
      }
      assert dbm[..] == Run(lib, d, size, eqPart);
      if upperBoundI == INT_MAX {
        Constrain1(lib, 0, index, -1 * lowerBoundI, isStrict);
        RunSnoc(lib, d, size, eqPart, toLower);
      }
      assert dbm[..] == Run(lib, d, size, eqPart + gePart);
      if lowerBoundI == 0 {
        Constrain1(lib, index, 0, upperBoundI, isStrict);
        RunSnoc(lib, d, size, eqPart + gePart, toUpper);
      } else {
        assert eqPart + gePart + lePart == eqPart + gePart;
      }
      assert dbm[..] == Run(lib, d, size, eqPart + gePart + lePart);
    }

    /**
     * One guard of getAbsoluteZone on clock `index`: free its lower bound on the
     * first visit, then constrain the bound the guard names.
     */
    method AbsoluteGuardStep(lib: Natives, result: array<int>, guard: Guard, index: int, firstVisit: bool,
                             ghost d: seq<int>, ghost calls: seq<Op>) returns (next: array<int>)
      requires Valid() && LengthPreserving(lib) && d == dbm[..] && 0 <= index < size
      requires result.Length == size * size && result[..] == Run(lib, d, size, calls)
      ensures next.Length == size * size
      ensures next[..] == Run(lib, d, size, calls + GuardStep(d, size, guard, index, firstVisit))
    {
      next := result;
      CellInRange(size, index);
      var rawClockLB := dbm[index];
      ghost var free := FreeStep(d, size, index, firstVisit);
      if firstVisit && rawClockLB != LE_ZERO {
        next := IssueOn(lib, next, size, FreeDown(index), d, calls);
      } else {
        assert calls + free == calls;
      }
      next := AbsoluteBoundStep(lib, next, guard, index, firstVisit, d, calls + free);
      GuardStepSplit(d, size, guard, index, firstVisit, calls);
    }

    /**
     * The constraint a guard imposes, shifted by the clock's lower bound in this
     * zone: the new lower bound for a lower-bound guard (and, on a first visit,
     * the re-shifted finite upper bound), the new upper bound otherwise.
     */
    method AbsoluteBoundStep(lib: Natives, result: array<int>, guard: Guard, index: int, firstVisit: bool,
                             ghost d: seq<int>, ghost calls: seq<Op>) returns (next: array<int>)
      requires Valid() && LengthPreserving(lib) && d == dbm[..] && 0 <= index < size
      requires result.Length == size * size && result[..] == Run(lib, d, size, calls)
      ensures next.Length == size * size
      ensures next[..] == Run(lib, d, size, calls + BoundStep(d, size, guard, index, firstVisit))
    {
      var guardUB := guard.UpperBound();
      if guardUB == INT_MAX {
        next := AbsoluteLowerGuard(lib, result, guard, index, firstVisit, d, calls);
      } else {
        next := AbsoluteUpperGuard(lib, result, guard, index, d, calls);
      }
    }

    /** The lower-bound branch of AbsoluteBoundStep. */
    method AbsoluteLowerGuard(lib: Natives, result: array<int>, guard: Guard, index: int, firstVisit: bool,
                              ghost d: seq<int>, ghost calls: seq<Op>) returns (next: array<int>)
      requires Valid() && LengthPreserving(lib) && d == dbm[..] && 0 <= index < size
      requires result.Length == size * size && result[..] == Run(lib, d, size, calls)
      ensures next.Length == size * size
      ensures next[..] == Run(lib, d, size, calls + LowerGuardStep(d, size, guard, index, firstVisit))
    {
      var isStrict := guard.IsStrict();
      CellInRange(size, index);
      var rawClockUB := dbm[size * index];
      var rawClockLB := dbm[index];
      assert Upper(d, size, index) == rawClockUB && Lower(d, size, index) == rawClockLB;
      var constraint := guard.LowerBound();
      var rawConstraint := BoundBool2Raw(constraint, isStrict);
      var rawNewLB := if rawConstraint - rawClockLB < 0 then LE_ZERO else AddRawRaw(rawConstraint, rawClockLB);
      isStrict := RawIsStrict(rawNewLB);
      var newLB := Raw2Bound(rawNewLB);
      var toLower := ConstrainBound(0, index, -1 * newLB, isStrict);
      next := IssueOn(lib, result, size, toLower, d, calls);
      if firstVisit && rawClockUB != DBM_INF {
        var rawNewUB := AddRawRaw(rawClockUB, rawClockLB);
        isStrict := RawIsStrict(rawNewUB);
        var newUB := Raw2Bound(rawNewUB);
        var toUpper := ConstrainBound(index, 0, newUB, isStrict);
        next := IssueOn(lib, next, size, toUpper, d, calls + [toLower]);
        assert ShiftedUpper(index, rawClockUB, rawClockLB) == toUpper;
        CallsSnocSnoc(calls, toLower, toUpper);
      }
    }

    /** The upper-bound branch of AbsoluteBoundStep. */
    method AbsoluteUpperGuard(lib: Natives, result: array<int>, guard: Guard, index: int,
                              ghost d: seq<int>, ghost calls: seq<Op>)
      returns (next: array<int>)
      requires Valid() && LengthPreserving(lib) && d == dbm[..] && 0 <= index < size
      requires result.Length == size * size && result[..] == Run(lib, d, size, calls)
      ensures next.Length == size * size
      ensures next[..] == Run(lib, d, size, calls + UpperGuardStep(d, size, guard, index))
    {
      var isStrict := guard.IsStrict();
      CellInRange(size, index);
      var rawClockUB := dbm[size * index];
      var rawClockLB := dbm[index];
      var constraint := guard.UpperBound();
      var rawConstraint := BoundBool2Raw(constraint, isStrict);
      var rawNewUB := if rawConstraint > rawClockUB && rawClockUB != DBM_INF
                      then AddRawRaw(rawClockUB, rawClockLB)
                      else AddRawRaw(rawConstraint, rawClockLB);
      isStrict := RawIsStrict(rawNewUB);
      var newUB := Raw2Bound(rawNewUB);
      next := IssueOn(lib, result, size, ConstrainBound(index, 0, newUB, isStrict), d, calls);
    }

    /** A clock no guard names: free its lower bound and shift its upper bound by it. */
    method AbsoluteTrailStep(lib: Natives, result: array<int>, index: int,
                             ghost d: seq<int>, ghost calls: seq<Op>)
      returns (next: array<int>)
      requires Valid() && LengthPreserving(lib) && d == dbm[..] && 1 <= index < size
      requires result.Length == size * size && result[..] == Run(lib, d, size, calls)
      ensures next.Length == size * size
      ensures next[..] == Run(lib, d, size, calls + TrailStep(d, size, index))
    {
      next := result;
      CellInRange(size, index);
      var clockUB := dbm[size * index];
      var clockLB := dbm[index];
      if clockLB == LE_ZERO {
        assert calls + TrailStep(d, size, index) == calls;
      } else {
        next := IssueOn(lib, next, size, FreeDown(index), d, calls);
        if clockUB == DBM_INF {
          assert TrailStep(d, size, index) == [FreeDown(index)];
        } else {
          var rawNewUB := AddRawRaw(clockUB, clockLB);
          var isStrict := RawIsStrict(rawNewUB);
          var newUB := Raw2Bound(rawNewUB);
          next := IssueOn(lib, next, size, ConstrainBound(index, 0, newUB, isStrict), d, calls + [FreeDown(index)]);
          CallsSnocSnoc(calls, FreeDown(index), ConstrainBound(index, 0, newUB, isStrict));
        }
      }
    }

    /** The trailing loop of getAbsoluteZone over the clocks no guard named. */
    method AbsoluteTrail(lib: Natives, result: array<int>, clockIndices: seq<int>,
                         ghost d: seq<int>, ghost calls: seq<Op>)
      returns (next: array<int>)
      requires Valid() && LengthPreserving(lib) && d == dbm[..] && ClockIndices(clockIndices, size)
      requires result.Length == size * size && result[..] == Run(lib, d, size, calls)
      ensures next.Length == size * size
      ensures next[..] == Run(lib, d, size, calls + TrailCalls(d, size, clockIndices))
    {
      ghost var issued := calls;
      next := result;
      var m := 0;
      while m < |clockIndices|
        invariant 0 <= m <= |clockIndices|
        invariant next.Length == size * size && next[..] == Run(lib, d, size, issued)
        invariant issued == calls + TrailCalls(d, size, clockIndices[..m])
      {
        var index := clockIndices[m];
        TrailCallsSnoc(d, size, clockIndices, m, calls);
        next := AbsoluteTrailStep(lib, next, index, d, issued);
        issued := issued + TrailStep(d, size, index);
        m := m + 1;
      }
      assert clockIndices[..m] == clockIndices;
    }

    /**
     * The absolute zone for `guards`: each clock's lower bound is freed and its
     * constraints shifted by it. The receiver is left as it was; the result is a
     * fresh zone issued the calls of AbsoluteZoneCalls.
     */
    method GetAbsoluteZone(lib: Natives, guards: seq<Guard>, clocks: seq<Clock>) returns (z: Zone)
      requires Valid() && LengthPreserving(lib)
      requires IndicesInRange(clocks, guards, size)
      ensures fresh(z) && fresh(z.dbm) && z.Valid() && z.size == size
      ensures z.dbm[..] == Run(lib, dbm[..], size, AbsoluteZoneCalls(dbm[..], size, clocks, guards))
    {
      ghost var d := dbm[..];
      var result := dbm;
      ghost var calls: seq<Op> := [];
      var clockIndices := Range(1, size);
      var k := 0;
      while k < |guards|
        invariant 0 <= k <= |guards|
        invariant result.Length == size * size && result[..] == Run(lib, d, size, calls)
        invariant GuardPass(d, size, clocks, guards[..k]) == Pass(calls, clockIndices)
      {
        var guard := guards[k];
        var index := IndexOf(clocks, guard.clock) + 1;
        GuardPassSnoc(d, size, clocks, guards, k);
        var firstVisit := index in clockIndices;
        if firstVisit {
          clockIndices := RemoveValue(clockIndices, index);
        }
        result := AbsoluteGuardStep(lib, result, guard, index, firstVisit, d, calls);
        calls := calls + GuardStep(d, size, guard, index, firstVisit);
        k := k + 1;
      }
      assert guards[..k] == guards;
      result := AbsoluteTrail(lib, result, clockIndices, d, calls);
      ISqrtOfSquare(size);
      z := new Zone.FromArray(result);
    }

    /**
     * Tighten each clock's lower bound to the previous zone's lower bound
     * offset by `rawRowMax`, skipping clocks already there.
     */
    method UpdateLowerBounds(lib: Natives, prevZone: Zone, rawRowMax: int)
      requires Valid() && LengthPreserving(lib)
      requires prevZone == this || CoversLowers(prevZone.dbm[..], size)
      modifies this
      ensures Valid() && size == old(size)
      ensures dbm[..] == Run(lib, old(dbm[..]), size,
                             LowerBoundCalls(lib, old(dbm[..]), size, old(prevZone.dbm[..]), prevZone == this, rawRowMax, size))
    {
      ghost var d := dbm[..];
      ghost var prev := prevZone.dbm[..];
      ghost var aliased := prevZone == this;
      ghost var calls: seq<Op> := [];
      var i := 1;
      while i < size
        invariant 1 <= i && i - 1 <= ClockCount(size)
        invariant Valid() && size == old(size)
        invariant !aliased ==> prevZone.dbm[..] == prev
        invariant calls == LowerBoundCalls(lib, d, size, prev, aliased, rawRowMax, if i <= size then i else size)
        invariant dbm[..] == Run(lib, d, size, calls)
      {
        LowerBoundStep(lib, prevZone, rawRowMax, i, d, prev, calls);
        calls := calls + LowerBoundNext(lib, d, size, prev, aliased, rawRowMax, calls, i);
        assert calls == LowerBoundCalls(lib, d, size, prev, aliased, rawRowMax, i + 1);
        i := i + 1;
      }
    }

    /** The loop body of updateLowerBounds for clock i. */
    method LowerBoundStep(lib: Natives, prevZone: Zone, rawRowMax: int, i: int,
                          ghost d: seq<int>, ghost prev: seq<int>, ghost calls: seq<Op>)
      requires Valid() && LengthPreserving(lib) && Square(d, size) && 1 <= i < size
      requires prevZone == this || (i < prevZone.dbm.Length && prevZone.dbm[..] == prev)
      requires dbm[..] == Run(lib, d, size, calls)
      modifies this
      ensures Valid() && size == old(size)
      ensures dbm[..] == Run(lib, d, size, calls + LowerBoundNext(lib, d, size, prev, prevZone == this, rawRowMax, calls, i))
    {
      CellInRange(size, i);
      ghost var next := LowerBoundNext(lib, d, size, prev, prevZone == this, rawRowMax, calls, i);
      var prevRawValue := prevZone.GetElementAt(i);
      assert prevRawValue == if prevZone == this then dbm[..][i] else prev[i];
      var currRawValue := dbm[i];
      var targetRawValue := AddRawRaw(prevRawValue, rawRowMax);
      if currRawValue != targetRawValue {
        var isStrict := RawIsStrict(targetRawValue);
        assert next == [ConstrainBound(0, i, Raw2Bound(targetRawValue), isStrict)];
        Issue(lib, ConstrainBound(0, i, Raw2Bound(targetRawValue), isStrict), d, calls);
      } else {
        assert next == [] && calls + next == calls;
      }
    }

    /** Pin each clock, in both directions, to its lower raw plus the timeline's entry 1. */
    method UpdateArrivalZone(lib: Natives, timeline: Zone)
      requires Valid() && LengthPreserving(lib)
      requires timeline == this || 1 < timeline.dbm.Length
      modifies this
      ensures Valid() && size == old(size)
      ensures dbm[..] == Run(lib, old(dbm[..]), size,
                             ArrivalCalls(lib, old(dbm[..]), size, old(timeline.dbm[..]), timeline == this, size))
    {
      ghost var d := dbm[..];
      ghost var t := timeline.dbm[..];
      ghost var aliased := timeline == this;
      ghost var calls: seq<Op> := [];
      var i := 1;
      while i < size
        invariant 1 <= i && i - 1 <= ClockCount(size)
        invariant Valid() && size == old(size)
        invariant !aliased ==> timeline.dbm[..] == t
        invariant calls == ArrivalCalls(lib, d, size, t, aliased, if i <= size then i else size)
        invariant dbm[..] == Run(lib, d, size, calls)
      {
        ArrivalStep(lib, timeline, i, d, t, calls);
        calls := calls + ArrivalNext(lib, d, size, t, aliased, calls, i);
        assert calls == ArrivalCalls(lib, d, size, t, aliased, i + 1);
        i := i + 1;
      }
    }

    /** The loop body of updateArrivalZone for clock i. */
    method ArrivalStep(lib: Natives, timeline: Zone, i: int, ghost d: seq<int>, ghost t: seq<int>,
                       ghost calls: seq<Op>)
      requires Valid() && LengthPreserving(lib) && Square(d, size) && 1 <= i < size
      requires timeline == this || (1 < timeline.dbm.Length && timeline.dbm[..] == t)
      requires dbm[..] == Run(lib, d, size, calls)
      modifies this
      ensures Valid() && size == old(size)
      ensures dbm[..] == Run(lib, d, size, calls + ArrivalNext(lib, d, size, t, timeline == this, calls, i))
    {
      CellInRange(size, i);
      ghost var aliased := timeline == this;
      ghost var cur := dbm[..];
      var lb := dbm[i];
      var offset := timeline.GetElementAt(1);
      assert offset == if aliased then cur[1] else t[1];
      var toUpper := ConstrainRaw(i, 0, AddRawRaw(lb, offset));
      Issue(lib, toUpper, d, calls);
      ghost var mid := dbm[..];
      offset := timeline.GetElementAt(1);
      assert offset == if aliased then mid[1] else t[1];
      var toLower := ConstrainRaw(0, i, AddRawRaw(lb, offset));
      ghost var next := ArrivalNext(lib, d, size, t, aliased, calls, i);
      assert next == [toUpper, toLower];
      Issue(lib, toLower, d, calls + [toUpper]);
      CallsSnocSnoc(calls, toUpper, toLower);
    }

    /**
     * Read this zone back as guards, clock by clock: a lower guard for every
     * lower bound other than "<= 0", an upper guard for every finite upper bound.
     */
    method BuildGuardsFromZone(clocks: seq<Clock>) returns (guards: seq<Guard>)
      requires Valid() && size - 1 <= |clocks|
      ensures guards == GuardsFromZone(dbm[..], size, clocks, size)
    {
      guards := [];
      var i := 1;
      while i < size
        invariant 1 <= i && i - 1 <= ClockCount(size)
        invariant i <= size ==> guards == GuardsFromZone(dbm[..], size, clocks, i)
        invariant size < 1 ==> guards == []
      {
        var clock := clocks[i - 1];
        CellInRange(size, i);
        var lb := dbm[i];
        if lb != LE_ZERO {
          guards := guards + [Guard(Some(clock), -1 * Raw2Bound(lb), true, RawIsStrict(lb))];
        }
        var ub := dbm[size * i];
        if ub != DBM_INF {
          guards := guards + [Guard(Some(clock), Raw2Bound(ub), false, RawIsStrict(ub))];
        }
        i := i + 1;
      }
    }

    /**
     * Turn a lower-bound raw ("-b" packed in row 0) into the upper-bound raw of
     * the same bound: the sign of the bound flips, the strictness bit stays.
     * On two's-complement ints `raw & 1` is the non-negative remainder by 2.
     */
    static function LowerBoundToUpperBound(raw: int): (r: int)
      ensures Raw2Bound(r) == -Raw2Bound(raw) && RawIsStrict(r) == RawIsStrict(raw)
      ensures IsInt32(raw) && raw > INT_MIN + 1 ==> IsInt32(r)
    {
      raw * (-1) + (raw % 2) * 2
    }
  }

  /** lowerBoundToUpperBound is its own inverse, and maps the raw of "-b" to the raw of "b". */
  lemma LowerBoundToUpperBoundInvolution(raw: int, b: int, strict: bool)
    ensures Zone.LowerBoundToUpperBound(Zone.LowerBoundToUpperBound(raw)) == raw
    ensures Zone.LowerBoundToUpperBound(BoundBool2Raw(-b, strict)) == BoundBool2Raw(b, strict)
  {
  }
}
