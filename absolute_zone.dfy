/**
 * The call plan of Zone.getAbsoluteZone: which freeDown and constrainBound
 * calls it issues, in which order, for a zone matrix `d`, a guard list and the
 * automaton's clock list. The plan depends only on the input matrix, because
 * the method reads its bounds from the receiver's matrix, which the
 * (value-returning) primitives never change.
 */
module AbsoluteZone {
  import opened RawBound
  import opened NativeDbm
  import opened Models
  import opened ZoneSpec

  /** IntStream.rangeClosed(lo, hi - 1) collected into a list. */
  function Range(lo: int, hi: int): (r: seq<int>)
    ensures |r| == if lo < hi then hi - lo else 0
    ensures forall k :: 0 <= k < |r| ==> r[k] == lo + k
    decreases hi - lo
  {
    if lo >= hi then [] else [lo] + Range(lo + 1, hi)
  }

  ghost predicate Increasing(s: seq<int>) {
    forall a, b :: 0 <= a < b < |s| ==> s[a] < s[b]
  }

  /** Every element is a real clock index 1..size-1. */
  ghost predicate ClockIndices(s: seq<int>, size: int) {
    forall k :: 0 <= k < |s| ==> 1 <= s[k] < size
  }

  /** List.indexOf on the pending list: the first position holding x, or |s| when there is none. */
  function FirstIndex(s: seq<int>, x: int): (k: nat)
    ensures k <= |s|
    decreases |s|
  {
    if s == [] then 0
    else if s[0] == x then 0
    else FirstIndex(s[1..], x) + 1
  }

  /** FirstIndex finds x, and no earlier position holds it. */
  lemma {:induction false} FirstIndexIsFirst(s: seq<int>, x: int)
    ensures FirstIndex(s, x) < |s| ==> s[FirstIndex(s, x)] == x
    ensures forall j :: 0 <= j < FirstIndex(s, x) ==> s[j] != x
    decreases |s|
  {
    if s != [] && s[0] != x {
      FirstIndexIsFirst(s[1..], x);
      forall j | 0 <= j < FirstIndex(s, x) ensures s[j] != x {
        if j > 0 { assert s[j] == s[1..][j - 1]; }
      }
    }
  }

  /** List.remove(Integer): drops the first occurrence of x, if there is one. */
  function RemoveValue(s: seq<int>, x: int): seq<int> {
    var k := FirstIndex(s, x);
    if k < |s| then s[..k] + s[k + 1..] else s
  }

  /** Dropping position k from an increasing list keeps it increasing. */
  lemma CutIncreasing(s: seq<int>, k: int)
    requires Increasing(s) && 0 <= k < |s|
    ensures Increasing(s[..k] + s[k + 1..])
  {
    var r := s[..k] + s[k + 1..];
    forall a, b | 0 <= a < b < |r| ensures r[a] < r[b] {
      var a', b' := if a < k then a else a + 1, if b < k then b else b + 1;
      assert r[a] == s[a'] && r[b] == s[b'];
    }
  }

  /** Dropping position k from an increasing list removes exactly the value s[k]. */
  lemma CutMembers(s: seq<int>, k: int)
    requires Increasing(s) && 0 <= k < |s|
    ensures forall y :: y in s[..k] + s[k + 1..] <==> y in s && y != s[k]
  {
    var r := s[..k] + s[k + 1..];
    forall y ensures y in r <==> y in s && y != s[k] {
      if y in r {
        var j :| 0 <= j < |r| && r[j] == y;
        var j' := if j < k then j else j + 1;
        assert s[j'] == y && j' != k;
      }
      if y in s && y != s[k] {
        var j :| 0 <= j < |s| && s[j] == y;
        assert r[if j < k then j else j - 1] == y;
      }
    }
  }

  /** Removing a value from an increasing list keeps it increasing and removes exactly that value. */
  lemma RemoveValueIncreasing(s: seq<int>, x: int)
    requires Increasing(s)
    ensures Increasing(RemoveValue(s, x))
    ensures forall y :: y in RemoveValue(s, x) <==> y in s && y != x
  {
    var k := FirstIndex(s, x);
    FirstIndexIsFirst(s, x);
    if k < |s| {
      CutIncreasing(s, k);
      CutMembers(s, k);
    } else {
      assert forall y :: y in s ==> y != x;
    }
  }

  lemma RemoveValueInRange(s: seq<int>, x: int, size: int)
    requires ClockIndices(s, size)
    ensures ClockIndices(RemoveValue(s, x), size)
  {
    var k := FirstIndex(s, x);
    if k < |s| {
      var r := s[..k] + s[k + 1..];
      forall j | 0 <= j < |r| ensures 1 <= r[j] < size {
        assert r[j] == s[if j < k then j else j + 1];
      }
    }
  }

  /** The matrix index of a guard's clock: clocks.indexOf(clock) + 1, so 0 for an unknown clock. */
  function GuardIndex(clocks: seq<Clock>, g: Guard): int {
    IndexOf(clocks, g.clock) + 1
  }

  /** Every guard's clock index lies inside the zone, as the array reads require. */
  ghost predicate IndicesInRange(clocks: seq<Clock>, gs: seq<Guard>, size: int) {
    forall k :: 0 <= k < |gs| ==> GuardIndex(clocks, gs[k]) < size
  }

  /** Some guard's clock has matrix index i. */
  ghost predicate Visited(clocks: seq<Clock>, gs: seq<Guard>, i: int) {
    exists k :: 0 <= k < |gs| && GuardIndex(clocks, gs[k]) == i
  }

  /** Re-tighten clock `index`'s upper bound to the raw sum of its old upper and lower bound. */
  function ShiftedUpper(index: int, ub: int, lb: int): Op {
    var raw := AddRawRaw(ub, lb);
    ConstrainBound(index, 0, Raw2Bound(raw), RawIsStrict(raw))
  }

  /** The freeDown a guard triggers: only on the first visit of a clock whose lower raw is not "<= 0". */
  function FreeStep(d: seq<int>, size: int, index: int, first: bool): seq<Op>
    requires Square(d, size) && 0 <= index < size
  {
    if first && Lower(d, size, index) != LE_ZERO then [FreeDown(index)] else []
  }

  /**
   * The constraints a guard triggers: a lower-bound guard (no finite upper bound)
   * sets the lower bound, any other guard the upper bound.
   */
  function BoundStep(d: seq<int>, size: int, g: Guard, index: int, first: bool): seq<Op>
    requires Square(d, size) && 0 <= index < size
  {
    if g.UpperBound() == INT_MAX then LowerGuardStep(d, size, g, index, first)
    else UpperGuardStep(d, size, g, index)
  }

  /**
   * A lower-bound guard: the new lower bound is the guard's shifted by the
   * clock's own, never above "<= 0"; on a first visit a finite upper bound is
   * re-shifted as well.
   */
  function LowerGuardStep(d: seq<int>, size: int, g: Guard, index: int, first: bool): seq<Op>
    requires Square(d, size) && 0 <= index < size
  {
    var ub := Upper(d, size, index);
    var lb := Lower(d, size, index);
    var rawConstraint := BoundBool2Raw(g.LowerBound(), g.IsStrict());
    var rawNewLB := if rawConstraint - lb < 0 then LE_ZERO else AddRawRaw(rawConstraint, lb);
    var toLower := ConstrainBound(0, index, -Raw2Bound(rawNewLB), RawIsStrict(rawNewLB));
    if first && ub != DBM_INF then [toLower, ShiftedUpper(index, ub, lb)] else [toLower]
  }

  /** An upper-bound guard: its bound shifted by the clock's lower bound, capped by the zone's own finite one. */
  function UpperGuardStep(d: seq<int>, size: int, g: Guard, index: int): seq<Op>
    requires Square(d, size) && 0 <= index < size
  {
    var ub := Upper(d, size, index);
    var lb := Lower(d, size, index);
    var rawConstraint := BoundBool2Raw(g.UpperBound(), g.IsStrict());
    var rawNewUB := if rawConstraint > ub && ub != DBM_INF then AddRawRaw(ub, lb)
                    else AddRawRaw(rawConstraint, lb);
    [ConstrainBound(index, 0, Raw2Bound(rawNewUB), RawIsStrict(rawNewUB))]
  }

  /** The calls issued for one guard on clock `index`; `first` says whether the clock is still pending. */
  function GuardStep(d: seq<int>, size: int, g: Guard, index: int, first: bool): seq<Op>
    requires Square(d, size) && 0 <= index < size
  {
    FreeStep(d, size, index, first) + BoundStep(d, size, g, index, first)
  }

  /** Issuing a guard's calls is issuing its freeDown, then its constraints. */
  lemma GuardStepSplit(d: seq<int>, size: int, g: Guard, index: int, first: bool, calls: seq<Op>)
    requires Square(d, size) && 0 <= index < size
    ensures calls + FreeStep(d, size, index, first) + BoundStep(d, size, g, index, first) ==
            calls + GuardStep(d, size, g, index, first)
  {
  }

  /** State of the guard loop: calls issued so far and the clock indices not yet visited. */
  datatype Pass = Pass(calls: seq<Op>, pending: seq<int>)

  /** The guard loop over `gs`. */
  function GuardPass(d: seq<int>, size: int, clocks: seq<Clock>, gs: seq<Guard>): (p: Pass)
    requires Square(d, size) && IndicesInRange(clocks, gs, size)
    ensures Increasing(p.pending) && ClockIndices(p.pending, size)
    decreases |gs|
  {
    if gs == [] then Pass([], Range(1, size))
    else
      var p := GuardPass(d, size, clocks, gs[..|gs| - 1]);
      var g := gs[|gs| - 1];
      var index := GuardIndex(clocks, g);
      var first := index in p.pending;
      RemoveValueIncreasing(p.pending, index);
      RemoveValueInRange(p.pending, index, size);
      Pass(p.calls + GuardStep(d, size, g, index, first),
           if first then RemoveValue(p.pending, index) else p.pending)
  }

  /** The calls issued for a clock that no guard mentions. */
  function TrailStep(d: seq<int>, size: int, index: int): seq<Op>
    requires Square(d, size) && 1 <= index < size
  {
    var ub := Upper(d, size, index);
    var lb := Lower(d, size, index);
    if lb != LE_ZERO then
      if ub != DBM_INF then [FreeDown(index), ShiftedUpper(index, ub, lb)] else [FreeDown(index)]
    else []
  }

  /** The trailing loop over the clock indices left pending. */
  function TrailCalls(d: seq<int>, size: int, pending: seq<int>): seq<Op>
    requires Square(d, size) && ClockIndices(pending, size)
    decreases |pending|
  {
    if pending == [] then []
    else
      TrailCalls(d, size, pending[..|pending| - 1]) + TrailStep(d, size, pending[|pending| - 1])
  }

  /** One more guard: the guard loop's state after guard k, from its state before it. */
  lemma GuardPassSnoc(d: seq<int>, size: int, clocks: seq<Clock>, gs: seq<Guard>, k: int)
    requires Square(d, size) && IndicesInRange(clocks, gs, size) && 0 <= k < |gs|
    ensures IndicesInRange(clocks, gs[..k], size) && 0 <= GuardIndex(clocks, gs[k]) < size
    ensures var p := GuardPass(d, size, clocks, gs[..k]);
      var index := GuardIndex(clocks, gs[k]);
      var first := index in p.pending;
      GuardPass(d, size, clocks, gs[..k + 1]) ==
        Pass(p.calls + GuardStep(d, size, gs[k], index, first),
             if first then RemoveValue(p.pending, index) else p.pending)
  {
    assert gs[..k + 1][..k] == gs[..k];
  }

  /** One more pending clock in the trailing loop. */
  lemma TrailCallsSnoc(d: seq<int>, size: int, pending: seq<int>, m: int, calls: seq<Op>)
    requires Square(d, size) && ClockIndices(pending, size) && 0 <= m < |pending|
    ensures calls + TrailCalls(d, size, pending[..m + 1]) ==
            calls + TrailCalls(d, size, pending[..m]) + TrailStep(d, size, pending[m])
  {
    assert pending[..m + 1][..m] == pending[..m];
  }

  /** Every primitive call getAbsoluteZone issues, in order. */
  function AbsoluteZoneCalls(d: seq<int>, size: int, clocks: seq<Clock>, gs: seq<Guard>): seq<Op>
    requires Square(d, size) && IndicesInRange(clocks, gs, size)
  {
    var p := GuardPass(d, size, clocks, gs);
    p.calls + TrailCalls(d, size, p.pending)
  }

  /** One more guard visits exactly one more index. */
  lemma VisitedSnoc(clocks: seq<Clock>, gs: seq<Guard>, i: int)
    requires gs != []
    ensures Visited(clocks, gs, i) <==>
              Visited(clocks, gs[..|gs| - 1], i) || i == GuardIndex(clocks, gs[|gs| - 1])
  {
    var pre := gs[..|gs| - 1];
    if Visited(clocks, gs, i) {
      var k :| 0 <= k < |gs| && GuardIndex(clocks, gs[k]) == i;
      if k < |pre| { assert pre[k] == gs[k]; }
    }
    if Visited(clocks, pre, i) {
      var k :| 0 <= k < |pre| && GuardIndex(clocks, pre[k]) == i;
      assert pre[k] == gs[k];
    }
  }

  /** After the guard loop, exactly the clocks no guard mentions are pending. */
  lemma {:induction false} PendingIsUnvisited(d: seq<int>, size: int, clocks: seq<Clock>, gs: seq<Guard>)
    requires Square(d, size) && IndicesInRange(clocks, gs, size)
    ensures forall i :: i in GuardPass(d, size, clocks, gs).pending <==> 1 <= i < size && !Visited(clocks, gs, i)
    decreases |gs|
  {
    if gs == [] {
      var r := Range(1, size);
      forall i | 1 <= i < size ensures i in r { assert r[i - 1] == i; }
    } else {
      var pre := gs[..|gs| - 1];
      PendingIsUnvisited(d, size, clocks, pre);
      var p := GuardPass(d, size, clocks, pre);
      var index := GuardIndex(clocks, gs[|gs| - 1]);
      RemoveValueIncreasing(p.pending, index);
      forall i ensures i in GuardPass(d, size, clocks, gs).pending <==> 1 <= i < size && !Visited(clocks, gs, i) {
        VisitedSnoc(clocks, gs, i);
      }
    }
  }

  lemma GuardStepFreeDowns(d: seq<int>, size: int, g: Guard, index: int, first: bool, i: int)
    requires Square(d, size) && 0 <= index < size
    ensures multiset(GuardStep(d, size, g, index, first))[FreeDown(i)] ==
              if first && i == index && Lower(d, size, index) != LE_ZERO then 1 else 0
  {
  }

  /** During the guard loop freeDown is issued once for a visited clock whose lower raw is not "<= 0". */
  lemma {:induction false} GuardPassFreeDowns(d: seq<int>, size: int, clocks: seq<Clock>, gs: seq<Guard>, i: int)
    requires Square(d, size) && IndicesInRange(clocks, gs, size)
    ensures var p := GuardPass(d, size, clocks, gs);
      multiset(p.calls)[FreeDown(i)] ==
        if 1 <= i < size && i !in p.pending && Lower(d, size, i) != LE_ZERO then 1 else 0
    decreases |gs|
  {
    if gs == [] {
      if 1 <= i < size {
        assert Range(1, size)[i - 1] == i;
      }
    } else {
      var pre := gs[..|gs| - 1];
      GuardPassFreeDowns(d, size, clocks, pre, i);
      var p := GuardPass(d, size, clocks, pre);
      var g := gs[|gs| - 1];
      var index := GuardIndex(clocks, g);
      var first := index in p.pending;
      RemoveValueIncreasing(p.pending, index);
      GuardStepFreeDowns(d, size, g, index, first, i);
      assert GuardPass(d, size, clocks, gs).calls == p.calls + GuardStep(d, size, g, index, first);
    }
  }

  lemma TrailStepFreeDowns(d: seq<int>, size: int, index: int, i: int)
    requires Square(d, size) && 1 <= index < size
    ensures multiset(TrailStep(d, size, index))[FreeDown(i)] ==
              if i == index && Lower(d, size, index) != LE_ZERO then 1 else 0
  {
  }

  /** The last element of an increasing list is not among the ones before it. */
  lemma LastIsNew(s: seq<int>)
    requires Increasing(s) && s != []
    ensures Increasing(s[..|s| - 1]) && s[|s| - 1] !in s[..|s| - 1]
    ensures s == s[..|s| - 1] + [s[|s| - 1]]
  {
    var pre := s[..|s| - 1];
    forall y | y in pre ensures y != s[|s| - 1] {
      var k :| 0 <= k < |pre| && pre[k] == y;
      assert s[k] == y;
    }
  }

  /** The trailing loop issues freeDown once for each pending clock whose lower raw is not "<= 0". */
  lemma {:induction false} TrailFreeDowns(d: seq<int>, size: int, pending: seq<int>, i: int)
    requires Square(d, size) && Increasing(pending) && ClockIndices(pending, size)
    ensures multiset(TrailCalls(d, size, pending))[FreeDown(i)] ==
              if i in pending && Lower(d, size, i) != LE_ZERO then 1 else 0
    decreases |pending|
  {
    if pending != [] {
      var pre := pending[..|pending| - 1];
      var last := pending[|pending| - 1];
      LastIsNew(pending);
      TrailFreeDowns(d, size, pre, i);
      TrailStepFreeDowns(d, size, last, i);
      assert TrailCalls(d, size, pending) == TrailCalls(d, size, pre) + TrailStep(d, size, last);
      assert i in pending <==> i in pre || i == last;
    }
  }

  /**
   * Each clock 1..size-1 is handled exactly once by getAbsoluteZone, and
   * freeDown is issued for it exactly when its lower raw is not "<= 0"; no
   * other index is ever freed.
   */
  lemma FreeDownIssuedOnce(d: seq<int>, size: int, clocks: seq<Clock>, gs: seq<Guard>, i: int)
    requires Square(d, size) && IndicesInRange(clocks, gs, size)
    ensures multiset(AbsoluteZoneCalls(d, size, clocks, gs))[FreeDown(i)] ==
              if 1 <= i < size && Lower(d, size, i) != LE_ZERO then 1 else 0
  {
    var p := GuardPass(d, size, clocks, gs);
    GuardPassFreeDowns(d, size, clocks, gs, i);
    TrailFreeDowns(d, size, p.pending, i);
  }
}
