/**
 * The packed "raw bound" codec of the native DBM library, written out as an
 * explicit assumption: the UPPAAL DBM packing `raw = 2*bound + (strict ? 0 : 1)`,
 * decoding by an arithmetic shift right, strictness in the low bit, and the
 * sentinel DBM_INF = Integer.MAX_VALUE - 1, which is absorbing in addition.
 * Integers are unbounded here; `IsInt32` states the Java range where it matters.
 */
module RawBound {

  const INT_MAX: int := 0x7fff_ffff
  const INT_MIN: int := -0x8000_0000

  /** Raw encoding of "no finite bound" (Zone.DBM_INF). */
  const DBM_INF: int := INT_MAX - 1

  /** Raw encoding of the bound "<= 0" (the literal 1 used throughout Zone). */
  const LE_ZERO: int := 1

  predicate IsInt32(x: int) {
    INT_MIN <= x <= INT_MAX
  }

  /** DBMLib.raw2bound: `raw >> 1`, which rounds towards minus infinity. */
  function Raw2Bound(raw: int): (b: int)
    ensures 2 * b <= raw <= 2 * b + 1
  {
    raw / 2
  }

  /** DBMLib.dbm_rawIsStrict: the low bit is 0 for a strict bound. */
  function RawIsStrict(raw: int): (strict: bool)
    ensures strict <==> raw == 2 * Raw2Bound(raw)
  {
    raw % 2 == 0
  }

  /** DBMLib.boundbool2raw: packs a bound and its strictness. */
  function BoundBool2Raw(bound: int, strict: bool): (raw: int)
    ensures Raw2Bound(raw) == bound
    ensures RawIsStrict(raw) == strict
  {
    2 * bound + (if strict then 0 else 1)
  }

  /**
   * DBMLib.dbm_addRawRaw: DBM_INF is absorbing; otherwise `a + b - ((a | b) & 1)`,
   * where `(a | b) & 1` is 1 exactly when one of the operands is non-strict.
   */
  function AddRawRaw(a: int, b: int): int
  {
    if a == DBM_INF || b == DBM_INF then DBM_INF
    else a + b - (if a % 2 == 1 || b % 2 == 1 then 1 else 0)
  }

  /**
   * What raw addition means: DBM_INF absorbs; otherwise the decoded bounds add
   * and the sum is strict when either operand is.
   */
  lemma AddRawRawMeaning(a: int, b: int)
    ensures a == DBM_INF || b == DBM_INF ==> AddRawRaw(a, b) == DBM_INF
    ensures a != DBM_INF && b != DBM_INF ==>
              Raw2Bound(AddRawRaw(a, b)) == Raw2Bound(a) + Raw2Bound(b) &&
              RawIsStrict(AddRawRaw(a, b)) == (RawIsStrict(a) || RawIsStrict(b))
  {
  }

  /** Every raw is the packing of its own decoded bound and strictness. */
  lemma RawRoundTrip(raw: int)
    ensures BoundBool2Raw(Raw2Bound(raw), RawIsStrict(raw)) == raw
  {
  }

  /** Raw addition does not depend on the order of its operands. */
  lemma AddRawRawCommutes(a: int, b: int)
    ensures AddRawRaw(a, b) == AddRawRaw(b, a)
  {
  }

  /**
   * The sum of a lower-bound raw and an upper-bound raw is the "<= 0" encoding
   * exactly when both are finite, both are non-strict and the decoded bounds
   * cancel: the clock is pinned to a single value.
   */
  lemma AddRawRawIsLeZero(lb: int, ub: int)
    ensures AddRawRaw(lb, ub) == LE_ZERO <==>
              lb != DBM_INF && ub != DBM_INF &&
              !RawIsStrict(lb) && !RawIsStrict(ub) &&
              Raw2Bound(ub) == -Raw2Bound(lb)
  {
    AddRawRawMeaning(lb, ub);
    if lb != DBM_INF && ub != DBM_INF {
      var r := AddRawRaw(lb, ub);
      assert Raw2Bound(r) == Raw2Bound(lb) + Raw2Bound(ub);
      assert RawIsStrict(r) == (RawIsStrict(lb) || RawIsStrict(ub));
      if r == LE_ZERO {
        assert Raw2Bound(r) == 0 && !RawIsStrict(r);
      }
    }
  }

  /**
   * Finite raws comfortably inside the 32-bit range add to a finite raw that
   * neither overflows nor collides with the sentinel.
   */
  lemma AddRawRawHeadroom(a: int, b: int)
    requires -0x4000_0000 < a < 0x4000_0000 && -0x4000_0000 < b < 0x4000_0000
    ensures IsInt32(AddRawRaw(a, b)) && AddRawRaw(a, b) != DBM_INF
  {
  }
}
