/**
 * The closure-maintaining primitives of the native DBM library, seen only at
 * their interface. Each mutating primitive is one `Op`; the library itself is a
 * value of type `Natives`, passed to every zone operation that calls into it, so
 * that nothing is known about a primitive beyond what a caller is told here:
 * a mutating primitive returns a matrix of the same length as the one it was
 * given (`LengthPreserving`). Primitives are value-returning: they never change
 * the buffer they are passed.
 */
module NativeDbm {

  /** One call of a mutating primitive, with the arguments Zone passes to it. */
  datatype Op =
    | Zero                                          // dbm_zero
    | Init                                          // dbm_init
    | Up                                            // dbm_up
    | FreeDown(clock: int)                          // dbm_freeDown
    | UpdateValue(clock: int, value: int)           // dbm_updateValue
    | ConstrainBound(i: int, j: int, bound: int, strict: bool)  // dbm_constrainBound
    | ConstrainRaw(i: int, j: int, raw: int)        // dbm_constrainRaw
    | ExtrapolateMaxBounds(maxBounds: seq<int>)     // dbm_extrapolateMaxBounds

  /** The native library: one transformer for the mutating calls and three queries. */
  datatype Natives = Natives(
    transform: (seq<int>, int, Op) -> seq<int>,
    isSubsetEq: (seq<int>, seq<int>, int) -> bool,
    intersection: (seq<int>, seq<int>, int) -> bool,
    isValid: (seq<int>, int) -> bool)

  /** The one assumption made about the library: it keeps the matrix length. */
  ghost predicate LengthPreserving(lib: Natives) {
    forall d: seq<int>, dim: int, op: Op :: |lib.transform(d, dim, op)| == |d|
  }

  /** The matrix obtained by issuing `ops`, in order, starting from `d`. */
  ghost function Run(lib: Natives, d: seq<int>, dim: int, ops: seq<Op>): (r: seq<int>)
    requires LengthPreserving(lib)
    ensures |r| == |d|
    decreases |ops|
  {
    if ops == [] then d
    else lib.transform(Run(lib, d, dim, ops[..|ops| - 1]), dim, ops[|ops| - 1])
  }

  /** Two calls issued one after the other are the pair issued together. */
  lemma CallsSnocSnoc(ops: seq<Op>, a: Op, b: Op)
    ensures ops + [a] + [b] == ops + [a, b]
  {
  }

  /** Issuing one more call applies that primitive to the matrix so far. */
  lemma RunSnoc(lib: Natives, d: seq<int>, dim: int, ops: seq<Op>, op: Op)
    requires LengthPreserving(lib)
    ensures Run(lib, d, dim, ops + [op]) == lib.transform(Run(lib, d, dim, ops), dim, op)
  {
    assert (ops + [op])[..|ops|] == ops;
  }
}
