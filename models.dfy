/**
 * The model-layer records that the zone and the parser exchange, carrying only
 * the constructor arguments the modelled code uses. A guard's clock is optional
 * because the parser's clock lookup returns `null` for an unknown name.
 */
module Models {
  import opened Wrappers
  import opened RawBound

  /** Clock(name). Clocks compare by name here. */
  datatype Clock = Clock(name: string)

  /**
   * `Guard(clock, value, greater, strict)` is `clock > value`, `clock >= value`,
   * `clock < value` or `clock <= value`; `EqGuard(clock, value)` is `clock == value`.
   */
  datatype Guard =
    | Guard(clock: Option<Clock>, value: int, greater: bool, strict: bool)
    | EqGuard(clock: Option<Clock>, value: int)
  {
    /**
     * The bounds Zone reads from a guard. The Guard class is not part of this
     * model; its derivation is assumed: a lower-bound guard has no finite upper
     * bound (Integer.MAX_VALUE), an upper-bound guard has lower bound 0, and an
     * equality guard has both bounds equal to its value.
     */
    function LowerBound(): int {
      match this
      case Guard(_, v, greater, _) => if greater then v else 0
      case EqGuard(_, v) => v
    }

    function UpperBound(): int {
      match this
      case Guard(_, v, greater, _) => if greater then INT_MAX else v
      case EqGuard(_, v) => v
    }

    function IsStrict(): bool {
      match this
      case Guard(_, _, _, strict) => strict
      case EqGuard(_, _) => false
    }
  }

  /** Update(clock, value): the reset `clock = value`. */
  datatype Update = Update(clock: Option<Clock>, value: int)

  datatype Channel = Channel(name: string)

  datatype Location = Location(name: string, invariantGuards: seq<Guard>, isInitial: bool, isUrgent: bool,
                               isUniversal: bool, isInconsistent: bool)

  datatype Edge = Edge(source: Option<Location>, target: Option<Location>, channel: Channel, isInput: bool,
                       guards: seq<Guard>, updates: seq<Update>)

  /** List.indexOf: the position of the first clock equal to `c`, or -1. */
  function IndexOf(clocks: seq<Clock>, c: Option<Clock>): (k: int)
    ensures -1 <= k < |clocks|
    ensures k >= 0 ==> Some(clocks[k]) == c && forall j :: 0 <= j < k ==> Some(clocks[j]) != c
    ensures k == -1 ==> forall j :: 0 <= j < |clocks| ==> Some(clocks[j]) != c
  {
    if clocks == [] then -1
    else if Some(clocks[0]) == c then 0
    else
      var k := IndexOf(clocks[1..], c);
      if k < 0 then -1 else k + 1
  }
}
