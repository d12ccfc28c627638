/** Value semantics of the logic-circuit primitives the mdoc helpers are wired from.
    Every wire is identified with the integer it carries; these are definitions, the
    gadgets that enforce them in the circuit are not part of this model. */
module Gates {
  /** A boolean wire. */
  type Bit = x: int | 0 <= x <= 1

  /** The value of an 8-wire bit vector (`v8`). */
  type Byte = x: int | 0 <= x < 256

  /** `veq(a, b)`: equality indicator. */
  function Veq(a: int, b: int): Bit
  {
    if a == b then 1 else 0
  }

  /** `vlt(a, b)`: less-than indicator. */
  function Vlt(a: int, b: int): Bit
  {
    if a < b then 1 else 0
  }

  /** `eq(8, a, b)`: byte equality indicator. */
  function EqBytes(a: Byte, b: Byte): Bit
  {
    if a == b then 1 else 0
  }

  /** `axpy(h, a, b)`: h + a * b. */
  function Axpy(h: int, a: int, b: int): int
  {
    h + a * b
  }

  /** The constraint `assert_implies(a, b)`. */
  predicate AssertImplies(a: Bit, b: Bit)
  {
    a == 0 || b == 1
  }

  /** The constraint `assert_eq(a, b)`. */
  predicate AssertEq(a: int, b: int)
  {
    a == b
  }
}
