/** What JavaScript's `Number(...)` can yield, shared by both blocks. */
module Numbers {

  /** A JavaScript number: not-a-number, an infinity, or a finite value. The
      two zeros are one value here, which is all the blocks can tell apart. */
  datatype JsNumber = NaN | Infinity(negative: bool) | Finite(value: real)

  /** The number is truthy: it is neither NaN nor zero. */
  predicate Truthy(n: JsNumber) {
    !n.NaN? && n != Finite(0.0)
  }

  /** `n < 0`. */
  predicate Negative(n: JsNumber) {
    n == Infinity(true) || (n.Finite? && n.value < 0.0)
  }

  /** `n === i` for an integer `i`. */
  predicate IsInt(n: JsNumber, i: int) {
    n == Finite(i as real)
  }
}
