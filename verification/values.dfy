/** Small value types shared by every module of the model. */
module JsValues {

  /** A value that may be absent: JavaScript's `undefined` / `null`, or a missing map entry. */
  datatype Option<+T> = None | Some(value: T)

  /** A JavaScript number as the scripts produce it: either an integer or NaN
      (what `parseInt` returns when it finds no digits, and what arithmetic on NaN keeps). */
  datatype Num = Finite(value: int) | NaN {

    /** `this - k` with NaN absorbing. */
    function Minus(k: int): Num {
      match this
      case Finite(n) => Finite(n - k)
      case NaN => NaN
    }
  }
}
