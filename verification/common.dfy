/** Small shared vocabulary of the score store model. */
module Common {

  /** A value that may be missing: JavaScript's `undefined`, or a `NaN` from `parseInt`. */
  datatype Option<+T> = None | Some(value: T)

  /**
   One call's effect on a store of type `S`: the store it leaves, and either
   the rank its promise resolves to or a rejection.
   */
  datatype Step<S> = Ranked(after: S, rank: int) | Threw(after: S)
}
