/** Small datatypes shared by every module of the model. */
module Wrappers {

  /** Swift's `UInt8`, the element type of a `Data` blob. */
  newtype byte = x: int | 0 <= x < 256

  /** Swift's `Optional`: `None` plays the role of `nil`. */
  datatype Option<+T> = None | Some(value: T) {

    /** The `??` operator: the wrapped value, or `default` for `nil`. */
    function GetOr(default: T): T {
      match this
      case Some(v) => v
      case None => default
    }
  }

  /**
   * The outcome of one archive query: its rows, or the error it threw.
   * Each query is atomic, so there is no partial result.
   */
  datatype Fetch<+T> = Fetched(value: T) | Failed(reason: string)
}
