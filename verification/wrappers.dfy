/** Option and positive-real types shared by the model. */
module Wrappers {

  /** A value that may be missing: `Some(v)` or `None`. */
  datatype Option<+T> = None | Some(value: T)

  /** Strictly positive reals: on-screen box sizes and native page sizes. */
  type PosReal = r: real | r > 0.0 witness 1.0
}
