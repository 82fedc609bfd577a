/** The optional-value datatype shared by the whole model. */
module Wrappers {

  /** `None` stands for JavaScript's `null`/`undefined` where the source uses one of them as "no value". */
  datatype Option<+T> = None | Some(value: T)
}
