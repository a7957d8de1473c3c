/** Types shared by the models. */
module Wrappers {

  datatype Option<+T> = None | Some(value: T)

  /** WordPress numbers its posts from 1. */
  type PostId = id: int | id > 0 witness 1
}
