/** An optional value: `None` stands for the source's NULL, `npos` or `false` returns. */
module Wrappers {

  datatype Option<+T> = None | Some(value: T)

}
