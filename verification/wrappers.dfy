/** The optional value used for JavaScript fields that may be `undefined`. */
module Wrappers {

  /** `None` stands for an undefined field. Two `None`s are equal, as two
      `undefined`s are under `===`. */
  datatype Option<+T> = None | Some(value: T)
}
