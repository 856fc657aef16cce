/** The optional value used throughout the model: `None` stands for JavaScript's
    NaN where a parse fails, and for `null` where the page shows no result. */
module Wrappers {

  datatype Option<+T> = None | Some(value: T)

}
