/** Optional values and results shared by the codec and the fst2 model. */
module Wrappers {

  /** A value that may be absent: the model of a nullable pointer field. */
  datatype Option<+T> = None | Some(value: T)

  /** Either a value or an error describing why no value exists. */
  datatype Result<+R, +E> = Ok(value: R) | Err(error: E)
}
