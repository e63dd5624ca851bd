/** The two sentinel-carrying types the script relies on: a value that may be
    undefined (NaN / `None` in the script), and a computation that may stop on
    a failed integrity assertion. */
module Wrappers {

  /** A value that may be missing: `None` stands for NaN or for a dictionary
      lookup that found nothing. */
  datatype Option<+T> = None | Some(value: T)

  /** The outcome of a step that can abort the whole analysis. */
  datatype Result<+T, +E> = Ok(value: T) | Err(error: E)
}
