/** Option and Result values standing in for Python's `None` and raised exceptions. */
module Wrappers {

  datatype Option<+T> = None | Some(value: T)

  /** The exceptions the modelled Python code can raise on malformed input. */
  datatype Error =
    | InvalidLiteral(text: string)  // `int(text)` rejected its argument (ValueError)
    | UnpackMismatch(count: nat)    // tuple unpacking of `split` got `count` parts (ValueError)
    | SubstringNotFound             // `str.rindex` found no occurrence (ValueError)
    | EmptyListing                  // `[0]` on an empty file listing (IndexError)

  datatype Result<+T> = Ok(value: T) | Err(error: Error)
}
