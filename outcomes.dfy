/** Values and failures shared by the whole crop pipeline. */
module Outcomes {

  /** Python's `None` or a present value. */
  datatype Option<T> = None | Some(value: T)

  /** The exception classes that `crop_image` distinguishes in its handlers. */
  datatype Error =
    | FileNotFoundError        // missing input file or output directory
    | ValueError               // bad margin, empty reduction, shape mismatch
    | NoBordersDetectedError   // the project's own exception class
    | OtherException           // anything else (OpenCV failures)

  /** The result of a step that either returns a value or raises. */
  datatype Outcome<T> = Ok(value: T) | Raised(error: Error)
}
