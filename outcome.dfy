/** Outcomes of the extractors: the Python code raises `ValueError` or
    `RuntimeError`; here those become the `Err` arm of a `Result`. */
module Outcome {

  datatype Option<+T> = None | Some(value: T)

  /** What an exception was raised about. */
  datatype Detail =
    | Unparsed(text: string)   // no date template matched; carries the preprocessed text
    | DateNotFound             // the date pattern of a page was absent
    | CodepointNotFound        // no qualifying line in the emoji table

  /** The two exception classes the extractors raise. */
  datatype Error = ValueError(detail: Detail) | RuntimeError(detail: Detail)

  datatype Result<+T> = Ok(value: T) | Err(error: Error)
}
