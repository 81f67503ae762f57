/** Results and the Python exceptions that the converter can raise. */
module Outcomes {

  datatype Option<+T> = None | Some(value: T)

  /** The exceptions that escape the modelled functions. */
  datatype Exception =
    | StopIteration                     // `next(reader)` on a file with no line at all
    | ValueError(expected: seq<string>) // header differs from the expected column keys
    | IndexError                        // `row[5]` on a row with fewer than six fields
    | NameError(name: string)           // an `except` clause naming a module that was never imported
    | ArgumentTypeError(message: string) // the command-line file name is not a `.csv`

  /** Either the value a Python call returns or the exception it raises. */
  datatype Outcome<+T> = Ok(value: T) | Raised(exc: Exception)
}
