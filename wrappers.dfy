/** Option and Result, the failure-carrying values used across the model. */
module Wrappers {

  datatype Option<+T> = None | Some(value: T)

  datatype Result<+T, +E> = Ok(value: T) | Err(error: E)
}

/**
 * The exceptions the script can raise inside the modelled core.
 * `MissingKey` is Python's KeyError on a record that lacks a key;
 * `TimestampOutOfRange` is the ValueError/OverflowError that
 * `datetime.utcfromtimestamp` raises when the instant does not fall in
 * the years 1..9999.
 */
module Errors {

  datatype Failure =
    | MissingKey(key: string)
    | TimestampOutOfRange(timestamp: int)
}
