/**
 * How an operation of the executor can end: with a value, or with one of
 * the exceptions the Java code raises (or, for a zero block size, with a
 * loop that never ends, which the model reports instead of running).
 */
module Outcomes {

  datatype Failure =
    | InvalidArguments        // null or short input list, or null output
    | WrongCodepath           // the aggregate type on a matrix-output path
    | DivideByZero            // integer division by zero in a block-size formula
    | NegativeArraySize       // a cursor array of negative length
    | NonTerminating          // a block size of zero over a non-empty range
    | IndexOutOfBounds        // a write outside the output buffer
    | IllegalPoolSize         // a thread pool of fewer than one thread

  datatype Result<T> = Ok(value: T) | Err(why: Failure)
}
