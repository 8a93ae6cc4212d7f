// Source positions and errors (cjson-rs/src/error.rs).
module Errors {
  import opened Bytes

  // One-based line and column, zero-based byte offset.
  datatype Position = Position(line: nat, column: nat, offset: nat)

  const START := Position(1, 1, 0)

  datatype Kind =
    | UnexpectedChar(ch: byte)
    | UnexpectedEof
    | InvalidEscape
    | InvalidUnicodeEscape
    | InvalidSurrogatePair
    | InvalidNumber
    | NumberOutOfRange
    | InvalidLiteral
    | NestingLimitExceeded
    | InvalidUtf8
    | TrailingData
    | UnexpectedToken

  datatype Error = Error(kind: Kind, pos: Position)

  datatype Result<+T> = Success(value: T) | Failure(error: Error)

  // What a reader found at the head of some bytes: a value and the number of
  // bytes it took, or an error and where it lies relative to those bytes.
  datatype Lex<+T> = Ok(value: T, len: nat) | Err(kind: Kind, at: int)
}
