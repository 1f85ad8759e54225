/** Option and Result, and the error values of src/error.rs that distinguish outcomes. */
module Wrappers {
  datatype Option<+T> = None | Some(value: T)

  datatype Result<+T, +E> = Ok(value: T) | Err(error: E)

  /** The kinds of `std::io::Error` the payload codecs return. */
  datatype PayloadError = InvalidInput | InvalidData

  datatype ProtocolError =
    | InvalidMagic
    | UnsupportedVersion(version: int)
    | InvalidHeaderLength
    | PayloadTooLarge(size: int, max: int)
    | ReservedFieldNonZero
    | UnknownPacketType(code: int)
    | InvalidStateTransition
    | SequenceViolation(got: int, last: int)
    | EncryptionRequired
    | CryptoError
    | Io
}
