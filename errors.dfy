/** The failure kinds the tool raises, and the result type that carries them. */
module Errors {

  /** Why a share string could not be decoded. */
  datatype DecodeFailure =
    | MissingSeparator   // no ':' between the coordinate and the payload
    | InvalidCoordinate  // the text before the first ':' is not a decimal number
    | InvalidBase64      // the text after the first ':' is not padded base64

  datatype Error =
    | EmptySecret                // split_secret: the secret has no bytes
    | ThresholdAboveShareCount   // split_secret: k > n
    | ThresholdTooSmall          // split_secret: k < 2
    | TooManyShares              // split_secret: n > 255
    | DivisionByZero             // GF256.divide with a zero divisor
    | CoordinateCountMismatch    // lagrange_interpolation: as many x as y values required
    | InsufficientShares         // fewer than two shares
    | ShareLengthMismatch(expected: nat, found: nat)
    | ShareDecodeError(cause: DecodeFailure)

  datatype Result<T> = Ok(value: T) | Err(error: Error)
}
