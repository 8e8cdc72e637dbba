/** Values shared by every controller: optional values, the handlers' error
    outcomes, identifiers and JavaScript truthiness of request fields. */
module Common {

  datatype Option<+T> = None | Some(value: T)

  /** How a handler fails. `ApiError` is an error the handler throws itself
      (`throw new ApiError(status, message)`); `Crash` is a failure raised
      below the handler (a JavaScript TypeError, a Mongoose cast error, a
      query MongoDB refuses) that reaches the framework's error handler. */
  datatype Error = ApiError(status: nat, message: string) | Crash(reason: string)

  datatype Result<+T> = Ok(value: T) | Err(error: Error)

  /** A document identifier, as the string the request carries. */
  type Id = string

  predicate IsHexDigit(c: char) {
    '0' <= c <= '9' || 'a' <= c <= 'f' || 'A' <= c <= 'F'
  }

  /** `mongoose.Types.ObjectId.isValid`, read as "24 hexadecimal digits". */
  predicate IsValidObjectId(s: string) {
    |s| == 24 && forall i :: 0 <= i < |s| ==> IsHexDigit(s[i])
  }

  /** `if (x)` on a request field that may be absent: present and non-empty. */
  predicate Truthy(s: Option<string>) {
    s.Some? && s.value != ""
  }

  /** The reason recorded when Mongoose cannot cast a malformed id. */
  const CastError := "CastError: Cast to ObjectId failed"

  /** The reason recorded when `new mongoose.Types.ObjectId(s)` is given a
      string that is not an id. */
  const BsonError := "BSONError: input must be a 24 character hex string, 12 byte Uint8Array, or an integer"

  function Min(a: int, b: int): int { if a <= b then a else b }

  function Max(a: int, b: int): int { if a >= b then a else b }
}
