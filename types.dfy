/** The values that cross the marshaling layer's public surface. */
module Types {
  import opened Memory

  /** A message to sign or verify: text, or raw binary data. */
  datatype Message = Text(text: string) | Binary(bytes: seq<byte>)

  /** The bytes a message is copied into memory as. Text goes through the
      text encoder `encode` (a TextEncoder, which produces UTF-8); binary data
      is used as it is. */
  function MessageBytes(message: Message, encode: string -> seq<byte>): seq<byte>
  {
    match message
    case Text(text) => encode(text)
    case Binary(bytes) => bytes
  }

  /** The errors the marshalers raise. */
  datatype Error =
    | AllocationError          // malloc returned 0 for some region
    | GenerationError          // keypair returned a non-zero status
    | SigningError(code: int)  // sign returned the non-zero status `code`

  /** A value, or the error that was raised instead. */
  datatype Result<T> = Ok(value: T) | Err(error: Error)
}
