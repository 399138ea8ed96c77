/** The ways parsing a descriptor region can fail, reported as values. */
module ParseErrors {
  import opened ByteLayout

  datatype ParseError =
    | /** The region header does not start with the signature. */
      InvalidSignature
    | /** The header's stored CRC (found) differs from the CRC of its contents (expected). */
      InvalidHeaderCrc(found: u32, expected: u32)
    | /** The descriptor read at `address` has a stored CRC that differs from the CRC of its contents. */
      InvalidAppCrc(address: nat, found: u32, expected: u32)
    | /** A slot index at or beyond the number of slots. */
      InvalidAppSlot
    | /** A header that declares no slots. */
      InvalidSlotCount

  /** A parsed value or the first error met; `:-` propagates the error as the source's `?` does. */
  datatype Result<T> = Ok(value: T) | Err(error: ParseError) {
    predicate IsFailure() {
      Err?
    }

    function PropagateFailure<U>(): Result<U>
      requires Err?
    {
      Err(error)
    }

    function Extract(): T
      requires Ok?
    {
      value
    }
  }
}
