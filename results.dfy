/** Outcomes shared by the three engines: an Option, a Result, and the failure
    reasons that the Python code raises as exceptions. */
module Results {

  datatype Option<+T> = None | Some(value: T)

  /** Why an operation failed. Each constructor names one `raise` site (or one
      library error that the engine lets escape); the comment gives the Python
      exception class. */
  datatype Failure =
    | PasswordTooShort     // ValidationError: password shorter than 12 characters
    | UnencodablePassword  // UnicodeEncodeError: password holds a surrogate
    | DataTooLarge         // ValidationError / ValueError: payload exceeds capacity
    | PackOverflow         // struct.error: a length does not fit its header field
    | CarrierOverflow      // numpy broadcast ValueError: more bits than samples
    | CipherInputTooLong   // OverflowError from AESGCM.encrypt: over 2^31 - 1 bytes
    | InvalidHeader        // struct.error: header bytes of the wrong size
    | UnsupportedVersion   // ValidationError: version byte is not FORMAT_VERSION
    | InvalidLengths       // ValidationError: salt, nonce or data length out of bounds
    | DecryptionFailed     // SecurityError: AEAD tag does not verify
    | LengthMismatch       // SecurityError: plaintext length differs from data_len
    | InvalidLengthPrefix  // ValueError: length prefix larger than allowed
    | BadAnchor            // ValueError: base emoji is not one character
    | ByteOutOfRange       // ValueError: value outside 0..255
    | InvalidSelector      // ValueError: code point is not a variation selector
    | DataTooShort         // ValueError: fewer than 4 decoded bytes

  datatype Result<+T> = Ok(value: T) | Err(error: Failure)
}
