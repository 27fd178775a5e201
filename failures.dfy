/** Failure values of the decoder.  The original signals every failure by raising a
    Python exception; here each one becomes an explicit `Err` value that callers
    pass upward, keeping the kind of failure for diagnostics. */
module Failures {

  datatype Option<+T> = None | Some(value: T)

  /** Why a decode step failed, named after the exception the original raises. */
  datatype Error =
    | Truncated          // struct.error: a field read past the end of the blob
    | BadSelector        // IndexError: a 2-bit width selector equal to 3
    | NoCodes            // StopIteration: next() on an exhausted word or code iterator
    | NegativeShift      // ValueError: a negative shift count in the unpack loop
    | CodeOverflow       // OverflowError: a code of 2^32 or more stored into array('I')
    | BadMode            // AssertionError: a block mode of 4 or more
    | NoCodeArray        // TypeError: iter(None) in a quantized block without codes
    | MaskIndex          // IndexError: a mask query past the end of the mask bytes
    | ZeroBlockCount     // ZeroDivisionError: a value descriptor block count of 0
    | ZeroBlockSize      // ValueError: range() with a block width or height of 0
    | NoMaskDescriptor   // AttributeError: the blob has no mask descriptor (m_nB)
    | BadEndMarker       // the corrected decoder only: the mask data lacks its end marker
    | DataIndex          // IndexError: a sample written past the end of the output array

  datatype Result<+T> = Ok(value: T) | Err(error: Error)
}
