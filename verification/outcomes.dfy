/**
  Failure-compatible result types shared by every codec.

  The source signals failures with Python exceptions; each exception that a
  modelled operation can raise becomes one `Error` value, and the operation
  returns a `Result` instead of raising.
 */
module Outcomes {

  /** Python's `None`-or-value. */
  datatype Option<+T> = None | Some(value: T) {

    function GetOr(default: T): T {
      match this
      case Some(v) => v
      case None => default
    }
  }

  /** The exceptions the modelled code can raise. */
  datatype Error =
    | BadMagic      // the leading format tag is not the expected one (ValueError)
    | Truncated     // a length-checked header field is shorter than declared (ValueError)
    | Overflow      // an integer does not fit the field it is written to (OverflowError)
    | NotABit       // `write_bit` was given a value other than 0 or 1 (ValueError)
    | OutOfRange    // `write_int` was given a value that does not fit its bit count (ValueError)
    | NoTree        // the Huffman tree could not be built (ValueError)
    | MissingChild  // the tree walk stepped below a leaf (AttributeError on None)
    | BadIndex      // a back-reference reads outside the output (IndexError)
    | BadTable      // the stored frequency table could not be unpickled

  /** Either a value or the error that stopped the computation; usable with `:-`. */
  datatype Result<+T> = Ok(value: T) | Err(error: Error) {

    predicate IsFailure() {
      Err?
    }

    function PropagateFailure<U>(): Result<U>
      requires Err?
    {
      Err(error)
    }

    function Extract(): T
      requires Ok?
    {
      value
    }
  }
}
