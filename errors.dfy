/** Outcomes of the modelled operations: a value, or the exception Python would raise. */
module Errors {

  /** The exceptions the core raises: the library's own (quantralib/exceptions.py) and
      the built-in ones raised by the Python operations the core relies on. */
  datatype Error =
    | EOSKeyError              // a key passed to push_transaction is not a Signer
    | EOSMsigInvalidProposal   // multisig_review found no proposal row
    | EOSSetSameAbi            // set_abi would not change the ABI
    | EOSSetSameCode           // set_code would not change the code
    | ValueError               // chr() out of range, int() of a malformed or too long literal
    | TypeError                // cycle(None): a missing key
    | IndexError               // rows[0] of an empty row list
    | KeyError                 // a row without the requested field
    | RuntimeError             // EOSRandom: bad key type, or no key recovers the value
    | UnicodeEncodeError       // str.encode() of a lone surrogate
    | UnicodeDecodeError       // bytes.decode() of malformed UTF-8
    | Base64LengthError        // binascii.Error: one data character more than a multiple of 4
    | Base64PaddingError       // binascii.Error: "Incorrect padding"

  datatype Option<+T> = None | Some(value: T)

  datatype Result<+T> = Success(value: T) | Failure(error: Error) {

    predicate IsFailure() {
      Failure?
    }

    function PropagateFailure<U>(): Result<U>
      requires Failure?
    {
      Failure(error)
    }

    function Extract(): T
      requires Success?
    {
      value
    }
  }
}
