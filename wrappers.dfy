/** Option and Result, the two failure-carrying types the contract uses. */
module Wrappers {

  /** Rust's `Option<T>`. */
  datatype Option<T> = None | Some(value: T) {
    /** `unwrap_or` / `unwrap_or_default` with the default passed explicitly. */
    function GetOr(default: T): (r: T)
      ensures Some? ==> r == value
      ensures None? ==> r == default
    {
      match this
      case Some(v) => v
      case None => default
    }
  }

  /** Rust's `Result<T, &'static str>`: an error carries its message. */
  datatype Result<T> = Ok(value: T) | Err(msg: string) {
    /** `unwrap_or_default` with the default passed explicitly. */
    function UnwrapOr(default: T): (r: T)
      ensures Ok? ==> r == value
      ensures Err? ==> r == default
    {
      match this
      case Ok(v) => v
      case Err(_) => default
    }
  }
}

/** Byte strings and the 20-byte `H160` address type. */
module Types {
  import opened Wrappers

  newtype byte = x: int | 0 <= x < 256

  const ADDRESS_LENGTH: nat := 20

  /** `H160`: exactly twenty bytes. */
  type Address = s: seq<byte> | |s| == ADDRESS_LENGTH witness [0, 0, 0, 0, 0, 0, 0, 0, 0, 0, 0, 0, 0, 0, 0, 0, 0, 0, 0, 0]

  /** `H160::default()`, the all-zero address. */
  const ZeroAddress: Address := [0, 0, 0, 0, 0, 0, 0, 0, 0, 0, 0, 0, 0, 0, 0, 0, 0, 0, 0, 0]

  /**
   * Public-key recovery (`KeyPair::recover`) followed by the derivation of
   * the signer's twenty-byte address from the recovered key, taken as an
   * oracle: message and 65-byte signature in, the signer's address out, or
   * None when recovery fails. This is the comparison `verify` is meant to
   * make; the code itself compares against the key's full digest, modelled
   * by `Signature.VerifyAsWritten`.
   */
  type Recover = (seq<byte>, seq<byte>) -> Option<Address>
}
