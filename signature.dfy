/**
 * `verify`: the signed message is the framing of the bound address's
 * twenty bytes and the action label's bytes; only the first 65 signature
 * bytes are used, and the recovered signer must equal the expected one.
 */
module Signature {
  import opened Wrappers
  import opened Types
  import opened Framing

  /** Length of a recoverable signature: 64 bytes and a recovery id. */
  const SIGNATURE_LENGTH: nat := 65

  /** The label `authorize_by_address` signs over. */
  const AUTH_MOTION: string := "Authentication by you"

  /** A label whose UTF-8 encoding is one byte per character. */
  predicate IsAsciiLabel(s: string)
  {
    |s| < TWO_64 && forall i :: 0 <= i < |s| ==> s[i] < 128 as char
  }

  /** `String::as_bytes` of an ASCII string. */
  function AsciiBytes(s: string): (b: seq<byte>)
    requires IsAsciiLabel(s)
    ensures |b| == |s|
    ensures forall i :: 0 <= i < |s| ==> b[i] as int == s[i] as int
  {
    seq(|s|, i requires 0 <= i < |s| => s[i] as int as byte)
  }

  /** The bytes `verify` hands to recovery: `frame([addr, motions])`. */
  function Message(addr: Address, motions: string): (msg: seq<byte>)
    requires IsAsciiLabel(motions)
    ensures Unframe(msg) == Some([addr, AsciiBytes(motions)])
    ensures |msg| == 2 * PREFIX_LENGTH + ADDRESS_LENGTH + |motions|
  {
    var parts: seq<seq<byte>> := [addr, AsciiBytes(motions)];
    UnframeFrame(parts);
    assert parts[1..][1..] == [];
    Frame(parts)
  }

  /**
   * What `verify` needs in order not to panic: at least 65 signature bytes
   * (the slice `sig[..65]`) and a successful recovery (the `unwrap`).
   */
  predicate Recoverable(recover: Recover, addr: Address, motions: string, sig: seq<byte>)
  {
    IsAsciiLabel(motions) && |sig| >= SIGNATURE_LENGTH
    && recover(Message(addr, motions), sig[..SIGNATURE_LENGTH]).Some?
  }

  /** `verify(signer, addr, motions, sig)`. */
  function Verify(recover: Recover, signer: Address, addr: Address, motions: string, sig: seq<byte>): (ok: bool)
    requires Recoverable(recover, addr, motions, sig)
    ensures ok <==> recover(Message(addr, motions), sig[..SIGNATURE_LENGTH]) == Some(signer)
  {
    var toVerify := Message(addr, motions);
    var newSig := sig[..SIGNATURE_LENGTH];
    var acceptedSigner := recover(toVerify, newSig).value;
    signer == acceptedSigner
  }

  /**
   * Recovery as the code performs it: the recovered public key's full
   * Keccak-256 digest (`accepted_pubkey.keccak256()`), thirty-two bytes.
   */
  type Digest = s: seq<byte> | |s| == DIGEST_LENGTH witness seq(DIGEST_LENGTH, _ => 0)

  const DIGEST_LENGTH: nat := 32

  type RecoverDigest = (seq<byte>, seq<byte>) -> Option<Digest>

  /** What the as-written `verify` needs in order not to panic. */
  predicate DigestRecoverable(recover: RecoverDigest, addr: Address, motions: string, sig: seq<byte>)
  {
    IsAsciiLabel(motions) && |sig| >= SIGNATURE_LENGTH
    && recover(Message(addr, motions), sig[..SIGNATURE_LENGTH]).Some?
  }

  /**
   * `verify` as written: the twenty signer bytes are compared with the
   * thirty-two digest bytes, so the comparison never holds.
   */
  function VerifyAsWritten(recover: RecoverDigest, signer: Address, addr: Address, motions: string,
                           sig: seq<byte>): (ok: bool)
    requires DigestRecoverable(recover, addr, motions, sig)
    ensures !ok
  {
    var toVerify := Message(addr, motions);
    var newSig := sig[..SIGNATURE_LENGTH];
    var acceptedDigest := recover(toVerify, newSig).value;
    signer == acceptedDigest
  }

  /**
   * Whatever the signature, the as-written comparison rejects it, even where
   * the address derived from the same recovery is the signer and `Verify`
   * accepts.
   */
  lemma VerifyAsWrittenNeverAccepts(recover: Recover, recoverDigest: RecoverDigest, signer: Address,
                                    addr: Address, motions: string, sig: seq<byte>)
    requires Recoverable(recover, addr, motions, sig)
    requires DigestRecoverable(recoverDigest, addr, motions, sig)
    ensures !VerifyAsWritten(recoverDigest, signer, addr, motions, sig)
    ensures Verify(recover, signer, addr, motions, sig) ==>
              Verify(recover, signer, addr, motions, sig) != VerifyAsWritten(recoverDigest, signer, addr, motions, sig)
  {
  }

  /**
   * A concrete case: a signature over the authentication message whose
   * recovered signer is the zero address is accepted by `Verify` and
   * rejected as written, whatever the digest.
   */
  lemma VerifyAsWrittenCounterexample()
    ensures var sig: seq<byte> := seq(SIGNATURE_LENGTH, _ => 0);
            var recover: Recover := (m, s) => Some(ZeroAddress);
            var digest: Digest := seq(DIGEST_LENGTH, _ => 0);
            var recoverDigest: RecoverDigest := (m, s) => Some(digest);
            && IsAsciiLabel(AUTH_MOTION)
            && Verify(recover, ZeroAddress, ZeroAddress, AUTH_MOTION, sig)
            && !VerifyAsWritten(recoverDigest, ZeroAddress, ZeroAddress, AUTH_MOTION, sig)
  {
    assert IsAsciiLabel(AUTH_MOTION);
  }

  /** Bytes after the 65th never change the verdict. */
  lemma VerifyIgnoresTrailingBytes(recover: Recover, signer: Address, addr: Address, motions: string,
                                   sig: seq<byte>, extra: seq<byte>)
    requires Recoverable(recover, addr, motions, sig)
    ensures Recoverable(recover, addr, motions, sig + extra)
    ensures Verify(recover, signer, addr, motions, sig + extra) == Verify(recover, signer, addr, motions, sig)
  {
    assert (sig + extra)[..SIGNATURE_LENGTH] == sig[..SIGNATURE_LENGTH];
  }

  /**
   * Distinct (address, label) pairs are distinct messages, so a signature
   * over one is never read as a signature over another.
   */
  lemma MessageInjective(a1: Address, m1: string, a2: Address, m2: string)
    requires IsAsciiLabel(m1) && IsAsciiLabel(m2)
    requires Message(a1, m1) == Message(a2, m2)
    ensures a1 == a2 && m1 == m2
  {
  }

  /**
   * The authentication message byte for byte: length 20 as eight bytes, the
   * address, length 21 as eight bytes, the label.
   */
  lemma AuthMessageLayout(addr: Address)
    ensures IsAsciiLabel(AUTH_MOTION)
    ensures Message(addr, AUTH_MOTION)
         == [0, 0, 0, 0, 0, 0, 0, 20] + addr + [0, 0, 0, 0, 0, 0, 0, 21] + AsciiBytes(AUTH_MOTION)
  {
    assert IsAsciiLabel(AUTH_MOTION);
    var parts: seq<seq<byte>> := [addr, AsciiBytes(AUTH_MOTION)];
    assert BigEndian(20, 8) == [0, 0, 0, 0, 0, 0, 0, 20];
    assert BigEndian(21, 8) == [0, 0, 0, 0, 0, 0, 0, 21];
    assert parts[1..][1..] == [];
    assert Frame(parts[1..][1..]) == [];
    assert Frame(parts) == Chunk(addr) + (Chunk(AsciiBytes(AUTH_MOTION)) + []);
  }
}
