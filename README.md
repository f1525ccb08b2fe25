# Secret account registry, modelled in Dafny

A model of the account-registry secret contract (`secret_contracts/contract/src/lib.rs`):
an account is an id, a password and a 20-byte address (`H160`). The contract keeps accounts in an
encrypted key-value state under two kinds of key:

- an id key `"ID_" + id`, holding the account;
- an address key `"0x" + hex(address)`, holding the id bound to that address.

Callers authenticate by password or by a signature over a length-prefixed message. They can then
reset the password, the address, or (by signature) the id and the password.

Files and modules:

- `wrappers.dfy`, modules `Wrappers` and `Types`: `Option`, `Result` carrying the contract's error
  strings, `byte`, `Address` (exactly 20 bytes), and the signer-recovery oracle type `Recover`.
- `framing.dfy`, module `Framing`: `prepare_hash_multiple`. It is a method with a loop, proved equal to
  the specification function `Frame`. A decoder `Unframe` proves the framing injective.
- `keys.dfy`, module `Keys`: `make_id_string` and `make_address_string`, with decoders. These give
  injectivity and show that the id and address key namespaces never meet.
- `signature.dfy`, module `Signature`: `verify`, with recovery and Keccak-256 address derivation
  abstracted into the oracle.
- `registry.dfy`, module `Registry`: the `impl Contract` functions that only read the state, as
  functions over a `map<string, Entry>`. An `Entry` is either an `AccountEntry` or an `IdEntry`.
  `WriteAccount` is the state after `register_in_state`. `WellFormed` is the state invariant.
- `contract.dfy`, module `SecretAccount`: class `Contract`. Its `state` field is the store. Its
  methods are `register_in_state` and the `pub_*` interface.
- `properties.dfy`, module `RegistryProperties`: lemmas about what sequences of operations do to
  the store.

The model follows what the code does, quirks included. Each quirk below is a proved contract:

- Every mutating `pub_*` returns `true`.
- When the inner call fails, the public mutator writes the default account. This puts
  `"ID_"` → empty account and `"0x"` followed by forty `0`s → `""` (`DefaultWrite`).
- No operation removes an old id or address entry. After a password-authorised address change, the
  old address still resolves to the account (`ResetAddressLeavesStaleBinding`). After a signature
  reset, the old id still holds the old account with its old password (`ResetPassByAddrLeavesOldId`).
- `reset_address` does not check whether the new address is bound elsewhere. It simply rebinds it.
- An unknown id with an empty password is accepted by `authorize_by_pass`
  (`UnknownIdEmptyPassAccepted`). `reset_pass`, `reset_address` and `show_data` would then panic at
  their `unwrap`.

Further behaviour of the code that the model keeps:

- An unknown id is not denied. `authorize_by_pass` compares the supplied password with
  `Account::default()`'s empty one when the id key is absent (lib.rs:102).
- `reset_address` neither checks the new address nor removes the old binding (lib.rs:130-139).
- A signature shorter than 65 bytes panics at the slice (lib.rs:63), and a failed recovery panics at
  the `unwrap` (lib.rs:65). The model makes both preconditions (`Recoverable`).
- `pub_register` on a duplicate returns `true`, not `false` (lib.rs:224-228).

One exception: the signer comparison in `verify` (lib.rs:66) can never hold as written. The model
records that comparison as `Signature.VerifyAsWritten` and proves it always false. Everything else
uses the intended comparison, `Signature.Verify`; see "## Findings".

How the code's environment is represented:

- Panics are preconditions. The `unwrap`s at lib.rs:121, 133, 144 and 199 are the predicates
  `PassResolvable` and `AddressResolvable`.
- `read_state!` deserialises into the type asked for. A key holding the other kind of entry reads as
  absent (`ReadAccount`, `ReadId`). Because the two key namespaces are disjoint, `WellFormed` shows
  this never happens in states the contract writes.
- The recovery oracle is a parameter of the pure functions and a `const` field of the class.

## Model

| member | source | states |
|---|---|---|
| Framing.PrepareHashMultiple | secret_contracts/contract/src/lib.rs:42-53 | the loop's output, grown one part at a time (an 8-byte prefix, then the bytes), is exactly `Frame(messages)`; its length is Σ(8 + \|part\|); it decodes back to the parts |
| Framing.U64ToBeBytes | secret_contracts/contract/src/lib.rs:48 | `to_be_bytes` of the length is 8 bytes whose big-endian value is the length |
| Framing.FromBigEndianOfBigEndian | secret_contracts/contract/src/lib.rs:48 | big-endian encoding at any width is undone by big-endian decoding |
| Framing.Frame | secret_contracts/contract/src/lib.rs:42-53 | the framed message has length Σ(8 + \|part\|) over the parts |
| Framing.UnframeFrame | secret_contracts/contract/src/lib.rs:42-53 | the framing decodes back to exactly the parts, in order |
| Framing.FrameInjective | secret_contracts/contract/src/lib.rs:42-53 | two different part sequences never produce the same framed bytes |
| Framing.FrameSnoc | secret_contracts/contract/src/lib.rs:46-51 | framing one more part appends that part's prefix and bytes, as one loop iteration does |
| Keys.MakeIdString | secret_contracts/contract/src/lib.rs:70-75 | the id key is three characters longer than the id |
| Keys.IdKeyRoundTrip | secret_contracts/contract/src/lib.rs:70-75 | the id key is the prefix `"ID_"` followed by the id, and the id can be read back from it |
| Keys.IdKeyInjective | secret_contracts/contract/src/lib.rs:70-75 | different ids have different id keys |
| Keys.ToHex | secret_contracts/contract/src/lib.rs:79 | the hex string is two lower-case hex digits per byte |
| Keys.FromHexToHex | secret_contracts/contract/src/lib.rs:79 | the lower-case hex encoding decodes back to the bytes |
| Keys.MakeAddressString | secret_contracts/contract/src/lib.rs:78-82 | the address key is 42 characters long, and every character after `"0x"` is a hex digit |
| Keys.AddressKeyRoundTrip | secret_contracts/contract/src/lib.rs:78-82 | the address can be read back from its key |
| Keys.AddressKeyInjective | secret_contracts/contract/src/lib.rs:78-82 | different addresses have different address keys |
| Keys.KeyNamespacesDisjoint | secret_contracts/contract/src/lib.rs:70-82 | no id key is an address key, and no address key is an id key |
| Keys.ZeroAddressKey | secret_contracts/contract/src/lib.rs:78-82 | the default address's key is `"0x"` followed by forty `'0'`s |
| Signature.Message | secret_contracts/contract/src/lib.rs:60-61 | the signed message decodes to exactly [address bytes, label bytes]; its length is 36 plus the label's length |
| Signature.Verify | secret_contracts/contract/src/lib.rs:59-67 | true exactly when recovery over the framed message and the first 65 signature bytes yields the expected signer |
| Signature.VerifyAsWritten | secret_contracts/contract/src/lib.rs:59-67 | as written, comparing the 20-byte signer with the recovered key's 32-byte digest never holds: the result is always false |
| Signature.VerifyAsWrittenNeverAccepts | secret_contracts/contract/src/lib.rs:66 | for every recovery, the as-written `verify` rejects, including every signature the intended `Verify` accepts |
| Signature.VerifyAsWrittenCounterexample | secret_contracts/contract/src/lib.rs:66 | a concrete signature over the authentication message that `Verify` accepts and the as-written comparison rejects |
| Signature.VerifyIgnoresTrailingBytes | secret_contracts/contract/src/lib.rs:62-63 | signature bytes after the 65th never change the verdict |
| Signature.MessageInjective | secret_contracts/contract/src/lib.rs:60-61 | different (address, label) pairs give different signed messages |
| Signature.AuthMessageLayout | secret_contracts/contract/src/lib.rs:60-61 | the authentication message is `00..14`, the address, `00..15`, then "Authentication by you" |
| Registry.ReadAccount | secret_contracts/contract/src/lib.rs:155 | an account is read exactly when the key holds an account entry |
| Registry.ReadId | secret_contracts/contract/src/lib.rs:163 | an id is read exactly when the key holds an id entry |
| Registry.GetById | secret_contracts/contract/src/lib.rs:153-159 | found exactly when the id key holds an account, and that account is returned |
| Registry.GetByAddress | secret_contracts/contract/src/lib.rs:161-172 | found exactly when the address key holds an id whose id key holds an account, and that account is returned |
| Registry.IsExist | secret_contracts/contract/src/lib.rs:174-179 | true exactly when the id key holds an account |
| Registry.IsExistAddress | secret_contracts/contract/src/lib.rs:181-186 | true exactly when the address resolves to an account through its bound id |
| Registry.Register | secret_contracts/contract/src/lib.rs:88-99 | fails with "id is already used" exactly when the id key holds an account or the address resolves to one; otherwise it returns the new account (id, pass, address) |
| Registry.AuthorizeByPass | secret_contracts/contract/src/lib.rs:102-107 | for a stored id: Accept exactly when the stored pass equals the given one; for an unknown id: Accept exactly when the given pass is empty |
| Registry.AuthorizeByAddress | secret_contracts/contract/src/lib.rs:111-116 | Accept exactly when recovery over frame([address, "Authentication by you"]) and the first 65 signature bytes yields the address itself |
| Registry.ResetPass | secret_contracts/contract/src/lib.rs:118-128 | Ok exactly on Accept, and then the stored account with its id set to the queried id and its pass replaced; otherwise Err "Id or Pass is incorrect." |
| Registry.ResetAddress | secret_contracts/contract/src/lib.rs:130-139 | Ok exactly on Accept, and then the stored account with only its address replaced; otherwise Err |
| Registry.ResetPassByAddr | secret_contracts/contract/src/lib.rs:141-151 | Ok exactly on signature Accept, and then the account the address resolves to, with id and pass replaced and its stored address kept; otherwise Err |
| Registry.ShowData | secret_contracts/contract/src/lib.rs:196-204 | Some exactly on Accept, and then the stored (id, pass, address), whose pass is the one supplied |
| Registry.WriteAccount | secret_contracts/contract/src/lib.rs:188-194 | writes exactly two keys: the id key holds the account and the address key holds its id; every other key is unchanged, nothing is removed, and well-formedness is preserved |
| SecretAccount.Contract.RegisterInState | secret_contracts/contract/src/lib.rs:188-194 | the two `write_state!` calls leave the state equal to `WriteAccount(old state, account)` and keep the invariant |
| SecretAccount.Contract.PubRegister | secret_contracts/contract/src/lib.rs:224-228 | returns true; the new state is the old one with the registered account written, or the default account written when `register` fails |
| SecretAccount.Contract.PubAuthorizeByPass | secret_contracts/contract/src/lib.rs:231-236 | true exactly on Accept, which is the stored pass matching, or an empty pass for an unknown id |
| SecretAccount.Contract.PubAuthorizeByAddress | secret_contracts/contract/src/lib.rs:239-244 | true exactly when the framed authentication message and the first 65 signature bytes recover the address |
| SecretAccount.Contract.PubResetPass | secret_contracts/contract/src/lib.rs:247-251 | returns true; writes the password-reset account, or the default account on Deny |
| SecretAccount.Contract.PubResetAddress | secret_contracts/contract/src/lib.rs:254-258 | returns true; writes the address-reset account, or the default account on Deny |
| SecretAccount.Contract.PubResetPassByAddr | secret_contracts/contract/src/lib.rs:261-265 | returns true; writes the renamed account, or the default account on Deny |
| SecretAccount.Contract.PubShowData | secret_contracts/contract/src/lib.rs:268-270 | on Deny ("", "", zero address); on Accept the stored id, the supplied pass and the stored address |
| RegistryProperties.GetByIdCarriesId | secret_contracts/contract/src/lib.rs:188-194 | in a well-formed state the account found under an id has that id |
| RegistryProperties.IdKeyHoldsAccount | secret_contracts/contract/src/lib.rs:188-194 | in a well-formed state a present id key always holds an account |
| RegistryProperties.AddressResolvesIffBound | secret_contracts/contract/src/lib.rs:181-186 | in a well-formed state an address resolves exactly when its address key is present |
| RegistryProperties.RegisterFailsIffTaken | secret_contracts/contract/src/lib.rs:88-99 | in a well-formed state `register` fails exactly when the id key or the address key is present |
| RegistryProperties.RegisterThenAuthorize | secret_contracts/contract/src/lib.rs:224-228 | after a successful registration is written, the account is found by id and by address, and its password is accepted |
| RegistryProperties.RegisterTwiceFails | secret_contracts/contract/src/lib.rs:88-99 | once an account is written, registering its id again fails, and so does registering its address again |
| RegistryProperties.DefaultWrite | secret_contracts/contract/src/lib.rs:225-226 | the fallback write puts the default account under `"ID_"` and binds `"0x"` followed by forty `'0'`s to `""`; those two keys are the only ones added |
| RegistryProperties.DefaultWriteKeepsAccounts | secret_contracts/contract/src/lib.rs:225-226 | the fallback write after a rejected registration or reset leaves the account under any non-empty id as it was |
| RegistryProperties.UnknownIdEmptyPassAccepted | secret_contracts/contract/src/lib.rs:102-107 | for an unknown id, the empty password is accepted and every other password is denied; the later `unwrap` would then panic |
| RegistryProperties.ResetPassEffect | secret_contracts/contract/src/lib.rs:247-251 | after an accepted reset, the account has the new pass, the new pass is accepted, the old pass is denied when it differs, and the address still resolves to the account |
| RegistryProperties.ResetAddressLeavesStaleBinding | secret_contracts/contract/src/lib.rs:254-258 | after an accepted address reset, the new address resolves to the moved account, and so does the old address, whose stale binding is never removed |
| RegistryProperties.ResetPassByAddrLeavesOldId | secret_contracts/contract/src/lib.rs:261-265 | after an accepted signature reset, the new id and pass work and the address resolves to the new id; under a different old id, the old account and its old pass still work |
| RegistryProperties.AuthorizeByAddressIgnoresTrailingBytes | secret_contracts/contract/src/lib.rs:111-116 | only the first 65 signature bytes decide address authorisation |
| RegistryProperties.ShowDataDenied | secret_contracts/contract/src/lib.rs:268-270 | on Deny the public result is the default triple ("", "", zero address) |
| RegistryProperties.ShowDataAccepted | secret_contracts/contract/src/lib.rs:196-204 | on Accept in a well-formed state, the result is (queried id, supplied pass, stored address) |

## Left out

- ECDSA public-key recovery over secp256k1 (`KeyPair::recover`) and Keccak-256 are foreign code. They are one oracle, `Recover`, from (message, 65-byte signature) to an optional address.
- Signature.Verify: models the intended comparison of the signer with the address derived from the recovered key, not the code's comparison with the key's full 32-byte Keccak-256 digest (lib.rs:66). As written, `verify` never returns true. `authorize_by_address` then never accepts, `pub_authorize_by_address` always returns false, and every `pub_reset_pass_by_addr` writes the default account. The as-written comparison is `Signature.VerifyAsWritten` (see "## Findings").
- The encrypted store and the serde (de)serialisation behind `read_state!`/`write_state!` are external. The store is a map from string keys to typed entries, not to bytes.
- The `#[pub_interface]`/`#[no_mangle]` ABI and the wasm host calling convention are not part of this model.
- Concurrency and atomicity of the two writes in `register_in_state` are left out: each call runs to completion.
- `secretaccount_test/src/main.rs` and `secret_contracts/contract/src/accounts_simple_test.rs` are non-compiling drafts of the same contract. They are not part of this model.
- `test/test_simple_addition.js` is network I/O against a node. Its expectations, such as `false` for a duplicate registration, contradict the code and are not used.
- Signature.Verify: the label's UTF-8 encoding is modelled for ASCII labels only, because `verify` is only ever called with the ASCII label "Authentication by you".
- Framing.PrepareHashMultiple: part lengths are required to fit in a `u64` (`Fits`). On the 32-bit wasm target a `usize` length always fits, so `as u64` never truncates.

## Findings

| source | as written | input that shows it | evidently intended | confidence | as-written member | corrected member |
|---|---|---|---|---|---|---|
| secret_contracts/contract/src/lib.rs:66 | `*signer == *accepted_pubkey.keccak256()` compares the 20 bytes of an `H160` with a 32-byte digest, so it is never true | any signature with a successful recovery, e.g. one whose recovered signer is the zero address, checked against the zero address | compare the signer with the address derived from the recovered key | not executed | Signature.VerifyAsWrittenNeverAccepts | Signature.Verify |
