/**
 * The contract object: its encrypted state as one map field, written only
 * by `register_in_state`, and the public interface. Every public mutator
 * computes an account, falls back to the default account when that fails,
 * writes it with `register_in_state`, and returns true.
 */
module SecretAccount {
  import opened Wrappers
  import opened Types
  import opened Keys
  import opened Signature
  import opened Registry

  class Contract {
    /** The store behind `read_state!` / `write_state!`. */
    var state: State
    /** Signer recovery, supplied by the host's cryptography. */
    const recover: Recover

    ghost predicate Valid()
      reads this
    {
      WellFormed(state)
    }

    /** A fresh contract over an empty store. */
    constructor (recover: Recover)
      ensures Valid()
      ensures state == map[] && this.recover == recover
    {
      this.recover := recover;
      state := map[];
    }

    /** `register_in_state`: the id key, then the address key. */
    method RegisterInState(account: Account)
      requires Valid()
      modifies this
      ensures Valid()
      ensures state == WriteAccount(old(state), account)
    {
      var id := account.id;
      var idString := MakeIdString(account.id);
      var addressString := MakeAddressString(account.currentAddress);
      state := state[idString := AccountEntry(account)];
      state := state[addressString := IdEntry(id)];
      assert state == WriteAccount(old(state), account);
    }

    /** `pub_register`. */
    method PubRegister(id: string, pass: string, address: Address) returns (ok: bool)
      requires Valid()
      modifies this
      ensures Valid() && ok
      ensures state == WriteAccount(old(state), Register(old(state), id, pass, address).UnwrapOr(DefaultAccount))
    {
      var newAccount := Register(state, id, pass, address).UnwrapOr(DefaultAccount);
      RegisterInState(newAccount);
      return true;
    }

    /** `pub_authorize_by_pass`: ACCEPT is true, DENY false. */
    method PubAuthorizeByPass(id: string, pass: string) returns (ok: bool)
      ensures ok <==> AuthorizeByPass(state, id, pass) == Accept
      ensures IsExist(state, id) ==> (ok <==> state[MakeIdString(id)].account.pass == pass)
      ensures !IsExist(state, id) ==> (ok <==> pass == "")
    {
      match AuthorizeByPass(state, id, pass)
      case Accept => ok := true;
      case Deny => ok := false;
    }

    /** `pub_authorize_by_address`: ACCEPT is true, DENY false. */
    method PubAuthorizeByAddress(address: Address, sig: seq<byte>) returns (ok: bool)
      requires AddressAuthorizable(recover, address, sig)
      ensures ok <==> recover(Message(address, AUTH_MOTION), sig[..SIGNATURE_LENGTH]) == Some(address)
    {
      match AuthorizeByAddress(recover, address, sig)
      case Accept => ok := true;
      case Deny => ok := false;
    }

    /** `pub_reset_pass`. */
    method PubResetPass(id: string, pass: string, newPass: string) returns (ok: bool)
      requires Valid() && PassResolvable(state, id, pass)
      modifies this
      ensures Valid() && ok
      ensures state == WriteAccount(old(state), ResetPass(old(state), id, pass, newPass).UnwrapOr(DefaultAccount))
    {
      var newAccount := ResetPass(state, id, pass, newPass).UnwrapOr(DefaultAccount);
      RegisterInState(newAccount);
      return true;
    }

    /** `pub_reset_address`. */
    method PubResetAddress(id: string, pass: string, newAddress: Address) returns (ok: bool)
      requires Valid() && PassResolvable(state, id, pass)
      modifies this
      ensures Valid() && ok
      ensures state == WriteAccount(old(state), ResetAddress(old(state), id, pass, newAddress).UnwrapOr(DefaultAccount))
    {
      var newAccount := ResetAddress(state, id, pass, newAddress).UnwrapOr(DefaultAccount);
      RegisterInState(newAccount);
      return true;
    }

    /** `pub_reset_pass_by_addr`. */
    method PubResetPassByAddr(address: Address, newId: string, newPass: string, sig: seq<byte>) returns (ok: bool)
      requires Valid() && AddressResolvable(recover, state, address, sig)
      modifies this
      ensures Valid() && ok
      ensures state == WriteAccount(old(state),
                                    ResetPassByAddr(recover, old(state), address, newId, newPass, sig).UnwrapOr(DefaultAccount))
    {
      var newAccount := ResetPassByAddr(recover, state, address, newId, newPass, sig).UnwrapOr(DefaultAccount);
      RegisterInState(newAccount);
      return true;
    }

    /** `pub_show_data`: the stored triple, or ("", "", zero address) on DENY. */
    method PubShowData(id: string, pass: string) returns (info: AccountInfo)
      requires PassResolvable(state, id, pass)
      ensures AuthorizeByPass(state, id, pass) == Deny ==> info == ("", "", ZeroAddress)
      ensures AuthorizeByPass(state, id, pass) == Accept ==>
                info == (state[MakeIdString(id)].account.id, pass, state[MakeIdString(id)].account.currentAddress)
    {
      info := ShowData(state, id, pass).GetOr(DefaultInfo);
    }
  }
}
