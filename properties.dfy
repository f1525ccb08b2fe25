/**
 * What the registry's operations do to the store, stated over the pure
 * functions the Contract class's methods are specified by, quirks included:
 * failures write the default account, stale entries are never removed.
 */
module RegistryProperties {
  import opened Wrappers
  import opened Types
  import opened Keys
  import opened Signature
  import opened Registry

  /** In a well-formed state an account found under an id carries that id. */
  lemma GetByIdCarriesId(st: State, id: string)
    requires WellFormed(st) && GetById(st, id).Some?
    ensures GetById(st, id).value.id == id
  {
    var acc := GetById(st, id).value;
    assert MakeIdString(id) in st;
    IdKeyInjective(acc.id, id);
  }

  /** In a well-formed state an id key holds an account whenever it is present. */
  lemma IdKeyHoldsAccount(st: State, id: string)
    requires WellFormed(st) && MakeIdString(id) in st
    ensures IsExist(st, id)
  {
  }

  /** In a well-formed state an address resolves exactly when its key is present. */
  lemma AddressResolvesIffBound(st: State, address: Address)
    requires WellFormed(st)
    ensures IsExistAddress(st, address) <==> MakeAddressString(address) in st
  {
    var k := MakeAddressString(address);
    if k in st {
      match st[k]
      case AccountEntry(acc) =>
        KeyNamespacesDisjoint(acc.id, address);
        assert false;
      case IdEntry(id) =>
        IdKeyHoldsAccount(st, id);
    }
  }

  /**
   * In a well-formed state `register` fails exactly when the id key or the
   * address key is already taken.
   */
  lemma RegisterFailsIffTaken(st: State, id: string, pass: string, address: Address)
    requires WellFormed(st)
    ensures Register(st, id, pass, address).Err? <==>
              MakeIdString(id) in st || MakeAddressString(address) in st
  {
    AddressResolvesIffBound(st, address);
    if MakeIdString(id) in st { IdKeyHoldsAccount(st, id); }
  }

  /**
   * A successful registration, once written, is found through both its id
   * and its address, and its password is accepted.
   */
  lemma RegisterThenAuthorize(st: State, id: string, pass: string, address: Address)
    requires Register(st, id, pass, address).Ok?
    ensures var st' := WriteAccount(st, Register(st, id, pass, address).value);
            && GetById(st', id) == Some(Account(id, pass, address))
            && GetByAddress(st', address) == Some(Account(id, pass, address))
            && AuthorizeByPass(st', id, pass) == Accept
  {
  }

  /** Once an account is written, its id and its address can no longer register. */
  lemma RegisterTwiceFails(st: State, account: Account, pass: string, otherId: string, otherAddress: Address)
    ensures var st' := WriteAccount(st, account);
            && Register(st', account.id, pass, otherAddress).Err?
            && Register(st', otherId, pass, account.currentAddress).Err?
  {
  }

  /**
   * Writing the default account, which every failed public mutator does,
   * puts it under `"ID_"` and binds the zero-address key `"0x000…0"` to the
   * empty id; every other key keeps its entry.
   */
  lemma DefaultWrite(st: State)
    ensures MakeIdString("") == USER_ID
    ensures MakeAddressString(ZeroAddress) == ADDRESS_PREFIX + seq(40, _ => '0')
    ensures var st' := WriteAccount(st, DefaultAccount);
            && st'[USER_ID] == AccountEntry(DefaultAccount)
            && st'[ADDRESS_PREFIX + seq(40, _ => '0')] == IdEntry("")
            && st'.Keys == st.Keys + {USER_ID, ADDRESS_PREFIX + seq(40, _ => '0')}
  {
    ZeroAddressKey();
    assert MakeIdString("") == USER_ID;
  }

  /**
   * The fallback write of a rejected registration or reset overwrites nothing
   * but the default account's two keys: an account under a non-empty id
   * survives it.
   */
  lemma DefaultWriteKeepsAccounts(st: State, other: string)
    requires other != ""
    ensures GetById(WriteAccount(st, DefaultAccount), other) == GetById(st, other)
  {
    var k := MakeIdString(other);
    var st' := WriteAccount(st, DefaultAccount);
    assert |MakeIdString("")| < |k|;
    assert k[0] == 'I' && MakeAddressString(ZeroAddress)[0] == '0';
    assert k in st' <==> k in st;
    if k in st { assert st'[k] == st[k]; }
  }

  /** An unknown id with an empty password is accepted, and `reset_pass` would then panic. */
  lemma UnknownIdEmptyPassAccepted(st: State, id: string)
    requires !IsExist(st, id)
    ensures AuthorizeByPass(st, id, "") == Accept
    ensures !PassResolvable(st, id, "")
    ensures forall pass :: pass != "" ==> AuthorizeByPass(st, id, pass) == Deny
  {
  }

  /** After an accepted `pub_reset_pass` the new password works and a different old one does not. */
  lemma ResetPassEffect(st: State, id: string, pass: string, newPass: string)
    requires WellFormed(st) && PassResolvable(st, id, pass)
    requires AuthorizeByPass(st, id, pass) == Accept
    ensures var acc := GetById(st, id).value;
            var st' := WriteAccount(st, ResetPass(st, id, pass, newPass).value);
            && GetById(st', id) == Some(acc.(pass := newPass))
            && AuthorizeByPass(st', id, newPass) == Accept
            && (pass != newPass ==> AuthorizeByPass(st', id, pass) == Deny)
            && GetByAddress(st', acc.currentAddress) == Some(acc.(pass := newPass))
  {
    var acc := GetById(st, id).value;
    GetByIdCarriesId(st, id);
    var st' := WriteAccount(st, ResetPass(st, id, pass, newPass).value);
    assert ReadId(st', MakeAddressString(acc.currentAddress)) == Some(id);
  }

  /**
   * After an accepted `pub_reset_address` the new address resolves to the
   * account, whatever it was bound to before, and the old binding is left in
   * place: the old address still resolves to the account, which now names the
   * new address.
   */
  lemma ResetAddressLeavesStaleBinding(st: State, id: string, pass: string, newAddress: Address)
    requires WellFormed(st) && PassResolvable(st, id, pass)
    requires AuthorizeByPass(st, id, pass) == Accept
    requires ReadId(st, MakeAddressString(GetById(st, id).value.currentAddress)) == Some(id)
    ensures var acc := GetById(st, id).value;
            var moved := acc.(currentAddress := newAddress);
            var st' := WriteAccount(st, ResetAddress(st, id, pass, newAddress).value);
            && GetById(st', id) == Some(moved)
            && GetByAddress(st', newAddress) == Some(moved)
            && GetByAddress(st', acc.currentAddress) == Some(moved)
  {
  }

  /**
   * After an accepted `pub_reset_pass_by_addr` the new id and password work,
   * and the account under the old id is left in place with its old password.
   */
  lemma ResetPassByAddrLeavesOldId(recover: Recover, st: State, address: Address, newId: string,
                                   newPass: string, sig: seq<byte>)
    requires WellFormed(st) && AddressResolvable(recover, st, address, sig)
    requires AuthorizeByAddress(recover, address, sig) == Accept
    ensures var acc := GetByAddress(st, address).value;
            var renamed := Account(newId, newPass, acc.currentAddress);
            var st' := WriteAccount(st, ResetPassByAddr(recover, st, address, newId, newPass, sig).value);
            && GetById(st', newId) == Some(renamed)
            && AuthorizeByPass(st', newId, newPass) == Accept
            && GetByAddress(st', acc.currentAddress) == Some(renamed)
            && (newId != acc.id ==>
                  GetById(st', acc.id) == Some(acc) && AuthorizeByPass(st', acc.id, acc.pass) == Accept)
  {
    var acc := GetByAddress(st, address).value;
    var boundId := ReadId(st, MakeAddressString(address)).value;
    GetByIdCarriesId(st, boundId);
    var renamed := Account(newId, newPass, acc.currentAddress);
    var st' := WriteAccount(st, renamed);
    assert ReadId(st', MakeAddressString(acc.currentAddress)) == Some(newId);
    if newId != acc.id {
      var k := MakeIdString(acc.id);
      assert k != MakeIdString(newId) by {
        if k == MakeIdString(newId) { IdKeyInjective(acc.id, newId); }
      }
      KeyNamespacesDisjoint(acc.id, acc.currentAddress);
      assert st'[k] == st[k];
    }
  }

  /** Only the first 65 signature bytes decide `authorize_by_address`. */
  lemma AuthorizeByAddressIgnoresTrailingBytes(recover: Recover, address: Address, sig: seq<byte>, extra: seq<byte>)
    requires AddressAuthorizable(recover, address, sig)
    ensures AddressAuthorizable(recover, address, sig + extra)
    ensures AuthorizeByAddress(recover, address, sig + extra) == AuthorizeByAddress(recover, address, sig)
  {
    VerifyIgnoresTrailingBytes(recover, address, address, AUTH_MOTION, sig, extra);
  }

  /** On DENY, `show_data` reveals nothing: `pub_show_data` gives the default triple. */
  lemma ShowDataDenied(st: State, id: string, pass: string)
    requires PassResolvable(st, id, pass) && AuthorizeByPass(st, id, pass) == Deny
    ensures ShowData(st, id, pass).GetOr(DefaultInfo) == ("", "", ZeroAddress)
  {
  }

  /** On ACCEPT in a well-formed state, `show_data` returns the queried id and password. */
  lemma ShowDataAccepted(st: State, id: string, pass: string)
    requires WellFormed(st) && PassResolvable(st, id, pass) && AuthorizeByPass(st, id, pass) == Accept
    ensures ShowData(st, id, pass) == Some((id, pass, GetById(st, id).value.currentAddress))
  {
    GetByIdCarriesId(st, id);
  }
}
