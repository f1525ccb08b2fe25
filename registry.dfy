/**
 * The private `impl Contract` functions that only read the store: lookups,
 * existence checks, registration, the two authorisations, the three resets
 * (which return a changed copy, never write) and `show_data`. The store is
 * a map from string keys to typed entries; the one write, `register_in_state`,
 * is WriteAccount here and a method of the Contract class.
 */
module Registry {
  import opened Wrappers
  import opened Types
  import opened Keys
  import opened Signature

  /** `Account`; `Account::default()` is DefaultAccount. */
  datatype Account = Account(id: string, pass: string, currentAddress: Address)

  const DefaultAccount: Account := Account("", "", ZeroAddress)

  /** What a key holds: an account (under an id key) or an id (under an address key). */
  datatype Entry = AccountEntry(account: Account) | IdEntry(id: string)

  /** The contract's encrypted state, behind `read_state!` and `write_state!`. */
  type State = map<string, Entry>

  /** `Authorize`. */
  datatype Authorize = Accept | Deny

  /** `AccountInfo = (Id, Pass, H160)`. */
  type AccountInfo = (string, string, Address)

  const DefaultInfo: AccountInfo := ("", "", ZeroAddress)

  const ALREADY_USED: string := "id is already used"
  const INCORRECT: string := "Id or Pass is incorrect."

  /**
   * The state's shape: an account is stored under the id key of its own id,
   * an id under an address key, and every bound id has an id-key entry.
   */
  ghost predicate WellFormed(st: State)
  {
    forall k :: k in st ==>
      match st[k]
      case AccountEntry(acc) => k == MakeIdString(acc.id)
      case IdEntry(id) => AddressOfKey(k).Some? && MakeIdString(id) in st
  }

  /** `read_state!(key)` read as an Account: a missing key or an id reads as None. */
  function ReadAccount(st: State, key: string): (r: Option<Account>)
    ensures r.Some? <==> key in st && st[key].AccountEntry?
    ensures r.Some? ==> st[key] == AccountEntry(r.value)
  {
    if key in st && st[key].AccountEntry? then Some(st[key].account) else None
  }

  /** `read_state!(key)` read as an Id. */
  function ReadId(st: State, key: string): (r: Option<string>)
    ensures r.Some? <==> key in st && st[key].IdEntry?
    ensures r.Some? ==> st[key] == IdEntry(r.value)
  {
    if key in st && st[key].IdEntry? then Some(st[key].id) else None
  }

  /** `get_by_id`. */
  function GetById(st: State, id: string): (r: Option<Account>)
    ensures r.Some? <==> MakeIdString(id) in st && st[MakeIdString(id)].AccountEntry?
    ensures r.Some? ==> st[MakeIdString(id)] == AccountEntry(r.value)
  {
    ReadAccount(st, MakeIdString(id))
  }

  /** `get_by_address`: the bound id, then that id's account. */
  function GetByAddress(st: State, address: Address): (r: Option<Account>)
    ensures r.Some? <==> ReadId(st, MakeAddressString(address)).Some?
                         && GetById(st, ReadId(st, MakeAddressString(address)).value).Some?
    ensures r.Some? ==> r == GetById(st, ReadId(st, MakeAddressString(address)).value)
  {
    match ReadId(st, MakeAddressString(address))
    case Some(id) => GetById(st, id)
    case None => None
  }

  /** `is_exist`. */
  function IsExist(st: State, id: string): (b: bool)
    ensures b <==> MakeIdString(id) in st && st[MakeIdString(id)].AccountEntry?
  {
    GetById(st, id).Some?
  }

  /** `is_exist_address`. */
  function IsExistAddress(st: State, address: Address): (b: bool)
    ensures b <==> ReadId(st, MakeAddressString(address)).Some?
                   && IsExist(st, ReadId(st, MakeAddressString(address)).value)
  {
    GetByAddress(st, address).Some?
  }

  /**
   * `register`: checks only; writes nothing. It fails exactly when the id
   * key holds an account or the address key names an id that has one.
   */
  function Register(st: State, id: string, pass: string, address: Address): (r: Result<Account>)
    ensures r.Err? <==> (MakeIdString(id) in st && st[MakeIdString(id)].AccountEntry?)
                        || GetByAddress(st, address).Some?
    ensures r.Err? ==> r.msg == ALREADY_USED
    ensures r.Ok? ==> r.value == Account(id, pass, address)
  {
    if IsExist(st, id) || IsExistAddress(st, address) then Err(ALREADY_USED)
    else Ok(Account(id, pass, address))
  }

  /**
   * `authorize_by_pass`: the stored pass, or the default account's empty
   * pass when the id is unknown, must equal the supplied one.
   */
  function AuthorizeByPass(st: State, id: string, pass: string): (a: Authorize)
    ensures IsExist(st, id) ==> (a == Accept <==> st[MakeIdString(id)].account.pass == pass)
    ensures !IsExist(st, id) ==> (a == Accept <==> pass == "")
  {
    if GetById(st, id).GetOr(DefaultAccount).pass == pass then Accept else Deny
  }

  /** What `authorize_by_address` needs in order not to panic inside `verify`. */
  predicate AddressAuthorizable(recover: Recover, address: Address, sig: seq<byte>)
  {
    Recoverable(recover, address, AUTH_MOTION, sig)
  }

  /**
   * `authorize_by_address`: accepted exactly when recovery over the framed
   * (address, "Authentication by you") message and the first 65 signature
   * bytes yields the address itself.
   */
  function AuthorizeByAddress(recover: Recover, address: Address, sig: seq<byte>): (a: Authorize)
    requires AddressAuthorizable(recover, address, sig)
    ensures a == Accept <==>
      recover(Message(address, AUTH_MOTION), sig[..SIGNATURE_LENGTH]) == Some(address)
  {
    if Verify(recover, address, address, AUTH_MOTION, sig) then Accept else Deny
  }

  /** The `unwrap` after an accepted password check finds an account. */
  predicate PassResolvable(st: State, id: string, pass: string)
  {
    AuthorizeByPass(st, id, pass) == Accept ==> IsExist(st, id)
  }

  /** `reset_pass`: on Accept, the stored account with its id set to the queried id and its pass replaced. */
  function ResetPass(st: State, id: string, pass: string, newPass: string): (r: Result<Account>)
    requires PassResolvable(st, id, pass)
    ensures r.Ok? <==> AuthorizeByPass(st, id, pass) == Accept
    ensures r.Err? ==> r.msg == INCORRECT
    ensures r.Ok? ==> r.value == Account(id, newPass, st[MakeIdString(id)].account.currentAddress)
  {
    match AuthorizeByPass(st, id, pass)
    case Accept =>
      var account := GetById(st, id).value;
      Ok(account.(id := id, pass := newPass))
    case Deny => Err(INCORRECT)
  }

  /** `reset_address`: on Accept, the stored account with only its address replaced. */
  function ResetAddress(st: State, id: string, pass: string, newAddress: Address): (r: Result<Account>)
    requires PassResolvable(st, id, pass)
    ensures r.Ok? <==> AuthorizeByPass(st, id, pass) == Accept
    ensures r.Err? ==> r.msg == INCORRECT
    ensures r.Ok? ==> r.value == st[MakeIdString(id)].account.(currentAddress := newAddress)
  {
    match AuthorizeByPass(st, id, pass)
    case Accept =>
      var account := GetById(st, id).value;
      Ok(account.(currentAddress := newAddress))
    case Deny => Err(INCORRECT)
  }

  /** What `reset_pass_by_addr` needs: no panic in `verify`, nor in its `unwrap`. */
  predicate AddressResolvable(recover: Recover, st: State, address: Address, sig: seq<byte>)
  {
    AddressAuthorizable(recover, address, sig)
    && (AuthorizeByAddress(recover, address, sig) == Accept ==> GetByAddress(st, address).Some?)
  }

  /**
   * `reset_pass_by_addr`: on Accept, the account the address resolves to,
   * with its id and pass replaced and its stored address kept.
   */
  function ResetPassByAddr(recover: Recover, st: State, address: Address, newId: string,
                           newPass: string, sig: seq<byte>): (r: Result<Account>)
    requires AddressResolvable(recover, st, address, sig)
    ensures r.Ok? <==> AuthorizeByAddress(recover, address, sig) == Accept
    ensures r.Err? ==> r.msg == INCORRECT
    ensures r.Ok? ==> r.value == Account(newId, newPass, GetByAddress(st, address).value.currentAddress)
  {
    match AuthorizeByAddress(recover, address, sig)
    case Accept =>
      var account := GetByAddress(st, address).value;
      Ok(account.(id := newId, pass := newPass))
    case Deny => Err(INCORRECT)
  }

  /** `show_data`: the stored triple on Accept, None on Deny. */
  function ShowData(st: State, id: string, pass: string): (r: Option<AccountInfo>)
    requires PassResolvable(st, id, pass)
    ensures r.Some? <==> AuthorizeByPass(st, id, pass) == Accept
    ensures r.Some? ==> r.value.1 == pass
    ensures r.Some? ==> r.value == (st[MakeIdString(id)].account.id, st[MakeIdString(id)].account.pass,
                                    st[MakeIdString(id)].account.currentAddress)
  {
    match AuthorizeByPass(st, id, pass)
    case Accept =>
      var account := GetById(st, id).value;
      Some((account.id, account.pass, account.currentAddress))
    case Deny => None
  }

  /**
   * The store after `register_in_state(account)`: the id key holds the
   * account, the address key holds its id, every other key is as before.
   */
  function WriteAccount(st: State, account: Account): (r: State)
    ensures r.Keys == st.Keys + {MakeIdString(account.id), MakeAddressString(account.currentAddress)}
    ensures r[MakeIdString(account.id)] == AccountEntry(account)
    ensures r[MakeAddressString(account.currentAddress)] == IdEntry(account.id)
    ensures forall k :: k in st && k != MakeIdString(account.id) &&
                          k != MakeAddressString(account.currentAddress) ==>
                          r[k] == st[k]
    ensures WellFormed(st) ==> WellFormed(r)
  {
    var idString := MakeIdString(account.id);
    var addressString := MakeAddressString(account.currentAddress);
    KeyNamespacesDisjoint(account.id, account.currentAddress);
    AddressKeyRoundTrip(account.currentAddress);
    st[idString := AccountEntry(account)][addressString := IdEntry(account.id)]
  }
}
