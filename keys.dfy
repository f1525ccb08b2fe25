/**
 * Storage keys. An account lives under `"ID_" + id`; the id bound to an
 * address lives under `"0x"` followed by the address in lower-case hex.
 */
module Keys {
  import opened Wrappers
  import opened Types

  /** `USER_ID`, the id-namespace prefix. */
  const USER_ID: string := "ID_"

  /** The address-namespace prefix added by `make_address_string`. */
  const ADDRESS_PREFIX: string := "0x"

  /** Length of an address key: the prefix and two hex digits per byte. */
  const ADDRESS_KEY_LENGTH: nat := 42

  /** `make_id_string`. */
  function MakeIdString(id: string): (key: string)
    ensures |key| == |USER_ID| + |id|
  {
    USER_ID + id
  }

  /** The id an id key was made from, if the key is one. */
  function IdOfKey(key: string): Option<string>
  {
    if |key| >= |USER_ID| && key[..|USER_ID|] == USER_ID then Some(key[|USER_ID|..]) else None
  }

  lemma IdKeyRoundTrip(id: string)
    ensures IdOfKey(MakeIdString(id)) == Some(id)
  {
  }

  lemma IdKeyInjective(a: string, b: string)
    requires MakeIdString(a) == MakeIdString(b)
    ensures a == b
  {
    IdKeyRoundTrip(a);
    IdKeyRoundTrip(b);
  }

  predicate IsHexDigit(c: char)
  {
    ('0' <= c <= '9') || ('a' <= c <= 'f')
  }

  /** The lower-case hex digit for a nibble, as `rustc_hex::ToHex` writes it. */
  function HexDigit(n: nat): (c: char)
    requires n < 16
    ensures IsHexDigit(c)
  {
    if n < 10 then ('0' as int + n) as char else ('a' as int + n - 10) as char
  }

  /** The nibble a lower-case hex digit stands for. */
  function DigitValue(c: char): (r: Option<nat>)
    ensures r.Some? <==> IsHexDigit(c)
    ensures r.Some? ==> r.value < 16
  {
    if '0' <= c <= '9' then Some(c as int - '0' as int)
    else if 'a' <= c <= 'f' then Some(c as int - 'a' as int + 10)
    else None
  }

  lemma DigitValueOfHexDigit(n: nat)
    requires n < 16
    ensures DigitValue(HexDigit(n)) == Some(n)
  {
  }

  /** `ToHex::to_hex`: two digits per byte, high nibble first. */
  function ToHex(bytes: seq<byte>): (s: string)
    ensures |s| == 2 * |bytes|
    ensures forall i :: 0 <= i < |s| ==> IsHexDigit(s[i])
  {
    if bytes == [] then ""
    else [HexDigit(bytes[0] as nat / 16), HexDigit(bytes[0] as nat % 16)] + ToHex(bytes[1..])
  }

  /** Reads a hex string back into bytes; None if it is not one. */
  function FromHex(s: string): Option<seq<byte>>
    decreases |s|
  {
    if s == "" then Some([])
    else if |s| == 1 then None
    else
      match (DigitValue(s[0]), DigitValue(s[1]), FromHex(s[2..]))
      case (Some(h), Some(l), Some(rest)) => Some([(h * 16 + l) as byte] + rest)
      case _ => None
  }

  lemma {:induction false} FromHexToHex(bytes: seq<byte>)
    ensures FromHex(ToHex(bytes)) == Some(bytes)
  {
    if bytes != [] {
      var b := bytes[0] as nat;
      var s := ToHex(bytes);
      DigitValueOfHexDigit(b / 16);
      DigitValueOfHexDigit(b % 16);
      assert s[2..] == ToHex(bytes[1..]);
      FromHexToHex(bytes[1..]);
      assert [bytes[0]] + bytes[1..] == bytes;
    }
  }

  /** `make_address_string`. */
  function MakeAddressString(address: Address): (key: string)
    ensures |key| == ADDRESS_KEY_LENGTH
    ensures forall i :: |ADDRESS_PREFIX| <= i < |key| ==> IsHexDigit(key[i])
  {
    ADDRESS_PREFIX + ToHex(address)
  }

  /** The address an address key was made from, if the key is one. */
  function AddressOfKey(key: string): Option<Address>
  {
    if |key| == ADDRESS_KEY_LENGTH && key[..|ADDRESS_PREFIX|] == ADDRESS_PREFIX then
      match FromHex(key[|ADDRESS_PREFIX|..])
      case Some(bytes) =>
        if |bytes| == ADDRESS_LENGTH then var a: Address := bytes; Some(a) else None
      case None => None
    else None
  }

  lemma AddressKeyRoundTrip(address: Address)
    ensures AddressOfKey(MakeAddressString(address)) == Some(address)
  {
    var key := MakeAddressString(address);
    assert key[..|ADDRESS_PREFIX|] == ADDRESS_PREFIX;
    assert key[|ADDRESS_PREFIX|..] == ToHex(address);
    FromHexToHex(address);
  }

  lemma AddressKeyInjective(a: Address, b: Address)
    requires MakeAddressString(a) == MakeAddressString(b)
    ensures a == b
  {
    AddressKeyRoundTrip(a);
    AddressKeyRoundTrip(b);
  }

  /** No id key is an address key, and no address key is an id key. */
  lemma KeyNamespacesDisjoint(id: string, address: Address)
    ensures AddressOfKey(MakeIdString(id)) == None
    ensures IdOfKey(MakeAddressString(address)) == None
    ensures MakeIdString(id) != MakeAddressString(address)
  {
    var ik := MakeIdString(id);
    var ak := MakeAddressString(address);
    assert ik[0] == 'I';
    assert ak[0] == '0';
    assert ik[..|ADDRESS_PREFIX|][0] == 'I';
    assert ak[..|USER_ID|][0] == '0';
  }

  /** The all-zero bytes are written as all-`'0'` digits. */
  lemma {:induction false} ToHexOfZeros(n: nat)
    ensures ToHex(seq(n, _ => 0)) == seq(2 * n, _ => '0')
  {
    if n > 0 {
      var z: seq<byte> := seq(n, _ => 0);
      assert z[1..] == seq(n - 1, _ => 0);
      ToHexOfZeros(n - 1);
      assert ToHex(z) == ['0', '0'] + seq(2 * (n - 1), _ => '0');
    }
  }

  /** The key of the default (all-zero) address: `"0x"` and forty `'0'`s. */
  lemma ZeroAddressKey()
    ensures MakeAddressString(ZeroAddress) == ADDRESS_PREFIX + seq(40, _ => '0')
  {
    var zeros: seq<byte> := seq(ADDRESS_LENGTH, _ => 0);
    assert ZeroAddress == zeros;
    ToHexOfZeros(ADDRESS_LENGTH);
  }
}
