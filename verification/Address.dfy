/** Printing and reading addresses (html/js/cn_util.js). Hashing and the curve are arbitrary functions on byte strings. */
module Address {
  import opened JsText
  import opened Options
  import opened Varint
  import Base58
  import Base58Decode

  type bytes32 = b: seq<byte> | |b| == 32 witness seq(32, _ => 0)

  datatype Crypto = Crypto(
    keccak: seq<byte> -> bytes32,
    scReduce32: bytes32 -> bytes32,
    scalarMultBase: bytes32 -> bytes32)

  // The three address prefixes of a network.
  datatype Config = Config(address: nat, integrated: nat, subaddress: nat)

  // What decode_address returns.
  datatype Keys = Keys(spend: string, view: string, intPaymentId: Option<string>)

  const MAINNET := Config(18, 19, 42)
  const TESTNET := Config(53, 54, 63)
  const STAGENET := Config(24, 25, 36)

  // encode_varint of a prefix
  function Prefix(p: nat): (h: string)
    ensures |h| == 2 * |VarintBytes(p)|
  {
    HexOf(VarintBytes(p))
  }

  // valid_hex: as many hexadecimal digits in a row as the string has characters
  predicate ValidHex(s: string) {
    forall i | 0 <= i < |s| :: IsHex(s[i])
  }

  // cn_fast_hash
  function CnFastHash(input: string, c: Crypto): (r: Result<string>)
    ensures r.Ok? <==> |input| % 2 == 0 && ValidHex(input)
    ensures r.Ok? ==> |r.value| == 64 && r.value == HexOf(c.keccak(BytesOf(input)))
    ensures r.Err? ==> r.error == InvalidInput
  {
    if |input| % 2 != 0 || !ValidHex(input) then Err(InvalidInput) else Ok(HexOf(c.keccak(BytesOf(input))))
  }

  // data with its checksum, in Base58: the end of pubkeys_to_string and get_account_integrated_address
  function Print(data: string, c: Crypto): Result<string> {
    var checksum :- CnFastHash(data, c);
    Base58.Encode(data + Slice(checksum, 0, 8))
  }

  // pubkeys_to_string
  function PubkeysToString(spend: string, view: string, net: Config, c: Crypto): Result<string> {
    Print(Prefix(net.address) + spend + view, c)
  }

  // get_account_integrated_address
  function GetAccountIntegratedAddress(address: string, paymentId8: string, net: Config, c: Crypto): Result<string> {
    var decoded :- DecodeAddress(address, net, c);
    Print(Prefix(net.integrated) + decoded.spend + decoded.view + paymentId8, c)
  }

  // decode_address
  function DecodeAddress(address: string, net: Config, c: Crypto): Result<Keys> {
    var dec :- Base58Decode.Decode(address);
    DecodePayload(dec, net, c)
  }

  // decode_address, from the hexadecimal string on
  function DecodePayload(dec: string, net: Config, c: Crypto): Result<Keys> {
    var expectedPrefix := Prefix(net.address);
    var prefix := Slice(dec, 0, |expectedPrefix|);
    if prefix != expectedPrefix && prefix != Prefix(net.integrated) && prefix != Prefix(net.subaddress) then
      Err(InvalidAddressPrefix)
    else
      ReadKeys(prefix, Slice(dec, |expectedPrefix|, |dec|), prefix == Prefix(net.integrated), c)
  }

  // decode_address, from the text behind the prefix on
  function ReadKeys(prefix: string, dec: string, integrated: bool, c: Crypto): Result<Keys> {
    var spend, view := Slice(dec, 0, 64), Slice(dec, 64, 128);
    var intPaymentId := if integrated then Slice(dec, 128, 144) else "";
    var checksum := if integrated then Slice(dec, 144, 152) else Slice(dec, 128, 136);
    var hash :- CnFastHash(prefix + spend + view + intPaymentId, c);
    if checksum != Slice(hash, 0, 8) then Err(InvalidChecksum)
    else Ok(Keys(spend, view, if intPaymentId == "" then None else Some(intPaymentId)))
  }

  // ---------- which strings are addresses ----------

  // The hashed part of an address.
  function Data(prefix: string, k: Keys): string {
    prefix + k.spend + k.view + if k.intPaymentId.Some? then k.intPaymentId.value else ""
  }

  // The hashed part and the first four bytes of its hash behind it.
  function Sealed(data: string, c: Crypto): string {
    match CnFastHash(data, c)
    case Ok(hash) => data + hash[..8]
    case Err(_) => data
  }

  // The keys have their full sizes.
  predicate Complete(k: Keys, integrated: bool) {
    && |k.spend| == 64 && |k.view| == 64
    && k.intPaymentId.Some? == integrated
    && (integrated ==> |k.intPaymentId.value| == 16)
  }

  // prefix announces this kind of address.
  predicate Announces(prefix: string, k: Keys, net: Config) {
    && Complete(k, prefix == Prefix(net.integrated))
    && |prefix| == |Prefix(net.address)|
    && (prefix == Prefix(net.address) || prefix == Prefix(net.integrated) || prefix == Prefix(net.subaddress))
  }

  ghost predicate Carries(dec: string, k: Keys, net: Config, c: Crypto) {
    exists prefix :: Announces(prefix, k, net) && Sealed(Data(prefix, k), c) <= dec
  }

  // A decoded text is read as the keys k exactly when it starts with a prefix announcing them, k itself and the
  // checksum of both; what follows is ignored.
  lemma Acceptance(dec: string, k: Keys, net: Config, c: Crypto)
    requires |dec| % 2 == 0 && LowerHex(dec)
    ensures DecodePayload(dec, net, c) == Ok(k) <==> Carries(dec, k, net, c)
  {
    if DecodePayload(dec, net, c) == Ok(k) {
      ReadIsCarried(dec, k, net, c);
    }
    if prefix :| Announces(prefix, k, net) && Sealed(Data(prefix, k), c) <= dec {
      CarriedIsRead(dec, prefix, k, net, c);
    }
  }

  lemma ReadKeysFound(prefix: string, rest: string, integrated: bool, c: Crypto, k: Keys)
    requires ReadKeys(prefix, rest, integrated, c) == Ok(k)
    ensures Complete(k, integrated) && Sealed(Data(prefix, k), c) <= prefix + rest && rest != ""
  {
    hide HexOf, BytesOf, ValidHex;
    var data := Data(prefix, k);
    var hash := CnFastHash(data, c).value;
    var size := if integrated then 144 else 128;
    assert |rest| >= size + 8;
    assert data + hash[..8] == (prefix + rest)[..|data| + 8];
  }

  lemma ReadIsCarried(dec: string, k: Keys, net: Config, c: Crypto)
    requires DecodePayload(dec, net, c) == Ok(k)
    ensures |Prefix(net.address)| <= |dec| && Announces(dec[..|Prefix(net.address)|], k, net)
    ensures Sealed(Data(dec[..|Prefix(net.address)|], k), c) <= dec
  {
    hide HexOf, BytesOf, Prefix, VarintBytes, ValidHex, ReadKeys, CnFastHash, Sealed, Complete;
    var n := |Prefix(net.address)|;
    var prefix, rest := Slice(dec, 0, n), Slice(dec, n, |dec|);
    ReadKeysFound(prefix, rest, prefix == Prefix(net.integrated), c, k);
  }

  lemma EvenSum(x: nat, y: nat)
    ensures (2 * x + 2 * y) % 2 == 0
  {
  }

  lemma DataIsHashed(prefix: string, k: Keys, net: Config, c: Crypto)
    requires LowerHex(Data(prefix, k)) && Announces(prefix, k, net)
    ensures CnFastHash(Data(prefix, k), c).Ok?
  {
    hide HexOf, BytesOf, VarintBytes;
    EvenSum(|VarintBytes(net.address)|, if k.intPaymentId.Some? then 72 else 64);
  }

  // The slices of ReadKeys find the pieces.
  lemma Pieces(spend: string, view: string, id: string, checksum: string, tail: string)
    requires |spend| == 64 && |view| == 64 && |checksum| == 8
    ensures var dec := spend + view + id + checksum + tail;
            && Slice(dec, 0, 64) == spend && Slice(dec, 64, 128) == view
            && Slice(dec, 128, 128 + |id|) == id && Slice(dec, 128 + |id|, 136 + |id|) == checksum
  {
    var dec := spend + view + id + checksum + tail;
    assert dec[64..] == view + id + checksum + tail;
    assert dec[128..] == id + checksum + tail;
    assert dec[128 + |id|..] == checksum + tail;
  }

  lemma SealedKeysRead(prefix: string, k: Keys, integrated: bool, tail: string, c: Crypto)
    requires Complete(k, integrated) && CnFastHash(Data(prefix, k), c).Ok?
    ensures var dec := Sealed(Data(prefix, k), c) + tail;
            |dec| >= |prefix| && prefix == dec[..|prefix|] && ReadKeys(prefix, dec[|prefix|..], integrated, c) == Ok(k)
  {
    hide HexOf, BytesOf, ValidHex;
    var hash := CnFastHash(Data(prefix, k), c).value;
    var id := if integrated then k.intPaymentId.value else "";
    var checksum := Slice(hash, 0, 8);
    var rest := k.spend + k.view + id + checksum + tail;
    assert Sealed(Data(prefix, k), c) + tail == prefix + rest;
    hide Slice, Sealed, CnFastHash;
    Pieces(k.spend, k.view, id, checksum, tail);
    assert (prefix + rest)[|prefix|..] == rest;
  }

  lemma SealedIsLower(data: string, dec: string, c: Crypto)
    requires LowerHex(dec) && Sealed(data, c) <= dec
    ensures LowerHex(data)
  {
    hide IsLowerHex, HexOf, BytesOf, CnFastHash;
    assert forall i | 0 <= i < |data| :: data[i] == dec[i];
  }

  lemma CarriedIsRead(dec: string, prefix: string, k: Keys, net: Config, c: Crypto)
    requires LowerHex(dec)
    requires Announces(prefix, k, net) && Sealed(Data(prefix, k), c) <= dec
    ensures DecodePayload(dec, net, c) == Ok(k)
  {
    hide HexOf, BytesOf, Prefix, VarintBytes, ValidHex, LowerHex, ReadKeys, CnFastHash, Sealed, Complete, Data;
    var sealed := Sealed(Data(prefix, k), c);
    SealedIsLower(Data(prefix, k), dec, c);
    DataIsHashed(prefix, k, net, c);
    assert dec == sealed + dec[|sealed|..];
    SealedKeysRead(prefix, k, prefix == Prefix(net.integrated), dec[|sealed|..], c);
    assert Slice(dec, 0, |prefix|) == prefix && Slice(dec, |prefix|, |dec|) == dec[|prefix|..];
  }

  // A decoded text that is refused is refused for its prefix exactly when it does not begin with one of the three, cut to
  // the length of the address prefix; every other refusal is about the checksum.
  lemma Refusals(dec: string, net: Config, c: Crypto)
    requires |dec| % 2 == 0 && LowerHex(dec)
    ensures var prefix := Slice(dec, 0, |Prefix(net.address)|);
            var known := prefix == Prefix(net.address) || prefix == Prefix(net.integrated) || prefix == Prefix(net.subaddress);
            match DecodePayload(dec, net, c)
            case Ok(_) => known
            case Err(e) => e == if known then InvalidChecksum else InvalidAddressPrefix
  {
    hide HexOf, BytesOf, VarintBytes, IsHex, IsLowerHex, Slice, Prefix;
    var n := |Prefix(net.address)|;
    var prefix, rest := Slice(dec, 0, n), Slice(dec, n, |dec|);
    EvenSlice(dec, 0, |VarintBytes(net.address)|);
    EvenSlice(dec, |VarintBytes(net.address)|, |dec| / 2);
    ReadKeysRefuses(prefix, rest, prefix == Prefix(net.integrated), c);
  }

  // What decode_address throws: what decoding the text throws, or one of these two.
  lemma AddressErrors(address: string, net: Config, c: Crypto)
    ensures match Base58Decode.Decode(address)
            case Err(e) => DecodeAddress(address, net, c) == Err(e)
            case Ok(dec) =>
              var prefix := Slice(dec, 0, |Prefix(net.address)|);
              var known := prefix == Prefix(net.address) || prefix == Prefix(net.integrated) || prefix == Prefix(net.subaddress);
              DecodeAddress(address, net, c).Ok?
              || DecodeAddress(address, net, c) == Err(if known then InvalidChecksum else InvalidAddressPrefix)
  {
    hide Slice, Prefix, DecodePayload, Base58Decode.Decode, LowerHex;
    if Base58Decode.Decode(address).Ok? {
      DecodedIsLowerHex(address);
      Refusals(Base58Decode.Decode(address).value, net, c);
    }
  }

  lemma EvenSlice(s: string, from: nat, to: nat)
    requires |s| % 2 == 0 && LowerHex(s)
    ensures |Slice(s, 2 * from, 2 * to)| % 2 == 0 && LowerHex(Slice(s, 2 * from, 2 * to))
  {
    var n := |s| / 2;
    assert |s| == 2 * n;
    var r := Slice(s, 2 * from, 2 * to);
    assert |r| == if from >= n || to <= from then 0 else 2 * (if to < n then to - from else n - from);
    assert r != "" ==> forall i | 0 <= i < |r| :: r[i] == s[2 * from + i];
  }

  lemma ReadKeysRefuses(prefix: string, rest: string, integrated: bool, c: Crypto)
    requires |prefix| % 2 == 0 && |rest| % 2 == 0 && LowerHex(prefix) && LowerHex(rest)
    ensures var r := ReadKeys(prefix, rest, integrated, c);
            r.Ok? || r.error == InvalidChecksum
  {
    hide HexOf, BytesOf, IsHex, IsLowerHex, Slice;
    EvenSlice(rest, 0, 32);
    EvenSlice(rest, 32, 64);
    EvenSlice(rest, 64, 72);
    var spend, view, id := Slice(rest, 0, 64), Slice(rest, 64, 128), if integrated then Slice(rest, 128, 144) else "";
    HashableSum(prefix, spend, c);
    HashableSum(prefix + spend, view, c);
    HashableSum(prefix + spend + view, id, c);
  }

  lemma HashableSum(a: string, b: string, c: Crypto)
    requires |a| % 2 == 0 && |b| % 2 == 0 && LowerHex(a) && LowerHex(b)
    ensures |a + b| % 2 == 0 && LowerHex(a + b) && CnFastHash(a + b, c).Ok?
  {
    hide HexOf, BytesOf;
  }

  // ---------- printing and reading ----------

  // The same bytes in lower-case digits, for a text that denotes bytes.
  function Lower(h: string): (l: string)
    ensures |l| == |h|
  {
    if |h| % 2 == 0 then HexOf(BytesOf(h)) else h
  }

  lemma LowerConcat(a: string, b: string)
    requires |a| % 2 == 0 && |b| % 2 == 0
    ensures |a + b| % 2 == 0 && Lower(a + b) == Lower(a) + Lower(b)
  {
    hide HexOf, BytesOf;
    BytesOfConcat(a, b);
    HexOfConcat(BytesOf(a), BytesOf(b));
  }

  // The hash does not see the case of its input.
  lemma HashOfLower(data: string, c: Crypto)
    requires CnFastHash(data, c).Ok?
    ensures CnFastHash(Lower(data), c) == CnFastHash(data, c)
  {
    hide HexOf, BytesOf;
    BytesOfHexOf(BytesOf(data));
    HexOfIsLower(BytesOf(data));
  }

  // A text that decode reads back as what was hashed, in lower case, and its checksum.
  lemma PrintedReads(data: string, c: Crypto)
    requires CnFastHash(data, c).Ok?
    ensures Print(data, c).Ok? && Base58Decode.Decode(Print(data, c).value) == Ok(Sealed(Lower(data), c))
    ensures LowerHex(Sealed(Lower(data), c)) && |Sealed(Lower(data), c)| % 2 == 0
  {
    hide HexOf, BytesOf, Base58.EncodedBytes, Base58Decode.DecodedBytes, ValidHex;
    var hash := CnFastHash(data, c).value;
    var checksum := hash[..8];
    HexOfIsLower(c.keccak(BytesOf(data)));
    HexOfBytesOf(checksum);
    LowerConcat(data, checksum);
    Base58Decode.RoundTrip(data + checksum);
    HashOfLower(data, c);
    HexOfIsLower(BytesOf(data + checksum));
  }

  lemma LowerHexIsValid(h: string)
    requires LowerHex(h)
    ensures ValidHex(h)
  {
  }

  lemma LowerOfPrefix(p: nat)
    ensures |Prefix(p)| % 2 == 0 && ValidHex(Prefix(p)) && Lower(Prefix(p)) == Prefix(p)
  {
    hide HexOf, BytesOf, VarintBytes;
    EvenSum(|VarintBytes(p)|, 0);
    HexOfIsLower(VarintBytes(p));
    BytesOfHexOf(VarintBytes(p));
  }

  lemma PrefixInjective(p: nat, q: nat)
    requires Prefix(p) == Prefix(q)
    ensures p == q
  {
    hide HexOf, BytesOf, VarintBytes;
    BytesOfHexOf(VarintBytes(p));
    BytesOfHexOf(VarintBytes(q));
    PrefixFree(p, q);
  }

  predicate IsKey(h: string) {
    |h| == 64 && ValidHex(h)
  }

  // What is printed behind a prefix for the keys k decodes to k in lower case, sealed.
  lemma PrintedKeysRead(p: nat, spend: string, view: string, id: string, c: Crypto)
    requires IsKey(spend) && IsKey(view) && |id| % 2 == 0 && ValidHex(id)
    ensures var r := Print(Prefix(p) + spend + view + id, c);
            var dec := Prefix(p) + Lower(spend) + Lower(view) + Lower(id);
            && CnFastHash(Prefix(p) + spend + view + id, c).Ok?
            && r.Ok? && Base58Decode.Decode(r.value) == Ok(Sealed(dec, c))
            && LowerHex(Sealed(dec, c)) && |Sealed(dec, c)| % 2 == 0
  {
    hide Lower, Prefix, Print, Sealed, Base58Decode.Decode, LowerHex, IsHex;
    LowerOfPrefix(p);
    LowerConcat(Prefix(p), spend);
    LowerConcat(Prefix(p) + spend, view);
    LowerConcat(Prefix(p) + spend + view, id);
    PrintedReads(Prefix(p) + spend + view + id, c);
  }

  // decode_address gives back the keys that pubkeys_to_string printed, in lower case, exactly when the address prefix
  // differs from the integrated one.
  lemma AddressRoundTrip(spend: string, view: string, net: Config, c: Crypto)
    requires IsKey(spend) && IsKey(view)
    ensures var r := PubkeysToString(spend, view, net, c);
            && r.Ok?
            && (DecodeAddress(r.value, net, c) == Ok(Keys(Lower(spend), Lower(view), None)) <==> net.address != net.integrated)
  {
    hide Lower, Prefix, Print, Sealed, Base58Decode.Decode, LowerHex, IsHex, DecodePayload;
    var prefix, k := Prefix(net.address), Keys(Lower(spend), Lower(view), None);
    PrintedKeysRead(net.address, spend, view, "", c);
    assert Lower("") == "" && prefix + spend + view + "" == prefix + spend + view;
    var dec := Sealed(Data(prefix, k), c);
    if net.address != net.integrated {
      if prefix == Prefix(net.integrated) {
        PrefixInjective(net.address, net.integrated);
      }
      CarriedIsRead(dec, prefix, k, net, c);
    } else if DecodePayload(dec, net, c) == Ok(k) {
      ReadIsCarried(dec, k, net, c);
      SealedBegins(Data(prefix, k), prefix, c);
    }
  }

  // ---------- the bytes of an address ----------

  // The text of a payload and the first four bytes of its hash.
  function TextOf(payload: seq<byte>, c: Crypto): string {
    Base58.StringOf(Base58.EncodedBytes(payload + c.keccak(payload)[..4]))
  }

  lemma ChecksumBytes(hash: bytes32)
    ensures HexOf(hash)[..8] == HexOf(hash[..4])
  {
    hide HexOf;
    assert hash == hash[..4] + hash[4..];
    HexOfConcat(hash[..4], hash[4..]);
  }

  lemma PrintedText(data: string, c: Crypto)
    requires CnFastHash(data, c).Ok?
    ensures Print(data, c) == Ok(TextOf(BytesOf(data), c))
  {
    hide HexOf, BytesOf, ValidHex, Base58.EncodedBytes;
    var hash := c.keccak(BytesOf(data));
    ChecksumBytes(hash);
    BytesOfHexOf(hash[..4]);
    BytesOfConcat(data, HexOf(hash[..4]));
  }

  lemma DataBytes(p: nat, spend: string, view: string, id: string)
    requires IsKey(spend) && IsKey(view) && |id| % 2 == 0
    ensures var data := Prefix(p) + spend + view + id;
            |data| % 2 == 0 && BytesOf(data) == VarintBytes(p) + BytesOf(spend) + BytesOf(view) + BytesOf(id)
  {
    hide HexOf, BytesOf, VarintBytes, ValidHex;
    LowerOfPrefix(p);
    BytesOfHexOf(VarintBytes(p));
    BytesOfConcat(Prefix(p), spend);
    BytesOfConcat(Prefix(p) + spend, view);
    BytesOfConcat(Prefix(p) + spend + view, id);
  }

  // A standard address is the Base58 text of the prefix, the spend key, the view key, and four bytes of their hash.
  lemma AddressBytes(spend: string, view: string, net: Config, c: Crypto)
    requires IsKey(spend) && IsKey(view)
    ensures PubkeysToString(spend, view, net, c) == Ok(TextOf(VarintBytes(net.address) + BytesOf(spend) + BytesOf(view), c))
  {
    hide HexOf, BytesOf, VarintBytes, IsHex, Prefix, Print, TextOf, Base58Decode.Decode, Lower;
    PrintedKeysRead(net.address, spend, view, "", c);
    DataBytes(net.address, spend, view, "");
    assert Prefix(net.address) + spend + view + "" == Prefix(net.address) + spend + view;
    PrintedText(Prefix(net.address) + spend + view, c);
    assert BytesOf("") == [];
    var bytes := VarintBytes(net.address) + BytesOf(spend) + BytesOf(view);
    assert bytes + [] == bytes;
  }

  // pubkeys_to_string refuses exactly the keys that are not hexadecimal text of an even length together.
  lemma PrintRefuses(spend: string, view: string, net: Config, c: Crypto)
    ensures var hashable := |spend + view| % 2 == 0 && ValidHex(spend) && ValidHex(view);
            && (PubkeysToString(spend, view, net, c).Ok? <==> hashable)
            && (!hashable ==> PubkeysToString(spend, view, net, c) == Err(InvalidInput))
  {
    hide HexOf, BytesOf, VarintBytes, IsHex, Prefix, TextOf;
    var data := Prefix(net.address) + spend + view;
    LowerOfPrefix(net.address);
    SumParity(|Prefix(net.address)|, |spend + view|);
    assert data == Prefix(net.address) + (spend + view);
    ValidParts(Prefix(net.address), spend + view);
    ValidParts(spend, view);
    if CnFastHash(data, c).Ok? {
      hide CnFastHash, Print;
      PrintedText(data, c);
    }
  }

  lemma SumParity(x: nat, y: nat)
    requires x % 2 == 0
    ensures (x + y) % 2 == y % 2
  {
  }

  lemma ValidParts(a: string, b: string)
    ensures ValidHex(a + b) <==> ValidHex(a) && ValidHex(b)
  {
    hide IsHex;
    var s := a + b;
    assert forall i | 0 <= i < |a| :: a[i] == s[i];
    assert forall i | 0 <= i < |b| :: b[i] == s[|a| + i];
  }

  // An integrated address has the payment id behind the keys.
  lemma IntegratedBytes(address: string, paymentId8: string, net: Config, c: Crypto)
    requires |paymentId8| == 16 && ValidHex(paymentId8)
    ensures match DecodeAddress(address, net, c)
            case Err(e) => GetAccountIntegratedAddress(address, paymentId8, net, c) == Err(e)
            case Ok(d) =>
              |d.spend| == |d.view| == 64
              && GetAccountIntegratedAddress(address, paymentId8, net, c)
                 == Ok(TextOf(VarintBytes(net.integrated) + BytesOf(d.spend) + BytesOf(d.view) + BytesOf(paymentId8), c))
  {
    hide HexOf, BytesOf, VarintBytes, IsHex, Prefix, Print, TextOf, Base58Decode.Decode, DecodePayload, Lower;
    if DecodeAddress(address, net, c).Ok? {
      var d := DecodeAddress(address, net, c).value;
      AcceptedKeys(address, net, c);
      PrintedKeysRead(net.integrated, d.spend, d.view, paymentId8, c);
      DataBytes(net.integrated, d.spend, d.view, paymentId8);
      PrintedText(Prefix(net.integrated) + d.spend + d.view + paymentId8, c);
    }
  }

  lemma TextSize(payload: seq<byte>, c: Crypto)
    ensures |payload| == 65 ==> |TextOf(payload, c)| == 95
    ensures |payload| == 73 ==> |TextOf(payload, c)| == 106
  {
    hide Base58.EncodedBytes;
    Base58.AddressLengths(payload + c.keccak(payload)[..4]);
  }

  // With one-byte prefixes standard addresses have 95 characters and integrated ones 106.
  lemma AddressSize(spend: string, view: string, net: Config, c: Crypto)
    requires IsKey(spend) && IsKey(view) && net.address < 128
    ensures PubkeysToString(spend, view, net, c).Ok? && |PubkeysToString(spend, view, net, c).value| == 95
  {
    hide BytesOf, PubkeysToString, TextOf, ValidHex;
    AddressBytes(spend, view, net, c);
    TextSize(VarintBytes(net.address) + BytesOf(spend) + BytesOf(view), c);
  }

  lemma IntegratedSize(address: string, paymentId8: string, net: Config, c: Crypto)
    requires |paymentId8| == 16 && ValidHex(paymentId8) && net.integrated < 128
    ensures var r := GetAccountIntegratedAddress(address, paymentId8, net, c);
            r.Ok? ==> |r.value| == 106
  {
    hide BytesOf, GetAccountIntegratedAddress, DecodeAddress, TextOf, ValidHex;
    IntegratedBytes(address, paymentId8, net, c);
    if DecodeAddress(address, net, c).Ok? {
      var d := DecodeAddress(address, net, c).value;
      TextSize(VarintBytes(net.integrated) + BytesOf(d.spend) + BytesOf(d.view) + BytesOf(paymentId8), c);
    }
  }

  lemma SealedBegins(data: string, prefix: string, c: Crypto)
    requires prefix <= data
    ensures |prefix| <= |Sealed(data, c)| && Sealed(data, c)[..|prefix|] == prefix
  {
  }

  lemma DecodedIsLowerHex(s: string)
    requires Base58Decode.Decode(s).Ok?
    ensures LowerHex(Base58Decode.Decode(s).value) && |Base58Decode.Decode(s).value| % 2 == 0
  {
    hide HexOf, Base58Decode.DecodedBytes, LowerHex, Base58Decode.CodesOf;
    HexOfIsLower(Base58Decode.DecodedBytes(Base58Decode.CodesOf(s)).value);
  }

  // The integrated address made of any address that decode_address accepts gives back its keys and the payment id,
  // in lower case, exactly when both prefixes take up equally many bytes.
  lemma IntegratedRoundTrip(address: string, paymentId8: string, net: Config, c: Crypto)
    requires |paymentId8| == 16 && ValidHex(paymentId8)
    ensures var d, r := DecodeAddress(address, net, c), GetAccountIntegratedAddress(address, paymentId8, net, c);
            && (d.Ok? <==> r.Ok?)
            && (r.Ok? ==>
                  (DecodeAddress(r.value, net, c) == Ok(Keys(d.value.spend, d.value.view, Some(Lower(paymentId8))))
                   <==> |Prefix(net.address)| == |Prefix(net.integrated)|))
  {
    hide Lower, Prefix, Print, Sealed, Base58Decode.Decode, LowerHex, IsHex, DecodePayload;
    if DecodeAddress(address, net, c).Ok? {
      var d := DecodeAddress(address, net, c).value;
      AcceptedKeys(address, net, c);
      PrintedKeysRead(net.integrated, d.spend, d.view, paymentId8, c);
      var prefix, k := Prefix(net.integrated), Keys(d.spend, d.view, Some(Lower(paymentId8)));
      var dec := Sealed(Data(prefix, k), c);
      if |Prefix(net.address)| == |prefix| {
        CarriedIsRead(dec, prefix, k, net, c);
      } else if DecodePayload(dec, net, c) == Ok(k) {
        ReadIsCarried(dec, k, net, c);
      }
    }
  }

  // The keys of an accepted address are complete and in lower case.
  lemma AcceptedKeys(address: string, net: Config, c: Crypto)
    ensures match DecodeAddress(address, net, c)
            case Err(_) => true
            case Ok(d) => IsKey(d.spend) && IsKey(d.view) && Lower(d.spend) == d.spend && Lower(d.view) == d.view
  {
    hide HexOf, BytesOf, Prefix, IsHex, Base58Decode.Decode, DecodePayload, IsLowerHex;
    if DecodeAddress(address, net, c).Err? {
      return;
    }
    var dec, k := Base58Decode.Decode(address).value, DecodeAddress(address, net, c).value;
    DecodedIsLowerHex(address);
    ReadIsCarried(dec, k, net, c);
    var prefix := dec[..|Prefix(net.address)|];
    SealedIsLower(Data(prefix, k), dec, c);
    var id := if k.intPaymentId.Some? then k.intPaymentId.value else "";
    assert prefix + k.spend + (k.view + id) == Data(prefix, k);
    KeyIsLower(prefix, k.spend, k.view + id);
    KeyIsLower(prefix + k.spend, k.view, id);
  }

  lemma KeyIsLower(before: string, key: string, behind: string)
    requires LowerHex(before + key + behind) && |key| == 64
    ensures IsKey(key) && Lower(key) == key
  {
    hide HexOf, BytesOf;
    var all := before + key + behind;
    assert forall i | 0 <= i < 64 :: key[i] == all[|before| + i];
    LowerHexIsValid(key);
    HexOfBytesOf(key);
  }

  // Printing the keys of an accepted address gives that address back exactly when it is a standard address with nothing
  // behind the checksum, and its text is one that encode prints.
  lemma Reprinted(s: string, net: Config, c: Crypto)
    ensures match DecodeAddress(s, net, c)
            case Err(_) => true
            case Ok(k) =>
              var dec := Base58Decode.Decode(s).value;
              PubkeysToString(k.spend, k.view, net, c) == Ok(s)
              <==> Prefix(net.address) <= dec && |dec| == |Prefix(net.address)| + 136 && Canonical(s)
  {
    hide Lower, Prefix, Base58Decode.Decode, LowerHex, IsHex, DecodePayload, HexOf, BytesOf, Base58.Encode, Print, Canonical;
    if DecodeAddress(s, net, c).Ok? {
      var k, dec := DecodeAddress(s, net, c).value, Base58Decode.Decode(s).value;
      var prefix := Prefix(net.address);
      AcceptedKeys(s, net, c);
      PrintedKeysRead(net.address, k.spend, k.view, "", c);
      assert Lower("") == "" && prefix + k.spend + k.view + "" == prefix + k.spend + k.view;
      PrintIsEncode(prefix + k.spend + k.view, c);
      SameText(Sealed(prefix + k.spend + k.view, c), s);
      WholeText(prefix, k, dec, net, c);
    }
  }

  // encode prints this text.
  ghost predicate Canonical(s: string) {
    !Base58Decode.HasMaximalBlock(Base58Decode.CodesOf(s)) && forall i | 0 <= i < |s| :: s[i] as int < 256
  }

  lemma SameText(hex: string, s: string)
    requires |hex| % 2 == 0 && LowerHex(hex) && Base58Decode.Decode(s).Ok?
    ensures Base58.Encode(hex) == Ok(s) <==> hex == Base58Decode.Decode(s).value && Canonical(s)
  {
    hide LowerHex, Base58Decode.Decode, Base58Decode.HasMaximalBlock, Base58.EncodedBytes, BytesOf;
    Base58Decode.RoundTrip(hex);
    Base58Decode.Canonicity(s);
  }

  lemma WholeText(prefix: string, k: Keys, dec: string, net: Config, c: Crypto)
    requires DecodePayload(dec, net, c) == Ok(k) && prefix == Prefix(net.address)
    requires CnFastHash(prefix + k.spend + k.view, c).Ok?
    ensures Sealed(prefix + k.spend + k.view, c) == dec <==> prefix <= dec && |dec| == |prefix| + 136
  {
    hide Prefix, HexOf, BytesOf, ValidHex, DecodePayload;
    ReadIsCarried(dec, k, net, c);
    var data := prefix + k.spend + k.view;
    SealedBegins(data, prefix, c);
    if prefix <= dec && |dec| == |prefix| + 136 {
      assert dec[..|prefix|] == prefix;
      assert k.intPaymentId == None;
      assert Data(prefix, k) == data;
      assert |Sealed(data, c)| == |dec|;
    }
  }

  lemma PrintIsEncode(data: string, c: Crypto)
    requires CnFastHash(data, c).Ok?
    ensures |Sealed(data, c)| == |data| + 8
    ensures Print(data, c) == Base58.Encode(Sealed(data, c))
  {
  }

  // Bytes behind the checksum do not change what decode_address returns.
  lemma TrailingBytesIgnored(s: string, tail: string, net: Config, c: Crypto)
    requires |tail| % 2 == 0 && LowerHex(tail)
    ensures DecodeAddress(s, net, c).Ok? ==>
              var longer := Base58.Encode(Base58Decode.Decode(s).value + tail);
              longer.Ok? && DecodeAddress(longer.value, net, c) == DecodeAddress(s, net, c)
  {
    hide HexOf, BytesOf, Prefix, Sealed, IsLowerHex, Base58Decode.Decode, DecodePayload, Base58.EncodedBytes, Announces;
    if DecodeAddress(s, net, c).Ok? {
      var k, dec := DecodeAddress(s, net, c).value, Base58Decode.Decode(s).value;
      DecodedIsLowerHex(s);
      Base58Decode.RoundTrip(dec + tail);
      ReadIsCarried(dec, k, net, c);
      var prefix := dec[..|Prefix(net.address)|];
      CarriedIsRead(dec + tail, prefix, k, net, c);
    }
  }

  // ---------- addresses from seeds ----------

  datatype KeyPair = KeyPair(sec: string, pub: string)

  datatype Account = Account(spend: KeyPair, view: KeyPair, publicAddr: string)

  // generate_keys, with sc_reduce32 and sec_key_to_pub
  function GenerateKeys(seed: string, c: Crypto): (r: Result<KeyPair>)
    ensures r.Ok? <==> |seed| == 64
    ensures r.Ok? ==> LowerHex(r.value.sec) && LowerHex(r.value.pub) && |r.value.sec| == |r.value.pub| == 64
    ensures r.Ok? ==> BytesOf(r.value.sec) == c.scReduce32(BytesOf(seed))
                      && BytesOf(r.value.pub) == c.scalarMultBase(c.scReduce32(BytesOf(seed)))
  {
    if |seed| != 64 then Err(InvalidInputLength)
    else
      var sec := c.scReduce32(BytesOf(seed));
      BytesOfHexOf(sec);
      BytesOfHexOf(c.scalarMultBase(sec));
      HexOfIsLower(sec);
      HexOfIsLower(c.scalarMultBase(sec));
      Ok(KeyPair(HexOf(sec), HexOf(c.scalarMultBase(sec))))
  }

  // create_address
  function CreateAddress(seed: string, net: Config, c: Crypto): Result<Account> {
    var first :- if |seed| != 64 then CnFastHash(seed, c) else Ok(seed);
    var spend :- GenerateKeys(first, c);
    var second :- if |seed| != 64 then CnFastHash(first, c) else CnFastHash(spend.sec, c);
    var view :- GenerateKeys(second, c);
    var publicAddr :- PubkeysToString(spend.pub, view.pub, net, c);
    Ok(Account(spend, view, publicAddr))
  }

  // create_addr_prefix
  function CreateAddrPrefix(seed: string, net: Config, c: Crypto): Result<string> {
    var first :- if |seed| != 64 then CnFastHash(seed, c) else Ok(seed);
    var spend :- GenerateKeys(first, c);
    var text :- Base58.Encode(Prefix(net.address) + spend.pub);
    Ok(Slice(text, 0, 44))
  }

  // The first four full blocks of a text depend on the first 32 bytes only.
  lemma FirstBlocks(hex: string, tail: string)
    requires |hex| >= 64 && |hex| % 2 == 0 && |tail| % 2 == 0
    ensures var text, longer := Base58.Encode(hex), Base58.Encode(hex + tail);
            && text.Ok? && longer.Ok?
            && |text.value| >= 44 && |longer.value| >= 44 && Slice(text.value, 0, 44) == longer.value[..44]
  {
    hide HexOf, BytesOf, Base58.EncodedBytes;
    var first, rest := hex[..64], hex[64..];
    assert hex == first + rest && hex + tail == first + (rest + tail);
    BytesOfConcat(first, rest);
    BytesOfConcat(first, rest + tail);
    Base58.EncodedBytesConcat(BytesOf(first), BytesOf(rest), 4);
    Base58.EncodedBytesConcat(BytesOf(first), BytesOf(rest + tail), 4);
    Base58.EncodedLength(BytesOf(first), 4);
  }

  lemma KeysPrint(spend: string, view: string, net: Config, c: Crypto)
    requires LowerHex(spend) && LowerHex(view) && |spend| == |view| == 64
    ensures var hex := Prefix(net.address) + spend;
            && |Sealed(hex + view, c)| == |hex| + 72 && hex <= Sealed(hex + view, c)
            && PubkeysToString(spend, view, net, c).Ok?
            && PubkeysToString(spend, view, net, c) == Base58.Encode(Sealed(hex + view, c))
  {
    hide HexOf, BytesOf, Prefix, IsHex, IsLowerHex, Base58.Encode, Base58Decode.Decode, Print;
    var hex := Prefix(net.address) + spend;
    LowerHexIsValid(spend);
    LowerHexIsValid(view);
    PrintedKeysRead(net.address, spend, view, "", c);
    assert hex + view + "" == hex + view;
    PrintIsEncode(hex + view, c);
    SealedBegins(hex + view, hex, c);
    assert hex == Sealed(hex + view, c)[..|hex|];
  }

  lemma HashIsHashed(h: string, c: Crypto)
    requires |h| == 64 && LowerHex(h)
    ensures CnFastHash(h, c).Ok?
  {
  }

  lemma HashIsLower(input: string, c: Crypto)
    requires CnFastHash(input, c).Ok?
    ensures LowerHex(CnFastHash(input, c).value)
  {
    hide HexOf, BytesOf, ValidHex;
    HexOfIsLower(c.keccak(BytesOf(input)));
  }

  // create_address throws only what hashing its seed throws.
  lemma Created(seed: string, net: Config, c: Crypto)
    ensures var first := if |seed| != 64 then CnFastHash(seed, c) else Ok(seed);
            match CreateAddress(seed, net, c)
            case Err(e) => first == Err(e)
            case Ok(a) =>
              && first.Ok? && GenerateKeys(first.value, c) == Ok(a.spend)
              && LowerHex(a.spend.pub) && LowerHex(a.view.pub) && |a.spend.pub| == |a.view.pub| == 64
              && PubkeysToString(a.spend.pub, a.view.pub, net, c) == Ok(a.publicAddr)
  {
    hide HexOf, BytesOf, ValidHex, PubkeysToString, Base58.Encode, Sealed, IsLowerHex, LowerHex, GenerateKeys;
    var first := if |seed| != 64 then CnFastHash(seed, c) else Ok(seed);
    if first.Ok? {
      if |seed| != 64 {
        HashIsLower(seed, c);
        HashIsHashed(first.value, c);
      }
      var spend := GenerateKeys(first.value, c).value;
      HashIsHashed(spend.sec, c);
      var second := if |seed| != 64 then CnFastHash(first.value, c) else CnFastHash(spend.sec, c);
      var view := GenerateKeys(second.value, c).value;
      KeysPrint(spend.pub, view.pub, net, c);
    }
  }

  // create_addr_prefix predicts the first 44 characters of the address that create_address makes from the same seed, and
  // throws what create_address throws.
  lemma PrefixAgreement(seed: string, net: Config, c: Crypto)
    ensures match CreateAddress(seed, net, c)
            case Ok(account) => |account.publicAddr| >= 44 && CreateAddrPrefix(seed, net, c) == Ok(account.publicAddr[..44])
            case Err(e) => CreateAddrPrefix(seed, net, c) == Err(e)
  {
    Created(seed, net, c);
    hide HexOf, BytesOf, Prefix, ValidHex, Base58.Encode, PubkeysToString, Slice, Sealed, Lower, LowerHex, CnFastHash;
    hide CreateAddress, GenerateKeys;
    match CreateAddress(seed, net, c)
    case Err(_) =>
    case Ok(a) =>
      var hex := Prefix(net.address) + a.spend.pub;
      KeysPrint(a.spend.pub, a.view.pub, net, c);
      LowerOfPrefix(net.address);
      var sealed := Sealed(hex + a.view.pub, c);
      assert sealed == hex + sealed[|hex|..];
      FirstBlocks(hex, sealed[|hex|..]);
  }

  // create_address fails only on seeds that are neither 64 characters long nor hexadecimal text; its address decodes
  // to the public keys it came with unless the network's standard and integrated prefixes are the same.
  lemma CreatedAddressReads(seed: string, net: Config, c: Crypto)
    ensures CreateAddress(seed, net, c).Ok? <==> |seed| == 64 || (|seed| % 2 == 0 && ValidHex(seed))
    ensures match CreateAddress(seed, net, c)
            case Err(_) => true
            case Ok(a) => DecodeAddress(a.publicAddr, net, c) == Ok(Keys(a.spend.pub, a.view.pub, None))
                          <==> net.address != net.integrated
  {
    Created(seed, net, c);
    hide HexOf, BytesOf, ValidHex, PubkeysToString, LowerHex, CreateAddress, GenerateKeys, DecodeAddress;
    match CreateAddress(seed, net, c)
    case Err(_) =>
    case Ok(a) =>
      LowerHexIsValid(a.spend.pub);
      LowerHexIsValid(a.view.pub);
      HexOfBytesOf(a.spend.pub);
      HexOfBytesOf(a.view.pub);
      AddressRoundTrip(a.spend.pub, a.view.pub, net, c);
  }

  // The account of a seed, byte by byte: the spend secret is the reduced seed or hash of the seed; the view secret is the
  // reduced hash of the spend secret for a 64-character seed, and of the hash of the seed for any other.
  lemma CreatedKeys(seed: string, net: Config, c: Crypto)
    ensures match CreateAddress(seed, net, c)
            case Err(_) => true
            case Ok(a) =>
              && |a.spend.sec| == |a.spend.pub| == |a.view.sec| == |a.view.pub| == 64 && |seed| % 2 == 0
              && BytesOf(a.spend.sec) == c.scReduce32(if |seed| == 64 then BytesOf(seed) else c.keccak(BytesOf(seed)))
              && BytesOf(a.view.sec)
                 == c.scReduce32(c.keccak(if |seed| == 64 then c.scReduce32(BytesOf(seed)) else c.keccak(BytesOf(seed))))
              && BytesOf(a.spend.pub) == c.scalarMultBase(BytesOf(a.spend.sec))
              && BytesOf(a.view.pub) == c.scalarMultBase(BytesOf(a.view.sec))
  {
    hide HexOf, BytesOf, ValidHex, LowerHex, IsLowerHex, PubkeysToString;
    if CreateAddress(seed, net, c).Err? {
      return;
    }
    if |seed| != 64 {
      BytesOfHexOf(c.keccak(BytesOf(seed)));
      BytesOfHexOf(c.keccak(c.keccak(BytesOf(seed))));
    } else {
      BytesOfHexOf(c.keccak(c.scReduce32(BytesOf(seed))));
    }
  }

  // The spend secret of an account made from a 64-character seed is itself a seed of that account, when reducing a reduced
  // scalar changes nothing.
  lemma RestoredFromSpendKey(seed: string, net: Config, c: Crypto)
    requires |seed| == 64
    ensures var a := CreateAddress(seed, net, c);
            && a.Ok?
            && var sec := c.scReduce32(BytesOf(seed));
               (c.scReduce32(sec) == sec ==> CreateAddress(a.value.spend.sec, net, c) == a)
  {
    hide HexOf, BytesOf, ValidHex, LowerHex, IsLowerHex, CnFastHash, GenerateKeys, PubkeysToString;
    Created(seed, net, c);
    KeysAgain(seed, c);
  }

  lemma KeysAgain(seed: string, c: Crypto)
    requires |seed| == 64
    ensures var sec := c.scReduce32(BytesOf(seed));
            c.scReduce32(sec) == sec ==> GenerateKeys(GenerateKeys(seed, c).value.sec, c) == GenerateKeys(seed, c)
  {
    BytesOfHexOf(c.scReduce32(BytesOf(seed)));
    hide HexOf, BytesOf, LowerHex;
  }

  // The prefixes of the three networks meet what the round trips ask for.
  lemma NetworkPrefixes(net: Config)
    requires net in {MAINNET, TESTNET, STAGENET}
    ensures net.address != net.integrated && net.address != net.subaddress && net.integrated != net.subaddress
    ensures |Prefix(net.address)| == |Prefix(net.integrated)| == |Prefix(net.subaddress)| == 2
  {
  }
}
