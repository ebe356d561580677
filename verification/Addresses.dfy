/** Base58Check text and the two address formats (crypto/addresses.py). */
module Addresses {
  import opened Prelude
  import opened Arith
  import opened Models
  import opened Pow

  const ADDRESS_VERSION: byte := 0x1C
  const PQ_ADDRESS_VERSION: byte := 0x50
  const PREFIX := "CHC"
  const PQ_PREFIX := "CHCQ"

  type Digest32 = b: Bytes | |b| == 32 witness ZERO_HASH

  /** `double_sha256`. */
  type DoubleSha = Bytes -> Digest32

  // ---- digits ----

  /** `123456789ABCDEFGHJKLMNPQRSTUVWXYZabcdefghijkmnopqrstuvwxyz` by its six runs of consecutive characters. */
  function Digit(d: nat): (c: char)
    requires d < 58
    ensures Index(c) == d
  {
    if d < 9 then '1' + d as char
    else if d < 17 then 'A' + (d - 9) as char
    else if d < 22 then 'J' + (d - 17) as char
    else if d < 33 then 'P' + (d - 22) as char
    else if d < 44 then 'a' + (d - 33) as char
    else 'm' + (d - 44) as char
  }

  /** The position of a character in the alphabet, -1 when it is not there. */
  function Index(c: char): (d: int)
    ensures -1 <= d < 58
  {
    if '1' <= c <= '9' then c as int - '1' as int
    else if 'A' <= c <= 'H' then c as int - 'A' as int + 9
    else if 'J' <= c <= 'N' then c as int - 'J' as int + 17
    else if 'P' <= c <= 'Z' then c as int - 'P' as int + 22
    else if 'a' <= c <= 'k' then c as int - 'a' as int + 33
    else if 'm' <= c <= 'z' then c as int - 'm' as int + 44
    else -1
  }

  lemma DigitIndex(c: char)
    requires Index(c) >= 0
    ensures Digit(Index(c)) == c
  {
  }

  // ---- numbers and text ----

  /** The Base58 digits of a number, most significant first; nothing for zero. */
  function Text58(n: nat): string {
    if n == 0 then "" else Text58(n / 58) + [Digit(n % 58)]
  }

  predicate Base58(text: string) {
    forall i :: 0 <= i < |text| ==> Index(text[i]) >= 0
  }

  function Value58(text: string): nat
    requires Base58(text)
  {
    if text == "" then 0 else Value58(text[..|text| - 1]) * 58 + Index(text[|text| - 1])
  }

  /** `to_bytes` in as many bytes as needed, most significant first; nothing for zero. */
  function ToBytes(n: nat): Bytes {
    if n == 0 then [] else ToBytes(n / 256) + [n % 256]
  }

  lemma {:induction false} ValueOfText(n: nat)
    ensures Base58(Text58(n)) && Value58(Text58(n)) == n
    ensures n > 0 ==> Text58(n) != "" && Text58(n)[0] != '1'
  {
    if n > 0 {
      ValueOfText(n / 58);
      var text := Text58(n);
      assert text[..|text| - 1] == Text58(n / 58);
      if n / 58 == 0 {
        assert Index(text[0]) == n % 58 > 0;
      }
    }
  }

  lemma {:induction false} TextOfValue(text: string)
    requires Base58(text) && (text != "" ==> text[0] != '1')
    ensures Text58(Value58(text)) == text
    ensures text != "" ==> Value58(text) > 0
  {
    if text != "" {
      var front, last := text[..|text| - 1], text[|text| - 1];
      DigitIndex(last);
      DigitIndex(text[0]);
      TextOfValue(front);
      assert text == front + [last];
      var n := Value58(text);
      assert n / 58 == Value58(front) && n % 58 == Index(last);
      if front == "" { assert n == Index(text[0]) > 0; }
    }
  }

  lemma {:induction false} NumberOfBytes(n: nat)
    ensures Number(ToBytes(n)) == n
    ensures n > 0 ==> ToBytes(n) != [] && ToBytes(n)[0] != 0
  {
    if n > 0 {
      NumberOfBytes(n / 256);
      var b := ToBytes(n);
      assert b[..|b| - 1] == ToBytes(n / 256);
    }
  }

  lemma {:induction false} BytesOfNumber(b: Bytes)
    requires b != [] ==> b[0] != 0
    ensures ToBytes(Number(b)) == b
    ensures b != [] ==> Number(b) > 0
  {
    if b != [] {
      var front, last := b[..|b| - 1], b[|b| - 1];
      BytesOfNumber(front);
      assert b == front + [last];
      var n := Number(b);
      assert n / 256 == Number(front) && n % 256 == last;
    }
  }

  // ---- leading zeros ----

  function Copies<T>(x: T, n: nat): (r: seq<T>)
    ensures |r| == n && forall i :: 0 <= i < n ==> r[i] == x
  {
    seq(n, _ => x)
  }

  /** How many times `x` leads; `len(s) - len(s.lstrip(x))`. */
  function Leading<T(==)>(x: T, s: seq<T>): (n: nat)
    ensures n <= |s| && (forall i :: 0 <= i < n ==> s[i] == x) && (n < |s| ==> s[n] != x)
  {
    if s == [] || s[0] != x then 0
    else
      assert forall i :: 0 < i < |s| ==> s[i] == s[1..][i - 1];
      1 + Leading(x, s[1..])
  }

  lemma LeadingIs<T>(x: T, n: nat, rest: seq<T>)
    requires rest != [] ==> rest[0] != x
    ensures Leading(x, Copies(x, n) + rest) == n
  {
    var s := Copies(x, n) + rest;
    assert forall i :: 0 <= i < n ==> s[i] == x;
    assert rest != [] ==> s[n] == rest[0];
  }

  lemma LeadingSplits<T>(x: T, s: seq<T>)
    ensures s == Copies(x, Leading(x, s)) + s[Leading(x, s)..]
  {
  }

  lemma {:induction false} ZerosAddNothing(n: nat, rest: Bytes)
    ensures Number(Copies(0, n) + rest) == Number(rest)
    decreases n + |rest|
  {
    var s := Copies(0, n) + rest;
    if rest != [] {
      assert s[..|s| - 1] == Copies(0, n) + rest[..|rest| - 1];
      ZerosAddNothing(n, rest[..|rest| - 1]);
    } else if n > 0 {
      assert s[..|s| - 1] == Copies(0, n - 1) + rest;
      ZerosAddNothing(n - 1, rest);
    }
  }

  lemma {:induction false} OnesAddNothing(n: nat, rest: string)
    requires Base58(rest)
    ensures Base58(Copies('1', n) + rest) && Value58(Copies('1', n) + rest) == Value58(rest)
    decreases n + |rest|
  {
    var s := Copies('1', n) + rest;
    assert forall i :: 0 <= i < |s| ==> s[i] == if i < n then '1' else rest[i - n];
    if rest != "" {
      assert s[..|s| - 1] == Copies('1', n) + rest[..|rest| - 1];
      OnesAddNothing(n, rest[..|rest| - 1]);
    } else if n > 0 {
      assert s[..|s| - 1] == Copies('1', n - 1) + rest;
      OnesAddNothing(n - 1, rest);
    }
  }

  // ---- Base58 of a byte string ----

  function Encode58(data: Bytes): string {
    var digits := Text58(Number(data));
    Copies('1', Leading(0, data)) + (if digits == "" then "1" else digits)
  }

  function Decode58(text: string): Bytes
    requires Base58(text)
  {
    Copies(0, Leading('1', text)) + ToBytes(Value58(text))
  }

  predicate AllZero(data: Bytes) {
    Leading(0, data) == |data|
  }

  lemma DecodeOfEncode58(data: Bytes)
    ensures Base58(Encode58(data))
    ensures Decode58(Encode58(data)) == if AllZero(data) then Copies(0, |data| + 1) else data
  {
    hide Number, Text58, ToBytes, Value58, Leading, Index;
    var z := Leading(0, data);
    var rest := data[z..];
    LeadingSplits(0, data);
    ZerosAddNothing(z, rest);
    var n := Number(rest);
    BytesOfNumber(rest);
    ValueOfText(n);
    NumberOfBytes(n);
    if rest == [] {
      AllZeroText(z);
    } else {
      OnesAddNothing(z, Text58(n));
      LeadingIs('1', z, Text58(n));
    }
  }

  lemma AllZeroText(z: nat)
    ensures Text58(Number([])) == "" && ToBytes(0) == []
    ensures Base58(Copies('1', z) + "1") && Leading('1', Copies('1', z) + "1") == z + 1 && Value58(Copies('1', z) + "1") == 0
  {
    assert Copies('1', z) + "1" == Copies('1', z + 1) + "";
    OnesAddNothing(z + 1, "");
    LeadingIs('1', z + 1, "");
  }

  lemma EncodeOfDecode58(text: string)
    requires Base58(text) && Leading('1', text) < |text|
    ensures Encode58(Decode58(text)) == text && !AllZero(Decode58(text))
  {
    hide Number, Text58, ToBytes, Value58, Leading, Index;
    var z := Leading('1', text);
    var rest := text[z..];
    LeadingSplits('1', text);
    OnesAddNothing(z, rest);
    TextOfValue(rest);
    var n := Value58(rest);
    NumberOfBytes(n);
    ZerosAddNothing(z, ToBytes(n));
    LeadingIs(0, z, ToBytes(n));
  }

  lemma DecodedOnes(text: string)
    requires Base58(text) && Leading('1', text) == |text|
    ensures AllZero(Decode58(text))
  {
    LeadingSplits('1', text);
    OnesAddNothing(|text|, "");
    assert text == Copies('1', |text|) + "";
    LeadingIs(0, |text|, []);
  }

  // ---- Base58Check ----

  function Sealed(sha: DoubleSha, payload: Bytes): Bytes {
    payload + sha(payload)[..4]
  }

  function CheckEncode(sha: DoubleSha, payload: Bytes): string {
    Encode58(Sealed(sha, payload))
  }

  function CheckDecode(sha: DoubleSha, text: string): Result<Bytes> {
    if !Base58(text) then Err(Malformed)
    else
      var raw := Decode58(text);
      if |raw| < 5 then Err(Malformed)
      else
        var payload := raw[..|raw| - 4];
        if sha(payload)[..4] != raw[|raw| - 4..] then Err(Malformed) else Ok(payload)
  }

  /** Decoding undoes encoding exactly on the non-empty payloads that are not, with their checksum, all zero. */
  lemma CheckRoundTrip(sha: DoubleSha, payload: Bytes)
    ensures CheckDecode(sha, CheckEncode(sha, payload)) == Ok(payload) <==> payload != [] && !AllZero(Sealed(sha, payload))
  {
    hide Encode58, Decode58, AllZero, Base58;
    var data := Sealed(sha, payload);
    DecodeOfEncode58(data);
    assert data[..|data| - 4] == payload && data[|data| - 4..] == sha(payload)[..4];
  }

  /** An accepted text is the encoding of its payload, unless it is a run of ones. */
  lemma CheckCanonical(sha: DoubleSha, text: string, payload: Bytes)
    requires CheckDecode(sha, text) == Ok(payload)
    ensures payload != []
    ensures CheckEncode(sha, payload) == text <==> !AllZero(Sealed(sha, payload))
  {
    hide Encode58, Decode58, AllZero, Base58, Leading;
    var raw := Decode58(text);
    assert raw == Sealed(sha, payload) by { assert raw == raw[..|raw| - 4] + raw[|raw| - 4..]; }
    if Leading('1', text) < |text| {
      EncodeOfDecode58(text);
    } else {
      DecodedOnes(text);
      DecodeOfEncode58(raw);
    }
  }

  lemma Text58Step(value: nat, tail: string)
    requires value > 0
    ensures Text58(value) + tail == Text58(value / 58) + ([Digit(value % 58)] + tail)
  {
  }

  /** The loop of `_base58check_encode`. */
  method Digits58(number: nat) returns (encoded: string)
    ensures encoded == Text58(number)
  {
    hide Text58, Digit;
    var value := number;
    encoded := "";
    while value != 0
      invariant Text58(number) == Text58(value) + encoded
    {
      Text58Step(value, encoded);
      value, encoded := value / 58, [Digit(value % 58)] + encoded;
    }
    NoDigits();
  }

  lemma NoDigits()
    ensures Text58(0) == ""
  {
  }

  /** `_base58check_encode`. */
  method Base58CheckEncode(sha: DoubleSha, payload: Bytes) returns (text: string)
    ensures text == CheckEncode(sha, payload)
  {
    hide Number, Leading, Copies, Digit;
    var data := payload + sha(payload)[..4];
    var zeros := Leading(0, data);
    var encoded := Digits58(Number(data));
    text := Copies('1', zeros) + (if encoded == "" then "1" else encoded);
  }

  /** `_base58check_decode`. */
  method Base58CheckDecode(sha: DoubleSha, text: string) returns (r: Result<Bytes>)
    ensures r == CheckDecode(sha, text)
  {
    hide Index, Leading, Copies, ToBytes;
    var number, k := 0, 0;
    while k < |text|
      invariant 0 <= k <= |text|
      invariant Base58(text[..k]) && number == Value58(text[..k])
    {
      var index := Index(text[k]);
      if index == -1 { return Err(Malformed); }
      assert text[..k + 1][..k] == text[..k];
      number, k := number * 58 + index, k + 1;
    }
    assert text[..k] == text;
    var raw := Copies(0, Leading('1', text)) + ToBytes(number);
    if |raw| < 5 { return Err(Malformed); }
    var payload, checksum := raw[..|raw| - 4], raw[|raw| - 4..];
    if sha(payload)[..4] != checksum { return Err(Malformed); }
    r := Ok(payload);
  }

  // ---- addresses ----

  datatype Kind = Legacy | Pq

  datatype AddressInfo = AddressInfo(kind: Kind, version: int, schemeId: int, payload: Bytes, hash: Bytes)

  /** The legacy address of a 20-byte public-key hash. */
  function LegacyAddress(sha: DoubleSha, keyHash: Bytes): string {
    PREFIX + CheckEncode(sha, [ADDRESS_VERSION] + keyHash)
  }

  /** The post-quantum address of a public-key commitment. */
  function PqAddress(sha: DoubleSha, schemeId: byte, commitment: Bytes): string {
    PQ_PREFIX + CheckEncode(sha, [PQ_ADDRESS_VERSION, schemeId] + commitment)
  }

  /** `parse_address`, longest prefix first. */
  function ParseAddress(sha: DoubleSha, address: string): Result<AddressInfo> {
    if PQ_PREFIX <= address then
      var payload :- CheckDecode(sha, address[4..]);
      if |payload| != 34 || payload[0] != PQ_ADDRESS_VERSION then Err(Malformed)
      else Ok(AddressInfo(Pq, payload[0], payload[1], payload, payload[2..]))
    else if PREFIX <= address then
      var payload :- CheckDecode(sha, address[3..]);
      if |payload| != 21 || payload[0] != ADDRESS_VERSION then Err(Malformed)
      else Ok(AddressInfo(Legacy, payload[0], 0, payload, payload[1..]))
    else Err(Malformed)
  }

  function Pow58(k: nat): pos {
    if k == 0 then 1 else 58 * Pow58(k - 1)
  }

  lemma {:induction false} Pow58Add(a: nat, b: nat)
    ensures Pow58(a + b) == Pow58(a) * Pow58(b)
  {
    if a > 0 {
      Pow58Add(a - 1, b);
      MulAssoc(58, Pow58(a - 1), Pow58(b));
    }
  }

  lemma {:induction false} Pow256Add(a: nat, b: nat)
    ensures Pow256(a + b) == Pow256(a) * Pow256(b)
  {
    if a > 0 {
      Pow256Add(a - 1, b);
      MulAssoc(256, Pow256(a - 1), Pow256(b));
    }
  }

  /** Every 25-byte number with leading byte 28 lies among the 34-digit numbers with leading digit 11. */
  lemma LegacyRange()
    ensures 11 * Pow58(33) <= 28 * Pow256(24) && 29 * Pow256(24) <= 12 * Pow58(33)
  {
    assert Pow58(4) == 11316496;
    assert Pow58(8) == 128063081718016;
    assert Pow58(11) == 24986644000165537792;
    Pow58Add(11, 11);
    Pow58Add(22, 11);
    assert Pow256(4) == 4294967296;
    assert Pow256(8) == 18446744073709551616;
    Pow256Add(8, 8);
    Pow256Add(16, 8);
  }

  lemma {:induction false} NumberLead(b: Bytes)
    requires b != []
    ensures b[0] * Pow256(|b| - 1) <= Number(b) < (b[0] + 1) * Pow256(|b| - 1)
  {
    if |b| == 1 {
      assert Number(b[..0]) == 0;
    } else {
      NumberLead(b[..|b| - 1]);
      var lead: int := b[0];
      MulAssoc(256, lead, Pow256(|b| - 2));
      MulAssoc(256, lead + 1, Pow256(|b| - 2));
      MulAssoc(lead, 256, Pow256(|b| - 2));
      MulAssoc(lead + 1, 256, Pow256(|b| - 2));
    }
  }

  lemma {:induction false} LeadingDigit(n: nat, k: nat, d: nat)
    requires 1 <= d < 58 && d * Pow58(k) <= n < (d + 1) * Pow58(k)
    ensures Text58(n) != "" && Text58(n)[0] == Digit(d)
  {
    if k == 0 {
      assert Text58(n / 58) == "";
    } else {
      MulAssoc(58, d, Pow58(k - 1));
      MulAssoc(58, d + 1, Pow58(k - 1));
      MulAssoc(d, 58, Pow58(k - 1));
      MulAssoc(d + 1, 58, Pow58(k - 1));
      LeadingDigit(n / 58, k - 1, d);
    }
  }

  /** The text of every legacy payload begins with `C`. */
  lemma LegacyBeginsWithC(sha: DoubleSha, keyHash: Bytes)
    requires |keyHash| == 20
    ensures var text := CheckEncode(sha, [ADDRESS_VERSION] + keyHash); text != "" && text[0] == 'C'
  {
    hide Number, Text58, Pow58, Pow256, Copies;
    var data := Sealed(sha, [ADDRESS_VERSION] + keyHash);
    NumberLead(data);
    LegacyRange();
    LeadingDigit(Number(data), 33, 11);
    assert Copies('1', 0) == "";
  }

  /** A legacy address is read back as such: it never looks like a post-quantum one. */
  lemma LegacyRoundTrip(sha: DoubleSha, keyHash: Bytes)
    requires |keyHash| == 20
    ensures ParseAddress(sha, LegacyAddress(sha, keyHash))
         == Ok(AddressInfo(Legacy, ADDRESS_VERSION, 0, [ADDRESS_VERSION] + keyHash, keyHash))
  {
    hide CheckEncode, CheckDecode;
    var payload := [ADDRESS_VERSION] + keyHash;
    var address := LegacyAddress(sha, keyHash);
    LegacyBeginsWithC(sha, keyHash);
    CheckRoundTrip(sha, payload);
    assert address[3] == 'C';
    assert address[3..] == CheckEncode(sha, payload);
  }

  lemma PqRoundTrip(sha: DoubleSha, schemeId: byte, commitment: Bytes)
    requires |commitment| == 32
    ensures ParseAddress(sha, PqAddress(sha, schemeId, commitment))
         == Ok(AddressInfo(Pq, PQ_ADDRESS_VERSION, schemeId, [PQ_ADDRESS_VERSION, schemeId] + commitment, commitment))
  {
    hide CheckEncode, CheckDecode;
    var payload := [PQ_ADDRESS_VERSION, schemeId] + commitment;
    var address := PqAddress(sha, schemeId, commitment);
    CheckRoundTrip(sha, payload);
    assert address[4..] == CheckEncode(sha, payload);
  }

  /** The address that belongs to parsed information. */
  function Rebuild(sha: DoubleSha, info: AddressInfo): string
    requires 0 <= info.schemeId < 256
  {
    if info.kind.Legacy? then LegacyAddress(sha, info.hash) else PqAddress(sha, info.schemeId, info.hash)
  }

  /** Every accepted address is the one its own content builds: no two texts name one destination. */
  lemma ParsedAddressCanonical(sha: DoubleSha, address: string, info: AddressInfo)
    requires ParseAddress(sha, address) == Ok(info)
    ensures 0 <= info.schemeId < 256 && address == Rebuild(sha, info)
  {
    hide CheckEncode, CheckDecode;
    if PQ_PREFIX <= address {
      CheckCanonical(sha, address[4..], info.payload);
      assert info.payload == [PQ_ADDRESS_VERSION, info.schemeId] + info.hash;
      assert address == PQ_PREFIX + address[4..];
    } else {
      CheckCanonical(sha, address[3..], info.payload);
      assert info.payload == [ADDRESS_VERSION] + info.hash;
      assert address == PREFIX + address[3..];
    }
  }
}
