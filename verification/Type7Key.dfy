/**
  Decoding of Type 7 encoded connectivity association keys: two decimal digits
  of salt, then two hexadecimal digits for every byte of the key.
 */
module Type7Key {
  import opened Words
  import opened Wrappers

  datatype CipherSuite = GcmAes128 | GcmAes256 | GcmAesXpn128 | GcmAesXpn256

  type Byte = b: nat | b < 256

  const SALTS: seq<Byte> := [
    0x64, 0x73, 0x66, 0x64, 0x3B, 0x6B, 0x66, 0x6F, 0x41, 0x2C, 0x2E, 0x69, 0x79, 0x65, 0x77, 0x72, 0x6B, 0x6C,
    0x64, 0x4A, 0x4B, 0x44, 0x48, 0x53, 0x55, 0x42, 0x73, 0x67, 0x76, 0x63, 0x61, 0x36, 0x39, 0x38, 0x33, 0x34,
    0x6E, 0x63, 0x78, 0x76, 0x39, 0x38, 0x37, 0x33, 0x32, 0x35, 0x34, 0x6B, 0x3B, 0x66, 0x67, 0x38, 0x37]

  /** The length an encoded key must have, AES_LEN_128_BYTE or AES_LEN_256_BYTE. */
  function KeyLength(suite: CipherSuite): nat {
    match suite
    case GcmAes128 | GcmAesXpn128 => 66
    case GcmAes256 | GcmAesXpn256 => 130
  }

  // ---------- reading numbers ----------

  predicate IsSpace(c: char) {
    c == ' ' || '\t' <= c <= '\r'
  }

  function DecimalDigit(c: char): Option<nat> {
    if '0' <= c <= '9' then Some(c as nat - '0' as nat) else None
  }

  function HexDigit(c: char): (digit: Option<nat>)
    ensures digit.Some? ==> digit.value < 16
  {
    if '0' <= c <= '9' then Some(c as nat - '0' as nat)
    else if 'a' <= c <= 'f' then Some(c as nat - 'a' as nat + 10)
    else if 'A' <= c <= 'F' then Some(c as nat - 'A' as nat + 10)
    else None
  }

  /** stoi of two characters; None where it throws. */
  function Stoi(a: char, b: char): Option<int> {
    var second := DecimalDigit(b);
    if DecimalDigit(a).Some? then
      Some(if second.Some? then 10 * DecimalDigit(a).value + second.value else DecimalDigit(a).value)
    else if second.None? then None
    else if IsSpace(a) || a == '+' then Some(second.value)
    else if a == '-' then Some(0 - second.value)
    else None
  }

  /**
    Extracting a hexadecimal number from a stream of two characters.  Two blanks
    leave the variable as it was; an unreadable number makes it 0.
   */
  function ExtractHex(a: char, b: char, previous: nat): nat {
    var second := HexDigit(b);
    if HexDigit(a).Some? then
      if second.Some? then 16 * HexDigit(a).value + second.value else HexDigit(a).value
    else if IsSpace(a) && IsSpace(b) then previous
    else if second.None? then 0
    else if IsSpace(a) || a == '+' then second.value
    else if a == '-' then (0x1_0000_0000 - second.value) % 0x1_0000_0000
    else 0
  }

  // ---------- decoding ----------

  /** The value of hex_int after the pair of characters that encodes byte j was read. */
  function HexAt(cipher: string, j: nat, unset: nat): nat
    requires 2 * j + 4 <= |cipher|
  {
    ExtractHex(cipher[2 * j + 2], cipher[2 * j + 3], if j == 0 then unset else HexAt(cipher, j - 1, unset))
  }

  /** The salt index counts up as a 32-bit number and selects a salt modulo 53. */
  function SaltAt(saltIdx: int, j: nat): Byte {
    SALTS[(saltIdx + j) % 0x1_0000_0000 % 53]
  }

  /** The exclusive or of a number and a salt, cut to a byte. */
  function Mix(number: nat, salt: Byte): Byte {
    Xor(number, salt) % 256
  }

  function DecodedByte(cipher: string, saltIdx: int, j: nat, unset: nat): Byte
    requires 2 * j + 4 <= |cipher|
  {
    Mix(HexAt(cipher, j, unset), SaltAt(saltIdx, j))
  }

  /** What an encoded key stands for; `unset` is the initial value of the C++ variable hex_int. */
  function Decode(cipher: string, suite: CipherSuite, unset: nat): Result<seq<Byte>> {
    if |cipher| != KeyLength(suite) then Err("Invalid length for cipher_string")
    else
      var saltIdx := Stoi(cipher[0], cipher[1]);
      if saltIdx.None? then Err("stoi")
      else Ok(seq((|cipher| - 2) / 2,
        j requires 0 <= j < (|cipher| - 2) / 2 => DecodedByte(cipher, saltIdx.value, j, unset)))
  }

  lemma Collected(cipher: string, suite: CipherSuite, unset: nat, saltIdx: int, key: seq<Byte>)
    requires |cipher| == KeyLength(suite) && |cipher| == 2 * |key| + 2 && Stoi(cipher[0], cipher[1]) == Some(saltIdx)
    requires forall j: nat | j < |key| :: DecodedByte(cipher, saltIdx, j, unset) == key[j]
    ensures Decode(cipher, suite, unset) == Ok(key)
  {
    assert Decode(cipher, suite, unset).value == key;
  }

  lemma NextIndex(x: int)
    ensures (x % 0x1_0000_0000 + 1) % 0x1_0000_0000 == (x + 1) % 0x1_0000_0000
  {
  }

  method DecodeKey(cipher: string, suite: CipherSuite, unset: nat) returns (key: Result<seq<Byte>>)
    ensures key == Decode(cipher, suite, unset)
    ensures key.Ok? ==> |key.value| == (|cipher| - 2) / 2
  {
    if (suite == GcmAes128 || suite == GcmAesXpn128) && |cipher| != 66 {
      return Err("Invalid length for cipher_string");
    } else if (suite == GcmAes256 || suite == GcmAesXpn256) && |cipher| != 130 {
      return Err("Invalid length for cipher_string");
    }
    var start := Stoi(cipher[0], cipher[1]);
    if start.None? {
      return Err("stoi");
    }
    var decoded := DecodeBytes(cipher, start.value, unset);
    Collected(cipher, suite, unset, start.value, decoded);
    key := Ok(decoded);
  }

  /** The loop of decodeKey. */
  method DecodeBytes(cipher: string, start: int, unset: nat) returns (decoded: seq<Byte>)
    requires |cipher| >= 2 && |cipher| % 2 == 0
    ensures 2 * |decoded| + 2 == |cipher|
    ensures forall j: nat | j < |decoded| :: DecodedByte(cipher, start, j, unset) == decoded[j]
  {
    var saltIdx: nat := start % 0x1_0000_0000;
    var hexInt := unset;
    decoded := [];
    var i := 2;
    while i < |cipher|
      invariant 2 <= i <= |cipher| && i == 2 * |decoded| + 2
      invariant saltIdx == (start + |decoded|) % 0x1_0000_0000
      invariant hexInt == if |decoded| == 0 then unset else HexAt(cipher, |decoded| - 1, unset)
      invariant forall j: nat | j < |decoded| :: DecodedByte(cipher, start, j, unset) == decoded[j]
    {
      hexInt := ExtractHex(cipher[i], cipher[i + 1], hexInt);
      assert hexInt == HexAt(cipher, |decoded|, unset);
      NextIndex(start + |decoded|);
      assert Mix(hexInt, SALTS[saltIdx % 53]) == DecodedByte(cipher, start, |decoded|, unset);
      decoded := decoded + [Mix(hexInt, SALTS[saltIdx % 53])];
      saltIdx := (saltIdx + 1) % 0x1_0000_0000;
      i := i + 2;
    }
  }

  // ---------- the encoding it inverts ----------

  /** The upper-case digit printed for a number below 16. */
  function Digit(d: nat): (c: char)
    requires d < 16
    ensures HexDigit(c) == Some(d) && UpperHex(c)
    ensures d < 10 ==> DecimalDigit(c) == Some(d)
  {
    if d < 10 then ('0' as nat + d) as char else ('A' as nat + d - 10) as char
  }

  predicate UpperHex(c: char) {
    '0' <= c <= '9' || 'A' <= c <= 'F'
  }

  lemma ByteBelow(a: Byte, salt: Byte)
    ensures Xor(a, salt) < 256
  {
    assert ShiftOne(8) == 256;
    XorBelow(a, salt, 8);
  }

  lemma MixUndoes(a: Byte, salt: Byte)
    ensures Mix(Mix(a, salt), salt) == a
  {
    ByteBelow(a, salt);
    XorUndoes(a, salt);
    assert Mix(a, salt) == Xor(a, salt);
  }

  function EncodedByte(key: seq<Byte>, salt: nat, j: nat): Byte
    requires j < |key|
  {
    Mix(key[j], SaltAt(salt, j))
  }

  /** Two decimal digits of salt, and two upper-case hexadecimal digits for every byte. */
  function Encode(key: seq<Byte>, salt: nat): (cipher: string)
    requires salt < 100
    ensures |cipher| == 2 * |key| + 2
  {
    seq(2 * |key| + 2, i requires 0 <= i < 2 * |key| + 2 => EncodedChar(key, salt, i))
  }

  function EncodedChar(key: seq<Byte>, salt: nat, i: nat): char
    requires salt < 100 && i < 2 * |key| + 2
  {
    if i == 0 then Digit(salt / 10)
    else if i == 1 then Digit(salt % 10)
    else if i % 2 == 0 then Digit(EncodedByte(key, salt, i / 2 - 1) / 16)
    else Digit(EncodedByte(key, salt, i / 2 - 1) % 16)
  }

  lemma EncodeAt(key: seq<Byte>, salt: nat, j: nat)
    requires salt < 100 && j < |key|
    ensures Encode(key, salt)[2 * j + 2] == Digit(EncodedByte(key, salt, j) / 16)
    ensures Encode(key, salt)[2 * j + 3] == Digit(EncodedByte(key, salt, j) % 16)
  {
    assert (2 * j + 2) % 2 == 0 && (2 * j + 2) / 2 == j + 1;
    assert (2 * j + 3) % 2 == 1 && (2 * j + 3) / 2 == j + 1;
  }

  lemma EncodeSalt(key: seq<Byte>, salt: nat)
    requires salt < 100
    ensures Encode(key, salt)[0] == Digit(salt / 10) && Encode(key, salt)[1] == Digit(salt % 10)
  {
  }

  lemma HexPair(cipher: string, j: nat, value: Byte, unset: nat)
    requires 2 * j + 4 <= |cipher|
    requires HexDigit(cipher[2 * j + 2]) == Some(value / 16) && HexDigit(cipher[2 * j + 3]) == Some(value % 16)
    ensures HexAt(cipher, j, unset) == value
  {
  }

  lemma ByteComesBack(key: seq<Byte>, salt: nat, j: nat, unset: nat)
    requires salt < 100 && j < |key|
    ensures DecodedByte(Encode(key, salt), salt, j, unset) == key[j]
  {
    EncodeAt(key, salt, j);
    HexPair(Encode(key, salt), j, EncodedByte(key, salt, j), unset);
    MixUndoes(key[j], SaltAt(salt, j));
  }

  lemma SaltReads(cipher: string, tens: nat, ones: nat)
    requires |cipher| >= 2 && DecimalDigit(cipher[0]) == Some(tens) && DecimalDigit(cipher[1]) == Some(ones)
    ensures Stoi(cipher[0], cipher[1]) == Some(10 * tens + ones)
  {
  }

  /** Decoding inverts the encoding, for every salt and every key of the required length. */
  lemma DecodeInvertsEncode(key: seq<Byte>, salt: nat, suite: CipherSuite, unset: nat)
    requires salt < 100 && 2 * |key| + 2 == KeyLength(suite)
    ensures Decode(Encode(key, salt), suite, unset) == Ok(key)
  {
    var cipher := Encode(key, salt);
    EncodeSalt(key, salt);
    SaltReads(cipher, salt / 10, salt % 10);
    forall j: nat | j < |key| ensures DecodedByte(cipher, salt, j, unset) == key[j] {
      ByteComesBack(key, salt, j, unset);
    }
    Collected(cipher, suite, unset, salt, key);
  }

  /** A two-digit salt and upper-case hexadecimal digits. */
  predicate Canonical(cipher: string) {
    && |cipher| >= 2 && |cipher| % 2 == 0
    && (forall i | 0 <= i < 2 :: '0' <= cipher[i] <= '9')
    && (forall i | 2 <= i < |cipher| :: UpperHex(cipher[i]))
  }

  ghost predicate Reprints(cipher: string, suite: CipherSuite, unset: nat) {
    var key := Decode(cipher, suite, unset);
    key.Ok? && exists salt: nat | salt < 100 :: Encode(key.value, salt) == cipher
  }

  /** Encoding inverts decoding exactly on the strings an encoder prints. */
  lemma EncodeInvertsDecode(cipher: string, suite: CipherSuite, unset: nat)
    requires |cipher| == KeyLength(suite)
    ensures Reprints(cipher, suite, unset) <==> Canonical(cipher)
  {
    if Canonical(cipher) {
      Reencode(cipher, suite, unset);
    } else if Reprints(cipher, suite, unset) {
      var salt: nat :| salt < 100 && Encode(Decode(cipher, suite, unset).value, salt) == cipher;
      EncodeIsCanonical(Decode(cipher, suite, unset).value, salt);
    }
  }

  /** Lower-case digits are read as well, so that a key has more than one encoding. */
  lemma LowerCaseIsRead(unset: nat) returns (cipher: string)
    ensures Decode(cipher, GcmAes128, unset).Ok? && !Reprints(cipher, GcmAes128, unset)
  {
    cipher := "04" + seq(64, i => 'a');
    SaltReads(cipher, 0, 4);
    assert !UpperHex(cipher[2]);
    EncodeInvertsDecode(cipher, GcmAes128, unset);
  }

  lemma EncodeIsCanonical(key: seq<Byte>, salt: nat)
    requires salt < 100
    ensures Canonical(Encode(key, salt))
  {
    EncodeSalt(key, salt);
    assert '0' <= Digit(salt / 10) <= '9' && '0' <= Digit(salt % 10) <= '9';
  }

  lemma Reencode(cipher: string, suite: CipherSuite, unset: nat)
    requires |cipher| == KeyLength(suite) && Canonical(cipher)
    ensures Reprints(cipher, suite, unset)
  {
    var tens, ones := DecimalDigit(cipher[0]).value, DecimalDigit(cipher[1]).value;
    SaltReads(cipher, tens, ones);
    ReencodeWith(cipher, Decode(cipher, suite, unset).value, 10 * tens + ones, unset);
  }

  lemma ReencodeWith(cipher: string, key: seq<Byte>, salt: nat, unset: nat)
    requires Canonical(cipher) && |cipher| == 2 * |key| + 2 && salt < 100
    requires DecimalDigit(cipher[0]) == Some(salt / 10) && DecimalDigit(cipher[1]) == Some(salt % 10)
    requires forall j: nat | j < |key| :: key[j] == DecodedByte(cipher, salt, j, unset)
    ensures Encode(key, salt) == cipher
  {
    forall j: nat | j < |key|
      ensures cipher[2 * j + 2] == Encode(key, salt)[2 * j + 2] && cipher[2 * j + 3] == Encode(key, salt)[2 * j + 3]
    {
      PairReprints(cipher, key, salt, j, unset);
    }
    EncodeSalt(key, salt);
    SameByPairs(Encode(key, salt), cipher, |key|);
  }

  lemma SameByPairs(a: string, b: string, n: nat)
    requires |a| == |b| == 2 * n + 2 && a[0] == b[0] && a[1] == b[1]
    requires forall j: nat | j < n :: b[2 * j + 2] == a[2 * j + 2] && b[2 * j + 3] == a[2 * j + 3]
    ensures a == b
  {
    forall i | 2 <= i < |a| ensures a[i] == b[i] {
      assert i == 2 * (i / 2 - 1) + 2 || i == 2 * (i / 2 - 1) + 3;
    }
  }

  lemma PairReprints(cipher: string, key: seq<Byte>, salt: nat, j: nat, unset: nat)
    requires Canonical(cipher) && |cipher| == 2 * |key| + 2 && salt < 100 && j < |key|
    requires key[j] == DecodedByte(cipher, salt, j, unset)
    ensures cipher[2 * j + 2] == Encode(key, salt)[2 * j + 2] && cipher[2 * j + 3] == Encode(key, salt)[2 * j + 3]
  {
    EncodeAt(key, salt, j);
    BytePrints(cipher, salt, j, unset);
  }

  lemma TwoDigits(high: nat, low: nat)
    requires high < 16 && low < 16
    ensures (16 * high + low) / 16 == high && (16 * high + low) % 16 == low && 16 * high + low < 256
  {
  }

  lemma DigitReprints(c: char)
    requires UpperHex(c)
    ensures HexDigit(c).Some? && HexDigit(c).value < 16 && Digit(HexDigit(c).value) == c
  {
  }

  lemma BytePrints(cipher: string, salt: nat, j: nat, unset: nat)
    requires Canonical(cipher) && 2 * j + 4 <= |cipher|
    ensures cipher[2 * j + 2] == Digit(Mix(DecodedByte(cipher, salt, j, unset), SaltAt(salt, j)) / 16)
    ensures cipher[2 * j + 3] == Digit(Mix(DecodedByte(cipher, salt, j, unset), SaltAt(salt, j)) % 16)
  {
    var high, low := HexDigit(cipher[2 * j + 2]).value, HexDigit(cipher[2 * j + 3]).value;
    TwoDigits(high, low);
    HexPair(cipher, j, 16 * high + low, unset);
    MixUndoes(16 * high + low, SaltAt(salt, j));
    DigitReprints(cipher[2 * j + 2]);
    DigitReprints(cipher[2 * j + 3]);
  }
}
