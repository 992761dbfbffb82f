/**
  What the two snapshots of the code generator (otp.go and the older opt.go)
  have in common, line for line: the hash type names, the switch that picks a
  hash constructor, the 8-byte big-endian counter encoding (`itob` / `Itob`)
  and the dynamic truncation of section 5.3 of RFC 4226 (`truncate`).

  The HMAC computation itself (Go's crypto/hmac over crypto/sha1, sha256,
  sha512) is not modelled: it is the parameter `mac` of type `Hmac`, about
  which the model knows only the digest length of each hash.
*/
module OtpAlgorithm {
  import opened Encoding

  /** A Go panic raised by the core. */
  datatype Panic =
    | EmptySecret       // "OTP requires a secret to be set" / "a secret must be provided for TOTP"
    | NegativeInput     // opt.go's Generate on a negative counter

  /** A result, or the panic that replaced it. */
  datatype Result<T> = Ok(value: T) | Panicked(reason: Panic)

  datatype Option<T> = None | Some(value: T)

  /** Go's `HashType` string type and its three named values. */
  type HashType = string

  const SHA1: HashType := "SHA1"
  const SHA256: HashType := "SHA256"
  const SHA512: HashType := "SHA512"

  /** The hash constructor an OTP holds in `hashFunc`: sha1.New, sha256.New or sha512.New. */
  datatype HashFunc = Sha1 | Sha256 | Sha512

  /** Output size in bytes of each hash (and so of its HMAC). */
  function DigestSize(h: HashFunc): nat {
    match h
    case Sha1 => 20
    case Sha256 => 32
    case Sha512 => 64
  }

  /**
    The keyed-hash provider: `mac(h, key, message)` is HMAC over hash h. Only the
    length of its output is known.
  */
  type Hmac = f: (HashFunc, seq<byte>, seq<byte>) -> seq<byte>
    | forall h, key, message :: |f(h, key, message)| == DigestSize(h)
    witness (h: HashFunc, key: seq<byte>, message: seq<byte>) => seq(DigestSize(h), _ => 0 as byte)

  predicate IsKnownHashType(hashType: HashType) {
    hashType == SHA1 || hashType == SHA256 || hashType == SHA512
  }

  function HashTypeName(h: HashFunc): HashType {
    match h
    case Sha1 => SHA1
    case Sha256 => SHA256
    case Sha512 => SHA512
  }

  /** The `switch hashType` of NewOTP: a name picks its hash; any other string picks SHA-1. */
  function SelectHashFunc(hashType: HashType): (h: HashFunc)
    ensures IsKnownHashType(hashType) ==> HashTypeName(h) == hashType
    ensures !IsKnownHashType(hashType) ==> h == Sha1
  {
    if hashType == SHA1 then Sha1
    else if hashType == SHA256 then Sha256
    else if hashType == SHA512 then Sha512
    else Sha1
  }

  // ---------------------------------------------------------------------------
  // itob

  /** `itob(n)`: the 8 big-endian bytes of `uint64(n)`, the message the HMAC is taken over. */
  function CounterBytes(n: int): (s: seq<byte>)
    ensures |s| == 8
    ensures BigEndianValue(s) == ToUint64(n)
  {
    var v := ToUint64(n);
    BigEndianValueOfBigEndian(v, 8);
    assert Pow(256, 8) == TWO_64;
    DivModUnique(v, TWO_64, 0, v);
    BigEndian(v, 8)
  }

  /**
    A counter in 0 <= n < 2^63 (every non-negative Go int) is read back exactly;
    a negative one wraps to n + 2^64, since nothing rejects it.
  */
  lemma CounterBytesRoundTrip(n: int)
    requires -TWO_63 <= n < TWO_63
    ensures n >= 0 ==> BigEndianValue(CounterBytes(n)) == n
    ensures n < 0 ==> BigEndianValue(CounterBytes(n)) == n + TWO_64
    ensures n >= 0 ==> CounterBytes(n) == BigEndian(n, 8)
  {
  }

  /** Two Go ints with the same encoding are the same int. */
  lemma CounterBytesInjective(m: int, n: int)
    requires -TWO_63 <= m < TWO_63 && -TWO_63 <= n < TWO_63
    requires CounterBytes(m) == CounterBytes(n)
    ensures m == n
  {
    CounterBytesRoundTrip(m);
    CounterBytesRoundTrip(n);
  }

  /**
    `itob`: make an 8-byte slice and store the bytes of `uint64(integer)` in it
    from the most significant down, as binary.BigEndian.PutUint64 does.
  */
  method Itob(integer: int) returns (byteArr: array<byte>)
    ensures fresh(byteArr)
    ensures byteArr[..] == CounterBytes(integer)
  {
    byteArr := new byte[8];
    var v := ToUint64(integer);
    // v >> 8, v >> 16, ..., v >> 56
    var v1 := v / 256;
    var v2 := v1 / 256;
    var v3 := v2 / 256;
    var v4 := v3 / 256;
    var v5 := v4 / 256;
    var v6 := v5 / 256;
    var v7 := v6 / 256;
    byteArr[0] := (v7 % 256) as byte;
    byteArr[1] := (v6 % 256) as byte;
    byteArr[2] := (v5 % 256) as byte;
    byteArr[3] := (v4 % 256) as byte;
    byteArr[4] := (v3 % 256) as byte;
    byteArr[5] := (v2 % 256) as byte;
    byteArr[6] := (v1 % 256) as byte;
    byteArr[7] := (v % 256) as byte;
    PutUint64Bytes(v, v1, v2, v3, v4, v5, v6, v7);
    assert byteArr[..] == [v7 % 256, v6 % 256, v5 % 256, v4 % 256, v3 % 256, v2 % 256, v1 % 256, v % 256];
  }

  /** The eight stores of PutUint64 write exactly the big-endian encoding. */
  lemma PutUint64Bytes(v: nat, v1: nat, v2: nat, v3: nat, v4: nat, v5: nat, v6: nat, v7: nat)
    requires v1 == v / 256 && v2 == v1 / 256 && v3 == v2 / 256 && v4 == v3 / 256
    requires v5 == v4 / 256 && v6 == v5 / 256 && v7 == v6 / 256
    ensures BigEndian(v, 8) == [
      (v7 % 256) as byte, (v6 % 256) as byte, (v5 % 256) as byte, (v4 % 256) as byte,
      (v3 % 256) as byte, (v2 % 256) as byte, (v1 % 256) as byte, (v % 256) as byte]
  {
    var s1 := BigEndian(v7, 1);
    assert s1 == [(v7 % 256) as byte];
    var s2 := BigEndian(v6, 2);
    assert s2 == s1 + [(v6 % 256) as byte];
    var s3 := BigEndian(v5, 3);
    assert s3 == s2 + [(v5 % 256) as byte];
    var s4 := BigEndian(v4, 4);
    assert s4 == s3 + [(v4 % 256) as byte];
    var s5 := BigEndian(v3, 5);
    assert s5 == s4 + [(v3 % 256) as byte];
    var s6 := BigEndian(v2, 6);
    assert s6 == s5 + [(v2 % 256) as byte];
    var s7 := BigEndian(v1, 7);
    assert s7 == s6 + [(v1 % 256) as byte];
    assert BigEndian(v, 8) == s7 + [(v % 256) as byte];
  }

  // ---------------------------------------------------------------------------
  // truncate

  /** The digest lengths for which `truncate` reads only in-bounds bytes whatever the digest holds. */
  predicate Truncatable(digest: seq<byte>) {
    |digest| >= 19
  }

  /** Code lengths for which `int(math.Pow10(codeLength))` is exactly 10^codeLength. */
  predicate SupportedCodeLength(codeLength: int) {
    0 <= codeLength <= 18
  }

  /** The offset `truncate` reads at: the low nibble of the digest's last byte (`& 0xf`). */
  function Offset(digest: seq<byte>): (offset: nat)
    requires |digest| >= 1
    ensures offset <= 15
  {
    digest[|digest| - 1] % 16
  }

  /**
    Dynamic truncation as section 5.3 of RFC 4226 defines it: the four bytes at the
    offset, read as a big-endian number, with the top bit dropped (the last 31 bits).
    Here the offset comes from the last byte of the digest, as RFC 6238 does for
    SHA-256 and SHA-512 digests; for a 20-byte SHA-1 digest that is byte 19.
  */
  function DynamicTruncation(digest: seq<byte>): (value: nat)
    requires Truncatable(digest)
    ensures value < 0x8000_0000
  {
    var offset := Offset(digest);
    BigEndianValue(digest[offset..offset + 4]) % 0x8000_0000
  }

  /**
    The 31-bit value of `truncate`: the first byte masked with 0x7f and the four
    bytes shifted into place and or-ed together. The shifted fields do not
    overlap, so the ors are sums (GoTruncateExpression).
  */
  function TruncatedBits(digest: seq<byte>): (bits: nat)
    requires Truncatable(digest)
    ensures bits == DynamicTruncation(digest)
  {
    var offset := Offset(digest);
    var b0: int, b1: int, b2: int, b3: int := digest[offset], digest[offset + 1], digest[offset + 2], digest[offset + 3];
    var code := (b0 % 128) * 0x100_0000 + b1 * 0x1_0000 + b2 * 0x100 + b3;
    TruncatedBitsValue(b0, b1, b2, b3);
    var word := digest[offset..offset + 4];
    assert word[0] == b0 && word[1] == b1 && word[2] == b2 && word[3] == b3;
    assert word == [b0, b1, b2, b3];
    code
  }

  /** The masks, shifts and ors of `truncate`, on 64-bit words, are the arithmetic TruncatedBits uses. */
  lemma GoTruncateExpression(b0: bv64, b1: bv64, b2: bv64, b3: bv64)
    requires b0 < 256 && b1 < 256 && b2 < 256 && b3 < 256
    ensures ((b0 & 0x7f) << 24) | ((b1 & 0xff) << 16) | ((b2 & 0xff) << 8) | (b3 & 0xff)
         == (b0 % 128) * 0x100_0000 + b1 * 0x1_0000 + b2 * 0x100 + b3
    ensures b0 & 0xf == b0 % 16
  {
  }

  /** Dropping the top bit of a four-byte big-endian value keeps the low 31 bits. */
  lemma TruncatedBitsValue(b0: byte, b1: byte, b2: byte, b3: byte)
    ensures (b0 % 128) * 0x100_0000 + b1 * 0x1_0000 + b2 * 0x100 + b3 == BigEndianValue([b0, b1, b2, b3]) % 0x8000_0000
  {
    var low := (b0 % 128) * 0x100_0000 + b1 * 0x1_0000 + b2 * 0x100 + b3;
    BigEndianValueOfFour(b0, b1, b2, b3);
    var value := ((b0 * 256 + b1) * 256 + b2) * 256 + b3;
    assert value == (b0 / 128) * 0x8000_0000 + low;
    DivModUnique(value, 0x8000_0000, b0 / 128, low);
  }

  lemma BigEndianValueOfFour(b0: byte, b1: byte, b2: byte, b3: byte)
    ensures BigEndianValue([b0, b1, b2, b3]) == ((b0 * 256 + b1) * 256 + b2) * 256 + b3
  {
    assert [b0][..0] == [];
    assert BigEndianValue([b0]) == b0;
    assert [b0, b1][..1] == [b0];
    assert BigEndianValue([b0, b1]) == b0 * 256 + b1;
    assert [b0, b1, b2][..2] == [b0, b1];
    assert BigEndianValue([b0, b1, b2]) == (b0 * 256 + b1) * 256 + b2;
    assert [b0, b1, b2, b3][..3] == [b0, b1, b2];
  }

  /**
    `truncate(digest, codeLength)`: the dynamic truncation reduced modulo
    10^codeLength.
  */
  function Truncate(digest: seq<byte>, codeLength: int): (code: nat)
    requires Truncatable(digest) && SupportedCodeLength(codeLength)
    ensures code < Pow(10, codeLength)
    ensures code == DynamicTruncation(digest) % Pow(10, codeLength)
  {
    TruncatedBits(digest) % Pow(10, codeLength)
  }

  /**
    `hmac.New(hashFunc, secret)`, `Write(message)`, `Sum(nil)`: the digest of the
    provider, which is always long enough for `truncate`.
  */
  function HmacDigest(mac: Hmac, h: HashFunc, key: seq<byte>, message: seq<byte>): (digest: seq<byte>)
    ensures |digest| == DigestSize(h) && Truncatable(digest)
  {
    mac(h, key, message)
  }

  /**
    The bound 19 is tight: in an 18-byte digest whose last byte has low nibble 15,
    `truncate` would read byte 18, past the end.
  */
  lemma ShortDigestOutOfBounds(digest: seq<byte>)
    requires |digest| == 18 && digest[17] == 0x0F
    ensures Offset(digest) + 3 >= |digest|
  {
  }

  /**
    `Generate`'s value: HOTP(K, C) = Truncate(HMAC(K, C)) mod 10^Digit, over the
    8-byte counter of `input`, formatted to codeLength digits.
  */
  function Code(mac: Hmac, h: HashFunc, secret: seq<byte>, codeLength: int, input: int): (code: string)
    requires SupportedCodeLength(codeLength)
    ensures AllDigits(code)
    ensures 1 <= codeLength ==> |code| == codeLength
    ensures DecimalValue(code) == DynamicTruncation(HmacDigest(mac, h, secret, CounterBytes(input))) % Pow(10, codeLength)
  {
    var hmacData := HmacDigest(mac, h, secret, CounterBytes(input));
    var code := Truncate(hmacData, codeLength);
    FormatZeroPadded(code, codeLength)
  }
}
