/**
  The code generator of otp.go: the `OTP` struct, its constructor `NewOTP`
  (empty-secret panic, default code length, SHA-1 fallback) and `Generate`,
  which is HOTP(K, C) of RFC 4226 formatted to `CodeLength` digits.
*/
module Otp {
  import opened Encoding
  import opened OtpAlgorithm

  /** otp.go's `OTP`: hash constructor, exported hash name, secret and exported code length. */
  datatype OTP = OTP(hashFunc: HashFunc, HashType: HashType, secret: seq<byte>, CodeLength: int)

  /**
    What every OTP built by NewOTP satisfies: the stored name names the stored hash,
    the secret is non-empty and the code length is not 0.
  */
  predicate Valid(o: OTP) {
    HashTypeName(o.hashFunc) == o.HashType && |o.secret| > 0 && o.CodeLength != 0
  }

  /**
    `NewOTP(secret, hashType, codeLength)`: panics on an empty secret; a code length
    of 0 becomes 6; an unknown hash name selects SHA-1 and is stored as "SHA1".
  */
  function NewOTP(secret: seq<byte>, hashType: HashType, codeLength: int): (r: Result<OTP>)
    ensures r.Panicked? <==> |secret| == 0
    ensures r.Panicked? ==> r.reason == EmptySecret
    ensures r.Ok? ==> Valid(r.value) && r.value.secret == secret
    ensures r.Ok? && codeLength == 0 ==> r.value.CodeLength == 6
    ensures r.Ok? && codeLength != 0 ==> r.value.CodeLength == codeLength
    ensures r.Ok? && IsKnownHashType(hashType) ==> r.value.HashType == hashType
    ensures r.Ok? && !IsKnownHashType(hashType) ==> r.value.hashFunc == Sha1 && r.value.HashType == SHA1
  {
    if |secret| <= 0 then Panicked(EmptySecret)
    else
      var length := if codeLength == 0 then 6 else codeLength;
      var hashFunc := SelectHashFunc(hashType);
      var name := if IsKnownHashType(hashType) then hashType else SHA1;
      Ok(OTP(hashFunc, name, secret, length))
  }

  /** Rebuilding an OTP from its own exported fields gives the same OTP. */
  lemma NewOTPFixedPoint(o: OTP)
    requires Valid(o)
    ensures NewOTP(o.secret, o.HashType, o.CodeLength) == Ok(o)
  {
    match o.hashFunc
    case Sha1 =>
    case Sha256 =>
    case Sha512 =>
  }

  /**
    `o.Generate(input)`: HMAC of the 8-byte counter under the secret, dynamically
    truncated, reduced modulo 10^CodeLength and printed with "%0<CodeLength>d".
    Negative inputs are not rejected; they wrap to input + 2^64 (CounterBytesRoundTrip).
  */
  function Generate(o: OTP, mac: Hmac, input: int): (code: string)
    requires SupportedCodeLength(o.CodeLength)
    ensures AllDigits(code)
    ensures 1 <= o.CodeLength ==> |code| == o.CodeLength
    ensures DecimalValue(code) == DynamicTruncation(HmacDigest(mac, o.hashFunc, o.secret, CounterBytes(input))) % Pow(10, o.CodeLength)
  {
    Code(mac, o.hashFunc, o.secret, o.CodeLength, input)
  }

  /**
    Two counters give the same code exactly when their dynamic truncations agree
    modulo 10^CodeLength: the printed code loses nothing else.
  */
  lemma GenerateEqualIff(o: OTP, mac: Hmac, m: int, n: int)
    requires SupportedCodeLength(o.CodeLength)
    ensures (Generate(o, mac, m) == Generate(o, mac, n)) <==>
            (DynamicTruncation(HmacDigest(mac, o.hashFunc, o.secret, CounterBytes(m))) % Pow(10, o.CodeLength)
             == DynamicTruncation(HmacDigest(mac, o.hashFunc, o.secret, CounterBytes(n))) % Pow(10, o.CodeLength))
  {
    var a := DynamicTruncation(HmacDigest(mac, o.hashFunc, o.secret, CounterBytes(m))) % Pow(10, o.CodeLength);
    var b := DynamicTruncation(HmacDigest(mac, o.hashFunc, o.secret, CounterBytes(n))) % Pow(10, o.CodeLength);
    if a == b {
      assert Generate(o, mac, m) == FormatZeroPadded(Truncate(HmacDigest(mac, o.hashFunc, o.secret, CounterBytes(m)), o.CodeLength), o.CodeLength);
      assert Generate(o, mac, n) == FormatZeroPadded(Truncate(HmacDigest(mac, o.hashFunc, o.secret, CounterBytes(n)), o.CodeLength), o.CodeLength);
    }
  }

  /**
    A negative counter is not rejected: it produces the code of the unsigned counter
    input + 2^64, whose 8 bytes are the same.
  */
  lemma NegativeCounterWraps(o: OTP, mac: Hmac, input: int)
    requires SupportedCodeLength(o.CodeLength)
    requires -TWO_63 <= input < 0
    ensures CounterBytes(input) == BigEndian(input + TWO_64, 8)
    ensures Generate(o, mac, input) == Generate(o, mac, input + TWO_64)
  {
    assert ToUint64(input) == input + TWO_64;
    assert ToUint64(input + TWO_64) == input + TWO_64 by {
      DivModUnique(input + TWO_64 + TWO_64, TWO_64, 1, input + TWO_64);
    }
  }

  // ---------------------------------------------------------------------------
  // Worked examples of RFC 4226

  /** The SHA-1 HMAC digest of the example in section 5.4 of RFC 4226. */
  const RFC4226_EXAMPLE_DIGEST: seq<byte> := [
    0x1f, 0x86, 0x98, 0x69, 0x0e, 0x02, 0xca, 0x16, 0x61, 0x85,
    0x50, 0xef, 0x7f, 0x19, 0xda, 0x8e, 0x94, 0x5b, 0x55, 0x5a]

  /** Section 5.4 of RFC 4226: offset 10, value 0x50ef7f19 = 1357872921, six-digit code 872921. */
  lemma Rfc4226TruncationExample()
    ensures Offset(RFC4226_EXAMPLE_DIGEST) == 10
    ensures DynamicTruncation(RFC4226_EXAMPLE_DIGEST) == 0x50ef7f19 == 1357872921
    ensures Truncate(RFC4226_EXAMPLE_DIGEST, 6) == 872921
    ensures FormatZeroPadded(Truncate(RFC4226_EXAMPLE_DIGEST, 6), 6) == "872921"
  {
    var word := RFC4226_EXAMPLE_DIGEST[10..14];
    assert word == [0x50, 0xef, 0x7f, 0x19];
    BigEndianValueOfFour(0x50, 0xef, 0x7f, 0x19);
    assert Pow(10, 6) == 1_000_000;
  }

  /**
    The truncated values of Appendix D of RFC 4226 (secret "12345678901234567890",
    counters 0 to 9) and the six-digit codes they print as.
  */
  const APPENDIX_D_VALUES: seq<nat> := [
    1284755224, 1094287082, 137359152, 1726969429, 1640338314,
    868254676, 1918287922, 82162583, 673399871, 645520489]

  const APPENDIX_D_CODES: seq<string> := [
    "755224", "287082", "359152", "969429", "338314",
    "254676", "287922", "162583", "399871", "520489"]

  /** A digest whose dynamic truncation is the Appendix D value of counter c prints as its listed code. */
  lemma AppendixDCodes(o: OTP, mac: Hmac, input: int, c: nat)
    requires o.CodeLength == 6 && c < 10
    requires DynamicTruncation(HmacDigest(mac, o.hashFunc, o.secret, CounterBytes(input))) == APPENDIX_D_VALUES[c]
    ensures Generate(o, mac, input) == APPENDIX_D_CODES[c]
  {
    assert Pow(10, 6) == 1_000_000;
    var code := APPENDIX_D_VALUES[c] % 1_000_000;
    assert Generate(o, mac, input) == FormatZeroPadded(code, 6);
    AppendixDPrinted(c);
  }

  lemma AppendixDPrinted(c: nat)
    requires c < 10
    ensures FormatZeroPadded(APPENDIX_D_VALUES[c] % 1_000_000, 6) == APPENDIX_D_CODES[c]
  {
    var n, s := APPENDIX_D_VALUES[c] % 1_000_000, APPENDIX_D_CODES[c];
    if c == 0 { assert n == 755224 && s == "755224"; }
    else if c == 1 { assert n == 287082 && s == "287082"; }
    else if c == 2 { assert n == 359152 && s == "359152"; }
    else if c == 3 { assert n == 969429 && s == "969429"; }
    else if c == 4 { assert n == 338314 && s == "338314"; }
    else if c == 5 { assert n == 254676 && s == "254676"; }
    else if c == 6 { assert n == 287922 && s == "287922"; }
    else if c == 7 { assert n == 162583 && s == "162583"; }
    else if c == 8 { assert n == 399871 && s == "399871"; }
    else { assert n == 520489 && s == "520489"; }
    PrintsAsSixDigits(n, s);
  }

  /** A value below 10^6 prints, padded to six places, as the six digits that denote it. */
  lemma PrintsAsSixDigits(n: nat, s: string)
    requires |s| == 6
    requires IsDigit(s[0]) && IsDigit(s[1]) && IsDigit(s[2]) && IsDigit(s[3]) && IsDigit(s[4]) && IsDigit(s[5])
    requires n == ((((DigitValue(s[0]) * 10 + DigitValue(s[1])) * 10 + DigitValue(s[2])) * 10
                   + DigitValue(s[3])) * 10 + DigitValue(s[4])) * 10 + DigitValue(s[5])
    ensures FormatZeroPadded(n, 6) == s
  {
    assert AllDigits(s) by {
      forall i | 0 <= i < 6 ensures IsDigit(s[i]) {
        if i == 0 {} else if i == 1 {} else if i == 2 {} else if i == 3 {} else if i == 4 {} else {}
      }
    }
    var v1 := DecimalValue(s[..1]);
    assert s[..1][..0] == [] && s[..1][0] == s[0];
    assert DecimalValue(s[..1][..0]) == 0;
    assert v1 == DigitValue(s[0]);
    var v2 := DecimalValue(s[..2]);
    assert s[..2][..1] == s[..1];
    assert v2 == v1 * 10 + DigitValue(s[1]);
    var v3 := DecimalValue(s[..3]);
    assert s[..3][..2] == s[..2];
    assert v3 == v2 * 10 + DigitValue(s[2]);
    var v4 := DecimalValue(s[..4]);
    assert s[..4][..3] == s[..3];
    assert v4 == v3 * 10 + DigitValue(s[3]);
    var v5 := DecimalValue(s[..5]);
    assert s[..5][..4] == s[..4];
    assert v5 == v4 * 10 + DigitValue(s[4]);
    assert s[..5] == s[..|s| - 1];
    assert DecimalValue(s) == v5 * 10 + DigitValue(s[5]);
    assert Pow(10, 6) == 1_000_000;
    DecimalInjective(s, FormatZeroPadded(n, 6));
  }
}
