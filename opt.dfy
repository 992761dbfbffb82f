/**
  The older code generator of opt.go. Its `NewOTP` checks nothing and
  substitutes no defaults: it keeps the given secret, code length and hash name
  (an unknown name still selects SHA-1). Its `Generate` panics on a negative
  counter instead of letting it wrap.
*/
module LegacyOtp {
  import opened Encoding
  import opened OtpAlgorithm
  import Otp

  /** opt.go's `OTP`: every field is unexported. */
  datatype OTP = OTP(hashFunc: HashFunc, hashType: HashType, secret: seq<byte>, codeLength: int)

  /** `NewOTP(secret, hashType, codeLength)`: never panics; only the hash constructor is chosen. */
  function NewOTP(secret: seq<byte>, hashType: HashType, codeLength: int): (o: OTP)
    ensures o.secret == secret && o.codeLength == codeLength && o.hashType == hashType
    ensures IsKnownHashType(hashType) ==> HashTypeName(o.hashFunc) == hashType
    ensures !IsKnownHashType(hashType) ==> o.hashFunc == Sha1
  {
    OTP(SelectHashFunc(hashType), hashType, secret, codeLength)
  }

  /**
    `o.Generate(input)`: panics when input < 0; otherwise the code of the counter,
    computed as in otp.go.
  */
  function Generate(o: OTP, mac: Hmac, input: int): (r: Result<string>)
    requires SupportedCodeLength(o.codeLength)
    ensures r.Panicked? <==> input < 0
    ensures r.Panicked? ==> r.reason == NegativeInput
    ensures r.Ok? ==> AllDigits(r.value)
    ensures r.Ok? && 1 <= o.codeLength ==> |r.value| == o.codeLength
    ensures r.Ok? ==> DecimalValue(r.value)
                      == DynamicTruncation(HmacDigest(mac, o.hashFunc, o.secret, CounterBytes(input))) % Pow(10, o.codeLength)
  {
    if input < 0 then Panicked(NegativeInput)
    else Ok(Code(mac, o.hashFunc, o.secret, o.codeLength, input))
  }

  /**
    Every counter Generate admits is encoded exactly: the 8 bytes read back as
    the counter itself, with no wrap-around.
  */
  lemma AdmittedCounterRoundTrip(input: int)
    requires 0 <= input < TWO_63
    ensures BigEndianValue(CounterBytes(input)) == input
    ensures CounterBytes(input) == BigEndian(input, 8)
  {
    CounterBytesRoundTrip(input);
  }

  /**
    The two snapshots agree wherever both are defined: with a non-empty secret,
    a code length that otp.go does not replace, and a non-negative counter, the
    older Generate returns the code otp.go's Generate returns, whatever the hash name.
  */
  lemma SnapshotsAgree(secret: seq<byte>, hashType: HashType, codeLength: int, mac: Hmac, input: int)
    requires |secret| > 0 && codeLength != 0 && SupportedCodeLength(codeLength) && input >= 0
    ensures Otp.NewOTP(secret, hashType, codeLength).Ok?
    ensures Generate(NewOTP(secret, hashType, codeLength), mac, input)
         == Ok(Otp.Generate(Otp.NewOTP(secret, hashType, codeLength).value, mac, input))
  {
    var current := Otp.NewOTP(secret, hashType, codeLength).value;
    assert current.hashFunc == SelectHashFunc(hashType);
  }

  /**
    Where they differ: an unknown hash name is kept by the older NewOTP, while
    otp.go stores "SHA1"; both compute with SHA-1.
  */
  lemma UnknownHashNameKept(secret: seq<byte>, hashType: HashType, codeLength: int)
    requires |secret| > 0 && !IsKnownHashType(hashType)
    ensures NewOTP(secret, hashType, codeLength).hashType == hashType
    ensures Otp.NewOTP(secret, hashType, codeLength).value.HashType == SHA1 != hashType
    ensures NewOTP(secret, hashType, codeLength).hashFunc == Otp.NewOTP(secret, hashType, codeLength).value.hashFunc == Sha1
  {
  }

  /**
    Generate's code length 0 is not replaced by 6 here: "%00d" prints the value
    modulo 10^0 = 1, which is always "0".
  */
  lemma ZeroCodeLength(o: OTP, mac: Hmac, input: int)
    requires o.codeLength == 0 && input >= 0
    ensures Generate(o, mac, input) == Ok("0")
  {
    var code := Generate(o, mac, input).value;
    assert DecimalValue(code) == 0;
    assert Decimal(0) == "0";
  }
}
