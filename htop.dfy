/**
  The older counter-based generator of htop.go, built on opt.go's generator:
  no look-ahead window, the counter advances on a generated code or an exact
  match and nowhere else. A negative counter makes opt.go's Generate panic,
  which aborts the call before the counter is touched.
*/
module LegacyHotp {
  import opened Encoding
  import opened OtpAlgorithm
  import LegacyOtp

  /** htop.go's `HOTPConfig`: no synchronisation limit. */
  datatype HOTPConfig = HOTPConfig(CodeLength: int, HashType: HashType, Secret: seq<byte>, Counter: int)

  /** htop.go's `htop`, with the HMAC provider it computes codes with. */
  class Htop {
    const otp: LegacyOtp.OTP
    var Counter: int
    const mac: Hmac

    constructor (otp: LegacyOtp.OTP, counter: int, mac: Hmac)
      ensures this.otp == otp && Counter == counter && this.mac == mac
    {
      this.otp := otp;
      Counter := counter;
      this.mac := mac;
    }

    /**
      `h.Generate()`: the code of the current counter, after which the counter
      advances by one; on a negative counter the inner Generate panics first.
    */
    method Generate() returns (r: Result<string>)
      requires SupportedCodeLength(otp.codeLength)
      modifies this`Counter
      ensures r == LegacyOtp.Generate(otp, mac, old(Counter))
      ensures r.Ok? ==> Counter == old(Counter) + 1
      ensures r.Panicked? ==> Counter == old(Counter)
    {
      r := LegacyOtp.Generate(otp, mac, Counter);
      if r.Panicked? {
        return;
      }
      Counter := Counter + 1;
    }

    /**
      `h.Validate(input)`: true exactly when `input` is the code of the current
      counter, which then advances by one; false leaves the counter where it was.
    */
    method Validate(input: string) returns (r: Result<bool>)
      requires SupportedCodeLength(otp.codeLength)
      modifies this`Counter
      ensures r.Panicked? <==> old(Counter) < 0
      ensures r.Ok? ==> (r.value <==> LegacyOtp.Generate(otp, mac, old(Counter)) == Ok(input))
      ensures r == Ok(true) ==> Counter == old(Counter) + 1
      ensures r != Ok(true) ==> Counter == old(Counter)
    {
      var code := LegacyOtp.Generate(otp, mac, Counter);
      if code.Panicked? {
        return Panicked(code.reason);
      }
      if code.value == input {
        Counter := Counter + 1;
        return Ok(true);
      }
      return Ok(false);
    }
  }

  /** `NewHTOP(config)`: the older NewOTP of the configuration and its initial counter. */
  method NewHTOP(config: HOTPConfig, mac: Hmac) returns (h: Htop)
    ensures fresh(h)
    ensures h.otp == LegacyOtp.NewOTP(config.Secret, config.HashType, config.CodeLength)
    ensures h.Counter == config.Counter && h.mac == mac
  {
    h := new Htop(LegacyOtp.NewOTP(config.Secret, config.HashType, config.CodeLength), config.Counter, mac);
  }
}
