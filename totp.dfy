/**
  The time-based generator of totp.go (RFC 6238) over opt.go's generator: the
  time step of a Unix timestamp is the timestamp divided by the period with
  Go's truncating division, and the code of a timestamp is the HOTP code of
  its time step. A `TOTP` is never changed after construction, so it is a value.
*/
module Totp {
  import opened Encoding
  import opened OtpAlgorithm
  import Otp
  import LegacyOtp

  /** totp.go's `TOTPConfig`. */
  datatype TOTPConfig = TOTPConfig(TimeInterval: int, CodeLength: int, HashType: HashType, Secret: seq<byte>)

  /** totp.go's `TOTP`: the generator and the length of a time step in seconds. */
  datatype TOTP = TOTP(otp: LegacyOtp.OTP, timePeriod: int)

  /**
    `NewTOTP(config)`: panics on an empty secret; an interval of 0 becomes 30
    seconds and a code length of 0 becomes 6; negative values are kept.
  */
  function NewTOTP(config: TOTPConfig): (r: Result<TOTP>)
    ensures r.Panicked? <==> |config.Secret| == 0
    ensures r.Panicked? ==> r.reason == EmptySecret
    ensures r.Ok? ==> r.value.timePeriod != 0
    ensures r.Ok? && config.TimeInterval == 0 ==> r.value.timePeriod == 30
    ensures r.Ok? && config.TimeInterval != 0 ==> r.value.timePeriod == config.TimeInterval
    ensures r.Ok? && config.CodeLength == 0 ==> r.value.otp.codeLength == 6
    ensures r.Ok? && config.CodeLength != 0 ==> r.value.otp.codeLength == config.CodeLength
    ensures r.Ok? ==> r.value.otp.secret == config.Secret && r.value.otp.hashType == config.HashType
    ensures r.Ok? ==> r.value.otp.hashFunc == SelectHashFunc(config.HashType)
  {
    if |config.Secret| <= 0 then Panicked(EmptySecret)
    else
      var interval := if config.TimeInterval == 0 then 30 else config.TimeInterval;
      var length := if config.CodeLength == 0 then 6 else config.CodeLength;
      Ok(TOTP(LegacyOtp.NewOTP(config.Secret, config.HashType, length), interval))
  }

  /**
    `t.timecode(ts)`: `int(ts) / timePeriod`, truncated toward zero. For ts >= 0
    and a positive period it is the number of whole periods since the epoch.
  */
  function TimeCode(t: TOTP, ts: int): (step: int)
    requires t.timePeriod != 0
    ensures ts >= 0 && t.timePeriod > 0 ==> 0 <= step && step * t.timePeriod <= ts < (step + 1) * t.timePeriod
    ensures -t.timePeriod < ts < 0 ==> step == 0
    ensures ts <= -t.timePeriod < 0 ==> step < 0
  {
    TimeCodeBounds(ts, t.timePeriod);
    GoQuotient(ts, t.timePeriod)
  }

  lemma TimeCodeBounds(ts: int, period: int)
    requires period != 0
    ensures var step := GoQuotient(ts, period);
            (ts >= 0 && period > 0 ==> 0 <= step && step * period <= ts < (step + 1) * period)
            && (-period < ts < 0 ==> step == 0)
            && (ts <= -period < 0 ==> step < 0)
  {
    var step := GoQuotient(ts, period);
    if ts >= 0 && period > 0 {
      assert (step + 1) * period == step * period + period;
      SignOfProduct(step + 1, period);
    } else if -period < ts < 0 {
      DivModUnique(-ts, period, 0, -ts);
    } else if ts <= -period < 0 {
      SignOfProduct(step, period);
    }
  }

  /** For ts >= 0 and a positive period the Go quotient is the floored one. */
  lemma TimeCodeIsFloor(t: TOTP, ts: int)
    requires t.timePeriod > 0 && ts >= 0
    ensures TimeCode(t, ts) == ts / t.timePeriod
  {
    var step := TimeCode(t, ts);
    DivModUnique(ts, t.timePeriod, step, ts - step * t.timePeriod);
  }

  /** `t.GenerateAt(ts)`: the code of the time step of ts; a negative step panics. */
  function GenerateAt(t: TOTP, mac: Hmac, ts: int): (r: Result<string>)
    requires t.timePeriod != 0 && SupportedCodeLength(t.otp.codeLength)
    ensures r.Panicked? <==> TimeCode(t, ts) < 0
    ensures r.Ok? ==> AllDigits(r.value)
    ensures r.Ok? && 1 <= t.otp.codeLength ==> |r.value| == t.otp.codeLength
  {
    LegacyOtp.Generate(t.otp, mac, TimeCode(t, ts))
  }

  /** `t.ValidateAt(ts, code)`: whether code is the code of ts; there is no skew window. */
  function ValidateAt(t: TOTP, mac: Hmac, ts: int, code: string): (r: Result<bool>)
    requires t.timePeriod != 0 && SupportedCodeLength(t.otp.codeLength)
    ensures r.Panicked? <==> GenerateAt(t, mac, ts).Panicked?
    ensures r.Ok? ==> (r.value <==> GenerateAt(t, mac, ts) == Ok(code))
  {
    match GenerateAt(t, mac, ts)
    case Panicked(reason) => Panicked(reason)
    case Ok(expected) => Ok(expected == code)
  }

  /**
    TOTP is HOTP at the time step: with a positive period and ts >= 0, the code
    is the older generator's code of counter floor(ts / period).
  */
  lemma GenerateAtIsHotp(t: TOTP, mac: Hmac, ts: int)
    requires t.timePeriod > 0 && SupportedCodeLength(t.otp.codeLength) && ts >= 0
    ensures GenerateAt(t, mac, ts) == LegacyOtp.Generate(t.otp, mac, ts / t.timePeriod)
    ensures GenerateAt(t, mac, ts).Ok?
  {
    TimeCodeIsFloor(t, ts);
  }

  /** All timestamps of one period [k * period, (k + 1) * period) share a code. */
  lemma SameWindowSameCode(t: TOTP, mac: Hmac, k: nat, ts1: int, ts2: int)
    requires t.timePeriod > 0 && SupportedCodeLength(t.otp.codeLength)
    requires k * t.timePeriod <= ts1 < (k + 1) * t.timePeriod
    requires k * t.timePeriod <= ts2 < (k + 1) * t.timePeriod
    ensures TimeCode(t, ts1) == TimeCode(t, ts2) == k
    ensures GenerateAt(t, mac, ts1) == GenerateAt(t, mac, ts2)
  {
    var p := t.timePeriod;
    assert 0 <= k * p by {
      assert k >= 0 && p > 0;
    }
    TimeCodeIsFloor(t, ts1);
    TimeCodeIsFloor(t, ts2);
    DivModUnique(ts1, p, k, ts1 - k * p);
    DivModUnique(ts2, p, k, ts2 - k * p);
  }

  /**
    A timestamp less than one period before the epoch is not rejected: the
    truncating division maps it to time step 0, the step of the epoch itself.
  */
  lemma NearEpochTimestamp(t: TOTP, mac: Hmac, ts: int)
    requires t.timePeriod > 0 && SupportedCodeLength(t.otp.codeLength)
    requires -t.timePeriod < ts < 0
    ensures GenerateAt(t, mac, ts) == GenerateAt(t, mac, 0)
    ensures GenerateAt(t, mac, ts).Ok?
  {
    assert TimeCode(t, 0) == 0;
  }

  /** A timestamp a whole period or more before the epoch has a negative step and panics. */
  lemma EarlyTimestampPanics(t: TOTP, mac: Hmac, ts: int)
    requires t.timePeriod > 0 && SupportedCodeLength(t.otp.codeLength)
    requires ts <= -t.timePeriod
    ensures GenerateAt(t, mac, ts) == Panicked(NegativeInput)
  {
  }

  /**
    A negative interval, which NewTOTP keeps, runs time backwards: a timestamp
    at least one period after the epoch has a negative step and panics, while
    one at least one period before it has a positive step and gets a code.
  */
  lemma NegativeIntervalReversesTime(t: TOTP, mac: Hmac, ts: int)
    requires t.timePeriod < 0 && SupportedCodeLength(t.otp.codeLength)
    ensures ts >= -t.timePeriod ==> GenerateAt(t, mac, ts) == Panicked(NegativeInput)
    ensures ts <= t.timePeriod ==> TimeCode(t, ts) > 0 && GenerateAt(t, mac, ts).Ok?
  {
    var p, step := t.timePeriod, TimeCode(t, ts);
    if ts >= -p {
      assert step * (-p) < 0;
      SignOfProduct(step, -p);
    } else if ts <= p {
      assert step * (-p) > 0;
      SignOfProduct(step, -p);
    }
  }

  /**
    The same time-based code computed over otp.go's generator: for a configuration
    with a secret, a non-zero code length, a positive period and ts >= 0, both
    snapshots give the same code.
  */
  lemma GenerateAtAgreesWithOtp(config: TOTPConfig, mac: Hmac, ts: int)
    requires |config.Secret| > 0 && config.CodeLength != 0 && SupportedCodeLength(config.CodeLength)
    requires config.TimeInterval > 0 && ts >= 0
    ensures NewTOTP(config).Ok? && Otp.NewOTP(config.Secret, config.HashType, config.CodeLength).Ok?
    ensures GenerateAt(NewTOTP(config).value, mac, ts)
         == Ok(Otp.Generate(Otp.NewOTP(config.Secret, config.HashType, config.CodeLength).value, mac, ts / config.TimeInterval))
  {
    var t := NewTOTP(config).value;
    GenerateAtIsHotp(t, mac, ts);
    LegacyOtp.SnapshotsAgree(config.Secret, config.HashType, config.CodeLength, mac, ts / config.TimeInterval);
  }
}
