/**
  The counter-based generator and validator of hotp.go: an `HTOP` object holds
  an otp.go `OTP`, a mutable `Counter` and a look-ahead `synchronizationLimit`.
  `Generate` emits the code of the current counter and advances it; `Validate`
  checks the current counter and then a bounded window ahead of it (the
  resynchronisation of section 7.4 of RFC 4226), moving the counter on success.
*/
module Hotp {
  import opened Encoding
  import opened OtpAlgorithm
  import Otp

  /** hotp.go's `HOTPConfig`. */
  datatype HOTPConfig = HOTPConfig(
    CodeLength: int,
    HashType: HashType,
    Secret: seq<byte>,
    Counter: int,
    SynchronizationLimit: int)

  function Max(a: int, b: int): int {
    if a < b then b else a
  }

  // ---------------------------------------------------------------------------
  // What Validate computes

  /** The code of each counter, as an HTOP's OTP generates it. */
  type CodeFunction = int -> string

  function Codes(o: Otp.OTP, mac: Hmac): (codes: CodeFunction)
    requires SupportedCodeLength(o.CodeLength)
    ensures forall n :: codes(n) == Otp.Generate(o, mac, n)
  {
    n => Otp.Generate(o, mac, n)
  }

  /**
    The first offset i in [from, limit) whose counter `counter + i` has code
    `input`: the look-ahead loop of Validate, as a function.
  */
  function FirstMatch(codes: CodeFunction, counter: int, input: string, from: int, limit: int): (r: Option<int>)
    ensures r.Some? ==> from <= r.value < limit && codes(counter + r.value) == input
    ensures r.Some? ==> forall n :: counter + from <= n < counter + r.value ==> codes(n) != input
    ensures r.None? ==> forall n :: counter + from <= n < counter + limit ==> codes(n) != input
    decreases limit - from
  {
    if from >= limit then None
    else if codes(counter + from) == input then Some(from)
    else FirstMatch(codes, counter, input, from + 1, limit)
  }

  /**
    The counter hotp.go's Validate leaves behind when it accepts `input`, or None
    when it rejects it. The window is the current counter and the next
    `limit - 1` counters. An exact match moves the counter one past it; a
    look-ahead match moves it onto the matched counter itself (see LookAheadReplay).
  */
  function Resync(codes: CodeFunction, counter: int, limit: int, input: string): (r: Option<int>)
    ensures r.Some? <==> exists n :: counter <= n < counter + Max(1, limit) && codes(n) == input
    ensures limit <= 1 ==> (r.Some? <==> codes(counter) == input)
    ensures r.Some? && codes(counter) == input ==> r.value == counter + 1
    ensures r.Some? && codes(counter) != input ==>
              counter < r.value < counter + limit && codes(r.value) == input
              && forall n :: counter <= n < r.value ==> codes(n) != input
  {
    if codes(counter) == input then Some(counter + 1)
    else match FirstMatch(codes, counter, input, 1, limit)
      case Some(i) => Some(counter + i)
      case None => None
  }

  /** Validate never accepts an input with a character other than a decimal digit. */
  lemma NonNumericRejected(o: Otp.OTP, mac: Hmac, counter: int, limit: int, input: string)
    requires SupportedCodeLength(o.CodeLength)
    requires !AllDigits(input)
    ensures Resync(Codes(o, mac), counter, limit, input) == None
  {
    if Resync(Codes(o, mac), counter, limit, input).Some? {
      assert false;
    }
  }

  /**
    After a look-ahead acceptance the counter sits on the counter that matched, so
    the very same input is accepted a second time, as an exact match.
  */
  lemma LookAheadReplay(codes: CodeFunction, counter: int, limit: int, input: string)
    requires Resync(codes, counter, limit, input).Some?
    requires codes(counter) != input
    ensures var next := Resync(codes, counter, limit, input).value;
            Resync(codes, next, limit, input) == Some(next + 1)
  {
  }

  /**
    The concrete case: the client is one code ahead (it sent the code of
    counter + 1 while the server is at counter) and the window reaches it. The
    same code is accepted at counter and again at counter + 1.
  */
  lemma LookAheadReplayExample(codes: CodeFunction, counter: int, limit: int, input: string)
    requires limit >= 2
    requires codes(counter) != input && codes(counter + 1) == input
    ensures Resync(codes, counter, limit, input) == Some(counter + 1)
    ensures Resync(codes, counter + 1, limit, input) == Some(counter + 2)
  {
    assert FirstMatch(codes, counter, input, 1, limit) == Some(1);
  }

  /**
    Resynchronisation as evidently intended: on acceptance the counter moves one
    past the counter that matched, whether that was the current one or one ahead.
  */
  function ResyncPastMatch(codes: CodeFunction, counter: int, limit: int, input: string): (r: Option<int>)
    ensures r.Some? <==> exists n :: counter <= n < counter + Max(1, limit) && codes(n) == input
  {
    if codes(counter) == input then Some(counter + 1)
    else match FirstMatch(codes, counter, input, 1, limit)
      case Some(i) => Some(counter + i + 1)
      case None => None
  }

  /**
    With the corrected update, an acceptance consumes the first matching counter
    of the window: the new counter is one past it, so no later validation, which
    starts at the new counter, can match that counter again.
  */
  lemma ResyncPastMatchConsumes(codes: CodeFunction, counter: int, limit: int, input: string)
    requires ResyncPastMatch(codes, counter, limit, input).Some?
    ensures var next := ResyncPastMatch(codes, counter, limit, input).value;
            counter < next <= counter + Max(1, limit)
            && codes(next - 1) == input
            && forall n :: counter <= n < next - 1 ==> codes(n) != input
  {
    if codes(counter) != input {
      var i := FirstMatch(codes, counter, input, 1, limit).value;
      assert ResyncPastMatch(codes, counter, limit, input) == Some(counter + i + 1);
    }
  }

  /** Both updates accept the same inputs; they differ by one exactly on look-ahead matches. */
  lemma ResyncPastMatchAgreement(codes: CodeFunction, counter: int, limit: int, input: string)
    ensures var asWritten := Resync(codes, counter, limit, input);
            var corrected := ResyncPastMatch(codes, counter, limit, input);
            asWritten.Some? == corrected.Some?
            && (asWritten.Some? && codes(counter) == input ==> corrected.value == asWritten.value)
            && (asWritten.Some? && codes(counter) != input ==> corrected.value == asWritten.value + 1)
  {
  }

  // ---------------------------------------------------------------------------
  // The HTOP object

  /** hotp.go's `HTOP`, with the HMAC provider it computes codes with. */
  class HTOP {
    const otp: Otp.OTP
    var Counter: int
    const synchronizationLimit: int
    const mac: Hmac

    constructor (otp: Otp.OTP, counter: int, synchronizationLimit: int, mac: Hmac)
      ensures this.otp == otp && Counter == counter
      ensures this.synchronizationLimit == synchronizationLimit && this.mac == mac
    {
      this.otp := otp;
      Counter := counter;
      this.synchronizationLimit := synchronizationLimit;
      this.mac := mac;
    }

    /** `h.Generate()`: the code of the current counter; the counter advances by one. */
    method Generate() returns (code: string)
      requires SupportedCodeLength(otp.CodeLength)
      modifies this`Counter
      ensures code == Otp.Generate(otp, mac, old(Counter))
      ensures Counter == old(Counter) + 1
    {
      code := Otp.Generate(otp, mac, Counter);
      Counter := Counter + 1;
    }

    /**
      `h.Validate(input)`: accepts when `input` is the code of the current counter
      or of one of the next synchronizationLimit - 1 counters, and then moves the
      counter as Resync says; a rejection leaves the counter unchanged.
    */
    method Validate(input: string) returns (valid: bool)
      requires SupportedCodeLength(otp.CodeLength)
      modifies this`Counter
      ensures valid <==> Resync(Codes(otp, mac), old(Counter), synchronizationLimit, input).Some?
      ensures valid ==> Counter == Resync(Codes(otp, mac), old(Counter), synchronizationLimit, input).value
      ensures !valid ==> Counter == old(Counter)
    {
      valid, Counter := ValidateWindow(Codes(otp, mac), Counter, synchronizationLimit, input);
    }
  }

  /**
    The steps of Validate from a counter value: compare with the code of
    `counter`, then with the codes of counter + 1, ..., counter + limit - 1 in
    ascending order, stopping at the first match. Returns whether some code
    matched and the counter Validate stores.
  */
  method ValidateWindow(codes: CodeFunction, counter: int, limit: int, input: string) returns (valid: bool, newCounter: int)
    ensures valid <==> Resync(codes, counter, limit, input).Some?
    ensures valid ==> newCounter == Resync(codes, counter, limit, input).value
    ensures !valid ==> newCounter == counter
  {
    if codes(counter) == input {
      return true, counter + 1;
    }
    var i := 1;
    while i < limit
      invariant 1 <= i
      invariant FirstMatch(codes, counter, input, 1, limit) == FirstMatch(codes, counter, input, i, limit)
      decreases limit - i
    {
      if codes(counter + i) == input {
        return true, counter + i;
      }
      i := i + 1;
    }
    return false, counter;
  }

  /**
    `NewHTOP(config)`: builds the OTP with otp.go's NewOTP (which panics on an
    empty secret) and copies the counter and the synchronisation limit.
  */
  method NewHTOP(config: HOTPConfig, mac: Hmac) returns (r: Result<HTOP>)
    ensures r.Panicked? <==> |config.Secret| == 0
    ensures r.Panicked? ==> r.reason == EmptySecret
    ensures r.Ok? ==> fresh(r.value)
    ensures r.Ok? ==> Otp.NewOTP(config.Secret, config.HashType, config.CodeLength) == Ok(r.value.otp)
    ensures r.Ok? ==> r.value.Counter == config.Counter && r.value.synchronizationLimit == config.SynchronizationLimit
    ensures r.Ok? ==> r.value.mac == mac
  {
    match Otp.NewOTP(config.Secret, config.HashType, config.CodeLength)
    case Panicked(reason) =>
      r := Panicked(reason);
    case Ok(otp) =>
      var h := new HTOP(otp, config.Counter, config.SynchronizationLimit, mac);
      r := Ok(h);
  }

  /**
    n successive Generate calls, as a client producing codes does: they yield the
    codes of counters c, c + 1, ..., c + n - 1 in order and leave the counter at c + n.
  */
  method GenerateSeries(h: HTOP, n: nat) returns (codes: seq<string>)
    requires SupportedCodeLength(h.otp.CodeLength)
    modifies h`Counter
    ensures |codes| == n
    ensures forall k :: 0 <= k < n ==> codes[k] == Otp.Generate(h.otp, h.mac, old(h.Counter) + k)
    ensures h.Counter == old(h.Counter) + n
  {
    codes := [];
    while |codes| < n
      invariant |codes| <= n
      invariant h.Counter == old(h.Counter) + |codes|
      invariant forall k :: 0 <= k < |codes| ==> codes[k] == Otp.Generate(h.otp, h.mac, old(h.Counter) + k)
    {
      var code := h.Generate();
      codes := codes + [code];
    }
  }
}
