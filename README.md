# basicOTP in Dafny

A model of basicOTP, a small Go library that generates and checks one-time
passwords. It covers HOTP (RFC 4226), where the code is derived from a counter,
and TOTP (RFC 6238), where the code is derived from a time step. The
repository holds two snapshots of the code, and they cannot be compiled
together:

- the current one: `otp.go` and `hotp.go`;
- an older one: `opt.go` and `htop.go`, which `totp.go` is written against
  (it reads the unexported `hashType` and `codeLength` fields that only
  `opt.go` has).

Each source file has its own Dafny module:

| file | module | what it holds |
|---|---|---|
| `encoding.dfy` | `Encoding` | The Go library behaviour the core relies on: `uint64(n)`, `binary.BigEndian.PutUint64`, `fmt`'s `%0<w>d`, `math.Pow10` on small exponents, and Go's integer division, which truncates toward zero. |
| `otp_algorithm.dfy` | `OtpAlgorithm` | Code that `otp.go` and `opt.go` share line for line: the hash names and the switch that picks a hash, `itob`, `truncate` (the dynamic truncation of section 5.3 of RFC 4226), and the body of `Generate`. |
| `otp.dfy` | `Otp` | `otp.go`. |
| `hotp.dfy` | `Hotp` | `hotp.go`. `HTOP` is a class whose `Counter` changes in place. |
| `opt.dfy` | `LegacyOtp` | `opt.go`. |
| `htop.dfy` | `LegacyHotp` | `htop.go`. `Htop` is a class whose `Counter` changes in place. |
| `totp.dfy` | `Totp` | `totp.go`, built on `LegacyOtp`. |

How Go constructs are modelled:

- **HMAC.** The computation is the parameter `mac` of type `Hmac`. The model
  knows only its digest length: 20 bytes for SHA-1, 32 for SHA-256 and 64 for
  SHA-512.
- **Panics.** A panic becomes `Result.Panicked` with its reason: an empty
  secret, or a negative counter in `opt.go`.
- **Bytes.** Bytes are integers from 0 to 255.
- **Bitwise operations in `truncate`.** The masks, shifts and ors are written
  as arithmetic: `& 0xf` is `% 16` and `& 0x7f` is `% 128`. The shifted fields
  do not overlap, so or-ing them is the same as adding them. The lemma
  `GoTruncateExpression` proves that the bitwise expression equals the
  arithmetic one on 64-bit words.
- **`HTOP.Validate`.** The class method runs `ValidateWindow` on its own
  fields. `ValidateWindow` holds the exact-match check and the look-ahead loop,
  written against any function from counters to codes.

## Model

| member | source | states |
|---|---|---|
| Encoding.ToUint64 | otp.go:99 | `uint64(n)` is below 2^64. It is n itself for 0 <= n < 2^64, and n + 2^64 for a negative 64-bit n. |
| Encoding.BigEndianValueOfBigEndian | otp.go:99 | Reading back the big-endian encoding of v in `width` bytes gives v modulo 256^width. |
| Encoding.BigEndianOfBigEndianValue | otp.go:99 | Encoding the value of a byte string, at its own length, gives back the string. |
| Encoding.BigEndianByte | otp.go:99 | Byte k of the encoding is the base-256 digit of weight 256^(width-1-k). |
| Encoding.Decimal | otp.go:78-79 | `%d` of n is a non-empty digit string whose value is n, and it has no more than k digits when n < 10^k. |
| Encoding.FormatZeroPadded | otp.go:78-79 | `%0<w>d` of n is all digits and denotes n. It has exactly w characters when 1 <= w and n < 10^w, and never fewer than w. When `%d` of n already has w or more digits, the output is that numeral unpadded. |
| Encoding.FormatZeroPaddedInjective | otp.go:78-79 | Different values never print as the same padded numeral. |
| Encoding.DecimalInjective | otp.go:78-79 | Two digit strings of the same length and the same value are equal. |
| Encoding.GoQuotient | totp.go:90 | Go's `a / b` leaves a remainder `a - q*b` that has the sign of a and is smaller in magnitude than b. |
| OtpAlgorithm.SelectHashFunc | otp.go:49-59 | A known name selects the hash of that name. Any other string selects SHA-1. |
| OtpAlgorithm.CounterBytes | otp.go:97-101 | `itob(n)` is 8 bytes whose big-endian value is `uint64(n)`. |
| OtpAlgorithm.CounterBytesRoundTrip | otp.go:97-101 | A counter 0 <= n < 2^63 reads back as n, and its bytes are its plain encoding. A negative counter wraps to n + 2^64. |
| OtpAlgorithm.CounterBytesInjective | otp.go:97-101 | Two Go ints with the same 8 bytes are the same int. |
| OtpAlgorithm.Itob | otp.go:97-101 | The method fills a fresh 8-element array, and its contents are exactly `CounterBytes(integer)`. |
| OtpAlgorithm.PutUint64Bytes | otp.go:99 | The eight stores of byte(v >> 56), ..., byte(v) are exactly the 8-byte big-endian encoding of v. |
| OtpAlgorithm.Offset | otp.go:85 | The offset, the low nibble of the last byte, is at most 15, so `truncate` reads no index past 18. |
| OtpAlgorithm.DynamicTruncation | otp.go:86-89 | The RFC 4226 reference value, the 4 bytes at the offset read big-endian and reduced modulo 2^31, is below 2^31. |
| OtpAlgorithm.TruncatedBits | otp.go:85-89 | The masked, shifted and or-ed word computed by `truncate` equals the reference dynamic truncation. |
| OtpAlgorithm.GoTruncateExpression | otp.go:85-89 | On 64-bit words, `truncate`'s masks, shifts and ors equal the arithmetic that TruncatedBits uses. `& 0xf` equals `% 16`. |
| OtpAlgorithm.TruncatedBitsValue | otp.go:86-89 | Masking the top byte with 0x7f keeps the low 31 bits of the 4-byte big-endian value. |
| OtpAlgorithm.Truncate | otp.go:84-94 | The result is below 10^codeLength and equals the dynamic truncation modulo 10^codeLength. |
| OtpAlgorithm.HmacDigest | otp.go:71-75 | Every digest has the length its hash gives, and that length is enough for `truncate`. |
| OtpAlgorithm.ShortDigestOutOfBounds | otp.go:85-89 | The length bound of 19 is tight. In an 18-byte digest whose last nibble is 15, `truncate` would read past the end. |
| OtpAlgorithm.Code | otp.go:70-80 | The code is all digits and exactly codeLength long when codeLength >= 1. Its value is the dynamic truncation of the HMAC of `itob(input)`, modulo 10^codeLength. |
| Otp.NewOTP | otp.go:39-67 | It panics exactly when the secret is empty. A code length of 0 becomes 6 and any other value is kept. A known hash name is kept. An unknown name selects SHA-1 and is stored as "SHA1". The result is always Valid. |
| Otp.NewOTPFixedPoint | otp.go:39-67 | Calling NewOTP on an OTP's own exported fields gives back the same OTP. |
| Otp.Generate | otp.go:70-80 | The code is all digits and exactly CodeLength long. Its value is the dynamic truncation of the counter's HMAC, modulo 10^CodeLength. |
| Otp.GenerateEqualIff | otp.go:70-80 | Two counters get the same code if and only if their truncations agree modulo 10^CodeLength. |
| Otp.NegativeCounterWraps | otp.go:97-101 | A negative counter is not rejected. Its bytes, and so its code, are those of input + 2^64. |
| Otp.Rfc4226TruncationExample | otp.go:84-94 | The worked example in section 5.4 of RFC 4226: offset 10, value 0x50ef7f19, six-digit code "872921". |
| Otp.AppendixDCodes | hotp_test.go:25-34 | A digest whose truncation is an Appendix D value of RFC 4226 makes Generate return the listed six-digit code. |
| Otp.AppendixDPrinted | hotp_test.go:25-34 | Each Appendix D truncated value, modulo 10^6 and printed to six places, is the listed code. |
| Otp.PrintsAsSixDigits | otp.go:78-79 | A value below 10^6, printed with "%06d", is the six-digit string that denotes it. |
| Hotp.FirstMatch | hotp.go:61-66 | Returns the first offset in [from, limit) whose code equals the input, with no match before it. Returns None when no counter in the window matches. |
| Hotp.Resync | hotp.go:51-69 | Validate accepts if and only if one of counters c .. c + max(1, limit) - 1 has the input as its code. An exact match sets the counter to c + 1. Otherwise it is set to the first matching counter ahead. With limit <= 1 only c is checked. |
| Hotp.ValidateWindow | hotp.go:51-69 | The check then the ascending look-ahead loop: returns acceptance exactly as Resync says and the counter Resync gives, or the unchanged counter. |
| Hotp.HTOP.Validate | hotp.go:51-69 | The method accepts exactly when Resync does. On success Counter is Resync's value. On failure Counter is unchanged. |
| Hotp.HTOP.Generate | hotp.go:42-46 | Returns the code of the counter before the call, and Counter goes up by exactly 1. |
| Hotp.HTOP.constructor | hotp.go:33-37 | Stores the OTP, the counter and the synchronisation limit. |
| Hotp.NewHTOP | hotp.go:31-38 | Panics exactly when otp.go's NewOTP does. Otherwise it copies Counter and SynchronizationLimit from the config. |
| Hotp.GenerateSeries | hotp_test.go:46-61 | n calls to Generate give the codes of c, c + 1, ..., c + n - 1 in order and leave Counter at c + n. |
| Hotp.NonNumericRejected | hotp_test.go:125 | An input holding any non-digit character, such as "aaaaaa", is never accepted. |
| Hotp.LookAheadReplay | hotp.go:61-64 | After a look-ahead acceptance the same input is accepted again, as an exact match. |
| Hotp.LookAheadReplayExample | hotp.go:61-64 | Server at c, the client sends the code of c + 1, and the window is at least 2. The code is accepted at c and then again at c + 1. |
| Hotp.ResyncPastMatch | hotp.go:54-64 | The corrected update accepts exactly the same inputs as Validate. |
| Hotp.ResyncPastMatchConsumes | hotp.go:54-64 | Under the corrected update, the new counter is one past the first matching counter, so that counter can never be matched again. |
| Hotp.ResyncPastMatchAgreement | hotp.go:54-64 | Both updates accept the same inputs. They agree on exact matches and differ by exactly 1 on look-ahead matches. |
| LegacyOtp.NewOTP | opt.go:33-53 | Never panics. Secret, code length and hash name are stored as given. An unknown name still selects SHA-1. |
| LegacyOtp.Generate | opt.go:58-72 | Panics exactly when input < 0. Otherwise the code is all digits, codeLength long, and its value is the truncation modulo 10^codeLength. |
| LegacyOtp.AdmittedCounterRoundTrip | opt.go:86-90 | Every counter Generate admits (0 <= input < 2^63) is encoded exactly, with no wrap-around. |
| LegacyOtp.SnapshotsAgree | opt.go:58-72 | With a secret, a non-zero code length and input >= 0, the older Generate returns otp.go's code. |
| LegacyOtp.UnknownHashNameKept | opt.go:43-50 | An unknown hash name is kept by opt.go and becomes "SHA1" in otp.go. Both compute with SHA-1. |
| LegacyOtp.ZeroCodeLength | opt.go:70-71 | A code length of 0 is not defaulted, and every code is then "0". |
| LegacyHotp.Htop.constructor | htop.go:18-21 | Stores the OTP and the counter. |
| LegacyHotp.Htop.Generate | htop.go:24-28 | Returns the inner Generate's result for the counter before the call. Counter goes up by 1 on success and is untouched by the panic. |
| LegacyHotp.Htop.Validate | htop.go:30-36 | Panics exactly on a negative counter. It is true if and only if the input is the code of the current counter, with no look-ahead. Counter goes up by 1 on true and is unchanged otherwise. |
| LegacyHotp.NewHTOP | htop.go:17-22 | Builds the OTP with opt.go's NewOTP and copies the initial counter. |
| Totp.NewTOTP | totp.go:25-44 | Panics exactly on an empty secret. An interval of 0 becomes 30 and a code length of 0 becomes 6. Other values, including negative ones, are kept. The period is never 0. |
| Totp.TimeCode | totp.go:89-91 | For ts >= 0 and a positive period, step * period <= ts < (step + 1) * period. For -period < ts < 0 the step is 0. For ts <= -period the step is negative. |
| Totp.TimeCodeBounds | totp.go:89-91 | The same three facts, stated about Go's truncating quotient. |
| Totp.TimeCodeIsFloor | totp.go:89-91 | For ts >= 0 and a positive period, Go's quotient equals floor(ts / period). |
| Totp.GenerateAt | totp.go:54-57 | Panics exactly when the time step is negative. Otherwise the code is all digits and codeLength long. |
| Totp.ValidateAt | totp.go:65-67 | True if and only if the code equals GenerateAt at that timestamp, with no skew window. It panics whenever GenerateAt does. |
| Totp.GenerateAtIsHotp | totp.go:54-57 | TOTP is HOTP at the time step: for ts >= 0 the code is the generator's code of floor(ts / period). |
| Totp.SameWindowSameCode | totp.go:54-57 | All timestamps in [k*period, (k+1)*period) have time step k and the same code. |
| Totp.NegativeIntervalReversesTime | totp.go:89-91 | With a negative interval, which NewTOTP keeps, a timestamp at least one period after the epoch panics with a negative input. A timestamp at least one period before the epoch gets a positive time step and a code. |
| Totp.NearEpochTimestamp | totp.go:89-91 | A timestamp less than one period before the epoch is accepted and gets the code of time step 0. |
| Totp.EarlyTimestampPanics | totp.go:89-91 | A timestamp a whole period or more before the epoch panics with a negative input. |
| Totp.GenerateAtAgreesWithOtp | totp.go:54-57 | For ts >= 0, a positive interval and a non-zero code length, computing over otp.go's generator gives the same code. |

## Left out

- HMAC-SHA1, HMAC-SHA256 and HMAC-SHA512 (otp.go:71-75, opt.go:63-67): these come from Go's crypto library. They are the `mac` parameter, constrained only by digest length. So the digests of the RFC test vectors cannot be reproduced. The Appendix D table is checked from its truncated values instead.
- `URI` of `HTOP` and `TOTP` (hotp.go:73-89, totp.go:71-86): these only format strings with base32, `url.PathEscape` and `fmt.Sprintf`.
- `TOTP.Generate` and `TOTP.Validate` (totp.go:47-51, totp.go:60-62): these read the wall clock (`time.Now`). `GenerateAt` and `ValidateAt`, which take the timestamp as a parameter, are modelled.
- Otp.Generate: requires a code length from 0 to 18 (`SupportedCodeLength`), the range where `int(math.Pow10(n))` is an exact integer. A negative length makes `Pow10` return a fraction whose `int` is 0, so Go panics dividing by zero. A length above 18 gives a float-to-int result that the platform decides. Neither is modelled.
- LegacyOtp.Generate: the same code-length range, for the same reason.
- Totp.GenerateAt: the same code-length range, for the same reason.
- Hotp.HTOP.Generate: `Counter + 1` is computed without 64-bit wrap-around. The same holds for `Counter + i` in Validate and `Counter + 1` in htop.go.
- Totp.TimeCode: the timestamp and the interval are unbounded integers. `int(int64)` is exact on 64-bit platforms, which is what is modelled. The one place where Go's quotient itself wraps is not modelled. In Go, `math.MinInt64 / -1` is `math.MinInt64`. So with an interval of -1, `GenerateAt(math.MinInt64)` gets a negative step and panics (totp.go:90, opt.go:59-60). The model's quotient is 2^63 there, and GenerateAt returns a code.
- Otp.NewOTP: the secret is stored as a value. Go stores the caller's slice itself (otp.go:62, opt.go:48). So a later write into that slice changes every code computed after it. The model does not capture that aliasing. The same holds for LegacyOtp.NewOTP.
- Concurrency: nothing in the library is concurrent.
- Objects after construction: no TOTP method changes `otp` or `timePeriod`, so `TOTP` is a datatype. The same is true of `otp` and `synchronizationLimit` in `HTOP`, which are `const` fields. Computing a code through the inner generator cannot change an `Htop`'s counter (htop_test.go:89) because that generator is a function.

## Behaviour at the edges

The code settles these inputs as follows. Each is proved:

- `otp.go`'s Generate does not reject a negative counter. The counter wraps
  modulo 2^64 (Otp.NegativeCounterWraps). Only `opt.go`'s Generate panics on
  a negative counter.
- `totp.go` computes the time step with Go's truncating division. With a
  positive interval, a timestamp in (-period, 0) gets time step 0 and a valid
  code (Totp.NearEpochTimestamp). Only timestamps a whole period or more
  before the epoch fail, through `opt.go`'s negative-input panic
  (Totp.EarlyTimestampPanics). With a negative interval the direction is
  reversed (Totp.NegativeIntervalReversesTime).
- `hotp.go`'s Validate checks the current counter and then the offsets 1 to
  `synchronizationLimit - 1` (Hotp.Resync). The look-ahead never reaches the
  counter `synchronizationLimit` steps ahead.

## Findings

| source | as written | input that shows it | evidently intended | confidence | as-written member | corrected member |
|---|---|---|---|---|---|---|
| hotp.go:61-64 | A look-ahead match at offset i sets `Counter` to `Counter + i`. That is the counter whose code matched, not the one after it. | Server counter c, window >= 2, and the client sends the code of c + 1 (which is not also the code of c). The code is accepted and the counter becomes c + 1. Sending the same code again is accepted a second time. | Move the counter one past the matched counter, as an exact match does on hotp.go:55, so that each code is accepted once. | high; not executed | Hotp.LookAheadReplayExample | Hotp.ResyncPastMatch |

The class method `Hotp.HTOP.Validate` keeps the behaviour of the code as
written. `Hotp.ResyncPastMatchAgreement` states exactly how the corrected update
differs from it.
