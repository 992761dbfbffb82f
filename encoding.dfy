/**
  The pieces of Go's standard library that the OTP core leans on, stated as
  functions over unbounded integers: `math.Pow10` on small exponents,
  `binary.BigEndian.PutUint64`, the `uint64(...)` conversion, `fmt`'s `%0<w>d`
  verb on a non-negative value, and Go's truncating integer division.
*/
module Encoding {

  /** A Go `byte`, by its value. */
  type byte = b: int | 0 <= b < 256

  const TWO_63: int := 0x8000_0000_0000_0000
  const TWO_64: int := 0x1_0000_0000_0000_0000

  function Pow(base: nat, exp: nat): (p: nat)
    ensures base >= 1 ==> p >= 1
  {
    if exp == 0 then 1 else base * Pow(base, exp - 1)
  }

  lemma MulAtLeast(m: int, d: int)
    requires m > 0 && d > 0
    ensures m * d >= m
  {
    assert m * d == m * (d - 1) + m;
    assert m * (d - 1) >= 0;
  }

  lemma SignOfProduct(x: int, y: int)
    requires y > 0
    ensures x * y > 0 <==> x > 0
    ensures x * y < 0 <==> x < 0
  {
  }

  /** Division by a positive modulus has exactly one quotient and remainder. */
  lemma DivModUnique(a: int, m: int, q: int, r: int)
    requires 0 < m && a == m * q + r && 0 <= r < m
    ensures a / m == q && a % m == r
  {
    var q0, r0 := a / m, a % m;
    assert m * q0 + r0 == m * q + r;
    if q0 > q {
      assert m * q0 == m * q + m * (q0 - q);
      MulAtLeast(m, q0 - q);
    } else if q0 < q {
      assert m * q == m * q0 + m * (q - q0);
      MulAtLeast(m, q - q0);
    }
  }

  // ---------------------------------------------------------------------------
  // Unsigned big-endian encoding

  /** Go's `uint64(n)`: the two's-complement bits of a 64-bit `int` read as unsigned. */
  function ToUint64(n: int): (u: nat)
    ensures u < TWO_64
    ensures 0 <= n < TWO_64 ==> u == n
    ensures -TWO_63 <= n < 0 ==> u == n + TWO_64
  {
    n % TWO_64
  }

  /** The `width` low-order bytes of v, most significant first. */
  function BigEndian(v: nat, width: nat): (s: seq<byte>)
    ensures |s| == width
  {
    if width == 0 then [] else BigEndian(v / 256, width - 1) + [(v % 256) as byte]
  }

  /** The unsigned number a big-endian byte string denotes. */
  function BigEndianValue(s: seq<byte>): (v: nat)
    ensures v < Pow(256, |s|)
  {
    if s == [] then 0 else BigEndianValue(s[..|s| - 1]) * 256 + s[|s| - 1] as nat
  }

  /** Dropping the low byte, then dividing by p, is dividing by 256 * p. */
  lemma DivModShift(v: nat, p: nat)
    requires p > 0
    ensures v / (256 * p) == (v / 256) / p
    ensures v % (256 * p) == 256 * ((v / 256) % p) + v % 256
  {
    var q, r := v / 256, v % 256;
    var qa, qb := q / p, q % p;
    assert q == p * qa + qb;
    assert 256 * q == (256 * p) * qa + 256 * qb;
    assert v == (256 * p) * qa + (qb * 256 + r);
    DivModUnique(v, 256 * p, qa, qb * 256 + r);
  }

  /** Decoding an encoding gives back the value modulo 256^width. */
  lemma {:induction false} BigEndianValueOfBigEndian(v: nat, width: nat)
    ensures BigEndianValue(BigEndian(v, width)) == v % Pow(256, width)
  {
    if width > 0 {
      var s := BigEndian(v, width);
      var p := Pow(256, width - 1);
      assert Pow(256, width) == 256 * p;
      BigEndianValueOfBigEndian(v / 256, width - 1);
      var low := (v % 256) as byte;
      assert s == BigEndian(v / 256, width - 1) + [low];
      assert s[..width - 1] == BigEndian(v / 256, width - 1);
      calc {
        BigEndianValue(s);
        BigEndianValue(s[..width - 1]) * 256 + s[width - 1] as nat;
        ((v / 256) % p) * 256 + v % 256;
        { DivModShift(v, p); }
        v % (256 * p);
      }
    }
  }

  /** Encoding the value of a byte string gives back the byte string. */
  lemma {:induction false} BigEndianOfBigEndianValue(s: seq<byte>)
    ensures BigEndian(BigEndianValue(s), |s|) == s
  {
    if s != [] {
      var init, last := s[..|s| - 1], s[|s| - 1];
      var v := BigEndianValue(s);
      DivModUnique(v, 256, BigEndianValue(init), last as nat);
      BigEndianOfBigEndianValue(init);
      assert s == init + [last];
    }
  }

  /** Byte k of the encoding is the base-256 digit of weight 256^(width-1-k). */
  lemma {:induction false} BigEndianByte(v: nat, width: nat, k: nat)
    requires k < width
    ensures BigEndian(v, width)[k] == ((v / Pow(256, width - 1 - k)) % 256) as byte
  {
    if k < width - 1 {
      BigEndianByte(v / 256, width - 1, k);
      DivModShift(v, Pow(256, width - 2 - k));
    }
  }

  // ---------------------------------------------------------------------------
  // Decimal digits

  predicate IsDigit(c: char) {
    '0' <= c <= '9'
  }

  predicate AllDigits(s: string) {
    forall i :: 0 <= i < |s| ==> IsDigit(s[i])
  }

  /** The value of one decimal digit character. */
  function DigitValue(c: char): int {
    c as int - '0' as int
  }

  function DigitChar(d: nat): (c: char)
    requires d < 10
    ensures IsDigit(c) && DigitValue(c) == d
  {
    ('0' as int + d) as char
  }

  /** The number a digit string denotes (what `strconv.Atoi` reads back). */
  function DecimalValue(s: string): nat
    requires AllDigits(s)
  {
    if s == [] then 0 else DecimalValue(s[..|s| - 1]) * 10 + DigitValue(s[|s| - 1])
  }

  /** The shortest decimal numeral of n, as `%d` prints it. */
  function Decimal(n: nat): (s: string)
    ensures |s| >= 1 && AllDigits(s)
    ensures DecimalValue(s) == n
    ensures forall k :: 1 <= k && n < Pow(10, k) ==> |s| <= k
  {
    if n < 10 then [DigitChar(n)]
    else
      var init := Decimal(n / 10);
      var s := init + [DigitChar(n % 10)];
      assert s[..|s| - 1] == init;
      s
  }

  /** Two numerals of the same length and value are the same string. */
  lemma {:induction false} DecimalInjective(s: string, t: string)
    requires AllDigits(s) && AllDigits(t) && |s| == |t|
    requires DecimalValue(s) == DecimalValue(t)
    ensures s == t
  {
    if s != [] {
      var n := |s|;
      var si, ti := s[..n - 1], t[..n - 1];
      var sd, td := DigitValue(s[n - 1]), DigitValue(t[n - 1]);
      assert IsDigit(s[n - 1]) && IsDigit(t[n - 1]);
      assert DecimalValue(s) == DecimalValue(si) * 10 + sd;
      assert DecimalValue(t) == DecimalValue(ti) * 10 + td;
      DivModUnique(DecimalValue(s), 10, DecimalValue(si), sd);
      DivModUnique(DecimalValue(t), 10, DecimalValue(ti), td);
      DecimalInjective(si, ti);
      assert s[n - 1] == t[n - 1];
      assert s == si + [s[n - 1]];
      assert t == ti + [t[n - 1]];
    }
  }

  function Zeros(n: nat): (z: string)
    ensures |z| == n && forall i :: 0 <= i < n ==> z[i] == '0'
  {
    seq(n, _ => '0')
  }

  /** Leading zeros do not change the value of a numeral. */
  lemma {:induction false} LeadingZerosValue(n: nat, s: string)
    requires AllDigits(s)
    ensures AllDigits(Zeros(n) + s) && DecimalValue(Zeros(n) + s) == DecimalValue(s)
  {
    if s == [] {
      assert Zeros(n) + s == Zeros(n);
      ZerosValue(n);
    } else {
      var init := s[..|s| - 1];
      LeadingZerosValue(n, init);
      assert (Zeros(n) + s)[..|Zeros(n) + s| - 1] == Zeros(n) + init;
    }
  }

  lemma {:induction false} ZerosValue(n: nat)
    ensures AllDigits(Zeros(n)) && DecimalValue(Zeros(n)) == 0
  {
    if n > 0 {
      ZerosValue(n - 1);
      assert Zeros(n)[..n - 1] == Zeros(n - 1);
    }
  }

  /**
    `fmt.Sprintf("%0<width>d", n)` for n >= 0: the decimal numeral of n, left-padded
    with '0' up to width characters. A width of 0 (the format "%00d") pads nothing.
  */
  function FormatZeroPadded(n: nat, width: int): (s: string)
    ensures AllDigits(s) && DecimalValue(s) == n
    ensures 1 <= width && n < Pow(10, width) ==> |s| == width
    ensures |s| >= width && |s| >= 1
    ensures |Decimal(n)| < width ==> |s| == width
    ensures |Decimal(n)| >= width ==> s == Decimal(n)
  {
    var digits := Decimal(n);
    if |digits| < width then
      LeadingZerosValue(width - |digits|, digits);
      Zeros(width - |digits|) + digits
    else
      digits
  }

  /** Distinct values never print to the same padded numeral. */
  lemma FormatZeroPaddedInjective(m: nat, n: nat, width: int)
    requires FormatZeroPadded(m, width) == FormatZeroPadded(n, width)
    ensures m == n
  {
  }

  // ---------------------------------------------------------------------------
  // Go's integer division

  function Abs(x: int): nat {
    if x < 0 then -x else x
  }

  /**
    Go's `a / b` on integers: the quotient truncated toward zero, so the remainder
    `a - q * b` takes the sign of a. It equals the floored (Euclidean) quotient only
    when a >= 0.
  */
  function GoQuotient(a: int, b: int): (q: int)
    requires b != 0
    ensures a >= 0 ==> 0 <= a - q * b < Abs(b)
    ensures a < 0 ==> 0 <= q * b - a < Abs(b)
  {
    if a >= 0 then a / b else -((-a) / b)
  }
}
