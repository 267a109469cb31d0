/**
 * The two Foundation types the Hardpack containers give wire forms of
 * their own, and the conversions those forms involve.
 *
 * A `UUID` is 16 bytes.  Its `uuidString` is those bytes as 32 upper-case
 * hexadecimal digits in groups of 8-4-4-4-12 joined by hyphens, and
 * `UUID(uuidString:)` parses that form back, accepting digits of either
 * case.  Its own `encode(to:)` writes the string, its `init(from:)` reads
 * a string and parses it.
 *
 * A `Date` is a `Double`, `timeIntervalSinceReferenceDate`: seconds since
 * 2001-01-01.  Its own `encode(to:)` and `init(from:)` write and read that
 * `Double`; the containers' `encodeDate` and `decodeDate` convert it to
 * and from whole milliseconds since 1970, in `Double` arithmetic.
 *
 * `Double` arithmetic is IEEE 754 binary64 with rounding to nearest, ties
 * to even; it is written out below on bit patterns, so that the date
 * conversions are the ones the program performs.
 */
module Foundation {
  import opened Wire

  // ---------------------------------------------------------------------
  // binary64
  // ---------------------------------------------------------------------

  /** What a `Double` bit pattern stands for.  Both zeros are `Finite(0.0)`. */
  datatype Number = Finite(r: real) | Infinite(negative: bool) | NaN

  /** 2 to the power `e`. */
  function Pow2Real(e: int): (r: real)
    ensures r > 0.0
  {
    if e >= 0 then Pow2(e) as real else 1.0 / Pow2(-e) as real
  }

  /** `(x * y) as real` is `x as real * y as real`. */
  lemma RealProduct(x: nat, y: nat)
    ensures (x * y) as real == x as real * y as real
  {
  }

  /** 1/x * y == y / x and 1/(x*y) == (1/x) * (1/y), for positive `x` and `y`. */
  lemma Reciprocals(x: real, y: real)
    requires x > 0.0 && y > 0.0
    ensures 1.0 / x * y == y / x
    ensures 1.0 / (x * y) == (1.0 / x) * (1.0 / y)
  {
  }

  lemma Pow2RealAdd(a: int, b: nat)
    ensures Pow2Real(a + b) == Pow2Real(a) * Pow2Real(b)
  {
    if a >= 0 {
      Pow2RealAddNatural(a, b);
    } else if a + b >= 0 {
      Pow2RealAddMixed(a, b);
    } else {
      Pow2RealAddNegative(a, b);
    }
  }

  lemma Pow2RealAddNatural(a: int, b: nat)
    requires a >= 0
    ensures Pow2Real(a + b) == Pow2Real(a) * Pow2Real(b)
  {
    Pow2Add(a, b);
    RealProduct(Pow2(a), Pow2(b));
  }

  lemma Pow2RealAddMixed(a: int, b: nat)
    requires a < 0 <= a + b
    ensures Pow2Real(a + b) == Pow2Real(a) * Pow2Real(b)
  {
    Pow2Split(-a, a + b, b);
    MixedSigns(Pow2(-a), Pow2(a + b), Pow2(b));
  }

  lemma Pow2RealAddNegative(a: int, b: nat)
    requires a + b < 0
    ensures Pow2Real(a + b) == Pow2Real(a) * Pow2Real(b)
  {
    Pow2Split(-a - b, b, -a);
    BothNegative(Pow2(-a - b), Pow2(b), Pow2(-a));
  }

  /** 2^c == 2^x * 2^y where c == x + y. */
  lemma Pow2Split(x: nat, y: nat, c: nat)
    requires c == x + y
    ensures Pow2(c) == Pow2(x) * Pow2(y)
  {
    Pow2Add(x, y);
  }

  /** With z == x * y: y == (1/x) * z. */
  lemma MixedSigns(x: nat, y: nat, z: nat)
    requires x > 0 && z == x * y
    ensures y as real == (1.0 / x as real) * z as real
  {
    RealProduct(x, y);
  }

  /** With z == x * y: 1/x == (1/z) * y. */
  lemma BothNegative(x: nat, y: nat, z: nat)
    requires x > 0 && y > 0 && z == x * y
    ensures 1.0 / x as real == (1.0 / z as real) * y as real
  {
    RealProduct(x, y);
  }

  /** (x * y) / x == y. */
  lemma Cancel(x: real, y: real)
    requires x > 0.0
    ensures (x * y) / x == y
  {
  }

  lemma Pow2RealNat(n: nat)
    ensures Pow2Real(n) == Pow2(n) as real
  {
  }

  lemma Pow2RealMonotone(a: int, b: int)
    requires a <= b
    ensures Pow2Real(a) <= Pow2Real(b)
  {
    if a >= 0 {
      Pow2Monotone(a, b);
    } else if b < 0 {
      Pow2Monotone(-b, -a);
      ReciprocalMonotone(Pow2(-a) as real, Pow2(-b) as real);
    } else {
      Pow2Monotone(0, b);
      ReciprocalMonotone(Pow2(-a) as real, 1.0);
    }
  }

  lemma ReciprocalMonotone(x: real, y: real)
    requires 0.0 < y <= x
    ensures 1.0 / x <= 1.0 / y
  {
  }

  /** The `e` with 2^e <= n < 2^(e+1). */
  function Log2Floor(n: nat): (e: nat)
    requires n >= 1
    ensures Pow2(e) <= n < Pow2(e + 1)
  {
    if n == 1 then 0 else 1 + Log2Floor(n / 2)
  }

  /** The binary exponent of `m`: 2^e <= m < 2^(e+1). */
  function Exponent(m: real): (e: int)
    requires m > 0.0
    ensures Pow2Real(e) <= m < Pow2Real(e + 1)
  {
    if m >= 1.0 then
      var e := Log2Floor(m.Floor);
      Pow2RealNat(e);
      Pow2RealNat(e + 1);
      e
    else
      // 2^k <= 1/m < 2^(k+1), so 2^-(k+1) < m <= 2^-k
      var k: int := Log2Floor((1.0 / m).Floor);
      ReciprocalExponent(m, k);
      if m == Pow2Real(-k) then -k else -k - 1
  }

  lemma ScaleLess(x: real, y: real, p: real)
    requires p > 0.0 && x * p < y * p
    ensures x < y
  {
  }

  lemma ScaleLessEq(x: real, y: real, p: real)
    requires p > 0.0 && x * p <= y * p
    ensures x <= y
  {
  }

  lemma ReciprocalExponent(m: real, k: int)
    requires 0.0 < m < 1.0 && 1.0 / m >= 1.0 && k == Log2Floor((1.0 / m).Floor)
    ensures Pow2Real(-k - 1) < m <= Pow2Real(-k)
  {
    var p := Pow2(k) as real;
    assert Pow2(k + 1) as real == 2.0 * p;
    FloorExponent(1.0 / m, k);
    ReciprocalBounds(m, p);
    assert Pow2Real(-k) == 1.0 / p;
  }

  lemma FloorExponent(r: real, k: int)
    requires r >= 1.0 && k == Log2Floor(r.Floor)
    ensures Pow2(k) as real <= r < 2.0 * Pow2(k) as real
  {
  }

  /** If 1/m lies in [p, 2p), then m lies in (1/(2p), 1/p]. */
  lemma ReciprocalBounds(m: real, p: real)
    requires m > 0.0 && 0.0 < p <= 1.0 / m < 2.0 * p
    ensures 1.0 / (2.0 * p) < m <= 1.0 / p
  {
  }

  /** The integer nearest `y`, the even one of two equally near. */
  function RoundHalfEven(y: real): (n: nat)
    requires y >= 0.0
    ensures y.Floor <= n <= y.Floor + 1
  {
    var f := y.Floor;
    var d := y - f as real;
    if d < 0.5 || (d == 0.5 && f % 2 == 0) then f else f + 1
  }

  lemma Pow2Of53()
    ensures Pow2(52) == 0x10_0000_0000_0000
    ensures Pow2(53) == 0x20_0000_0000_0000
  {
    assert Pow2(4) == 0x10;
    assert Pow2(8) == 0x100;
    Pow2Add(8, 8);
    Pow2Add(16, 16);
    Pow2Add(32, 16);
    Pow2Add(48, 4);
  }

  /** `m / 2^q` stays below 2^53 when `m` is below 2^(q+53). */
  lemma ScaledBelow(m: real, q: int)
    requires 0.0 < m < Pow2Real(q + 53)
    ensures m / Pow2Real(q) < 0x20_0000_0000_0000 as real
  {
    Pow2RealAdd(q, 53);
    Pow2Of53();
    DivideBelow(m, Pow2Real(q), 0x20_0000_0000_0000 as real);
  }

  lemma DivideBelow(m: real, p: real, c: real)
    requires p > 0.0 && m < p * c
    ensures m / p < c
  {
  }

  /**
   * The bit pattern of the `Double` nearest `x`: 53 significant bits, or
   * fewer below 2^-1022 (subnormals), ties to the even significand, a
   * magnitude too large for any finite `Double` to infinity, and zero to
   * +0.
   */
  function Round(x: real): (bits: nat)
    ensures bits < UInt64Limit
    ensures x < 0.0 <==> bits >= 0x8000_0000_0000_0000
  {
    if x == 0.0 then 0
    else
      var m := if x < 0.0 then -x else x;
      var q := Quantum(m);
      var y := m / Pow2Real(q);
      var n := RoundHalfEven(y);
      assert n <= 0x20_0000_0000_0000 by {
        assert y.Floor < 0x20_0000_0000_0000;
      }
      Assemble(x < 0.0, n, q)
  }

  /**
   * The weight of the last of the 53 significant bits of `m`, or of the
   * last subnormal bit, 2^-1074, if that is larger.
   */
  function Quantum(m: real): (q: int)
    requires m > 0.0
    ensures q >= -1074
    ensures 0.0 < m / Pow2Real(q) < 0x20_0000_0000_0000 as real
  {
    var e := Exponent(m);
    var q := if e - 52 < -1074 then -1074 else e - 52;
    Pow2RealMonotone(e + 1, q + 53);
    ScaledBelow(m, q);
    PositiveQuotient(m, Pow2Real(q));
    q
  }

  lemma PositiveQuotient(m: real, p: real)
    requires m > 0.0 && p > 0.0
    ensures m / p > 0.0
  {
  }

  /**
   * The bit pattern of the number n * 2^q, n <= 2^53, rounded already: a
   * significand of 2^53 carries into the exponent, an exponent past the
   * largest finite `Double` is an infinity, and a significand below 2^52
   * (only possible at q = -1074) is a subnormal.
   */
  function Assemble(negative: bool, n: nat, q: int): (bits: nat)
    requires n <= 0x20_0000_0000_0000 && q >= -1074
    ensures bits < UInt64Limit
    ensures negative <==> bits >= 0x8000_0000_0000_0000
  {
    var sign := if negative then 0x8000_0000_0000_0000 else 0;
    var significand := if n == 0x20_0000_0000_0000 then 0x10_0000_0000_0000 else n;
    var exponent := if n == 0x20_0000_0000_0000 then q + 1 else q;
    if exponent > 971 then sign + 0x7FF0_0000_0000_0000
    else if significand < 0x10_0000_0000_0000 then sign + significand
    else sign + (exponent + 1075) * 0x10_0000_0000_0000 + (significand - 0x10_0000_0000_0000)
  }

  /** The number the bit pattern `bits` of a `Double` stands for. */
  function Denote(bits: nat): Number
  {
    var negative := bits >= 0x8000_0000_0000_0000;
    var field := bits / 0x10_0000_0000_0000 % 0x800;
    var fraction := bits % 0x10_0000_0000_0000;
    if field == 0x7FF then (if fraction == 0 then Infinite(negative) else NaN)
    else
      var magnitude :=
        if field == 0 && fraction == 0 then 0.0
        else if field == 0 then fraction as real * Pow2Real(field + 1 - 1075)
        else (0x10_0000_0000_0000 + fraction) as real * Pow2Real(field - 1075);
      Finite(if negative then -magnitude else magnitude)
  }

  /** `Double(n)` for an integer `n`. */
  function FromInteger(n: int): nat
  {
    Round(n as real)
  }

  /** `x + c`, for a constant `c` that is itself a `Double`: an infinity or a NaN stays as it is. */
  function AddConstant(x: nat, c: real): nat
  {
    match Denote(x)
    case Finite(r) => Round(r + c)
    case _ => x
  }

  /** `x * c`, for a positive constant `c` that is itself a `Double`. */
  function MultiplyConstant(x: nat, c: real): nat
    requires c > 0.0
  {
    match Denote(x)
    case Finite(r) => Round(r * c)
    case _ => x
  }

  /** `x / c`, for a positive constant `c` that is itself a `Double`. */
  function DivideConstant(x: nat, c: real): nat
    requires c > 0.0
  {
    match Denote(x)
    case Finite(r) => Round(r / c)
    case _ => x
  }

  /**
   * `UInt64(x)`: the value truncated toward zero, or `None` where Swift
   * traps: a NaN, an infinity, and a value outside -1 < x < 2^64.
   */
  function TruncateToUInt64(x: nat): (r: Option<nat>)
    ensures r.Some? ==> r.value < UInt64Limit
  {
    match Denote(x)
    case Finite(v) =>
      if -1.0 < v < UInt64Limit as real then Some(if v < 0.0 then 0 else v.Floor) else None
    case _ => None
  }

  /** Every whole number below 2^53 is a `Double` exactly. */
  lemma WholeNumbersAreExact(k: nat)
    requires k < 0x20_0000_0000_0000
    ensures Denote(FromInteger(k)) == Finite(k as real)
  {
    if k == 0 {
      ZeroIsExact(k);
    } else {
      var e := Log2Floor(k);
      ExponentOfWhole(k, e);
      ExactScaling(k, e);
    }
  }

  lemma ZeroIsExact(k: nat)
    requires k == 0
    ensures Denote(FromInteger(k)) == Finite(0.0)
  {
    RoundZero(k as real);
    DenoteZero(FromInteger(k));
  }

  lemma RoundZero(x: real)
    requires x == 0.0
    ensures Round(x) == 0
  {
  }

  /** The bit pattern 0 stands for 0. */
  lemma DenoteZero(bits: nat)
    requires bits == 0
    ensures Denote(bits) == Finite(0.0)
  {
    assert bits / 0x10_0000_0000_0000 % 0x800 == 0;
    assert bits % 0x10_0000_0000_0000 == 0;
  }

  lemma ExponentOfWhole(k: nat, e: nat)
    requires k < 0x20_0000_0000_0000 && Pow2(e) <= k
    ensures e <= 52
  {
    Pow2Of53();
    if e >= 53 {
      Pow2Monotone(53, e);
    }
  }

  /**
   * For 2^e <= k < 2^(e+1) with e <= 52, `Round` keeps `k` whole: its
   * significand is n = k * 2^(52-e) and its exponent field `e + 1023`.
   */
  lemma ExactScaling(k: nat, e: nat)
    requires 1 <= k && e <= 52 && Pow2(e) <= k < Pow2(e + 1)
    ensures Denote(FromInteger(k)) == Finite(k as real)
  {
    var p := Pow2(52 - e);
    var n := k * p;
    SignificandOfWhole(k, e, p, n);
    RoundWhole(k, e, p, n);
    NormalWhole(e, n);
    ScaledBack(k, e, p, n);
  }

  /** The `Double` with exponent field `e + 1023` and significand `n` is n * 2^(e-52). */
  lemma NormalWhole(e: nat, n: nat)
    requires e <= 52 && 0x10_0000_0000_0000 <= n < 0x20_0000_0000_0000
    ensures Denote((e + 1023) * 0x10_0000_0000_0000 + (n - 0x10_0000_0000_0000)) == Finite(n as real * Pow2Real(e - 52))
  {
    DenoteNormal((e + 1023) * 0x10_0000_0000_0000 + (n - 0x10_0000_0000_0000), e + 1023, n - 0x10_0000_0000_0000);
    assert e + 1023 - 1075 == e - 52;
  }

  lemma ScaledBack(k: nat, e: nat, p: nat, n: nat)
    requires e <= 52 && p == Pow2(52 - e) && n == k * p
    ensures n as real * Pow2Real(e - 52) == k as real
  {
    NegativePower(e, p);
    RealProduct(k, p);
    Cancel(p as real, k as real);
  }

  /** The bit pattern `Round` gives a whole number 2^e <= k < 2^(e+1), e <= 52. */
  lemma RoundWhole(k: nat, e: nat, p: nat, n: nat)
    requires 1 <= k && e <= 52 && Pow2(e) <= k < Pow2(e + 1) && p == Pow2(52 - e) && n == k * p
    requires 0x10_0000_0000_0000 <= n < 0x20_0000_0000_0000
    ensures FromInteger(k) == (e + 1023) * 0x10_0000_0000_0000 + (n - 0x10_0000_0000_0000)
  {
    QuantumOfWhole(k, e);
    ScaledWhole(k, e, p, n);
    assert (n as real).Floor == n;
    assert RoundHalfEven(n as real) == n;
    assert FromInteger(k) == Assemble(false, n, e - 52);
  }

  lemma SignificandOfWhole(k: nat, e: nat, p: nat, n: nat)
    requires e <= 52 && Pow2(e) <= k < Pow2(e + 1) && p == Pow2(52 - e) && n == k * p
    ensures 0x10_0000_0000_0000 <= n < 0x20_0000_0000_0000
  {
    Pow2Of53();
    Pow2Add(e, 52 - e);
    Pow2Add(e + 1, 52 - e);
    Pow2Multiples(k, Pow2(e), Pow2(e + 1), p);
  }

  lemma QuantumOfWhole(k: nat, e: nat)
    requires 1 <= k && e <= 52 && Pow2(e) <= k < Pow2(e + 1)
    ensures Quantum(k as real) == e - 52
  {
    assert (k as real).Floor == k;
    Log2FloorUnique(k, e);
  }

  lemma ScaledWhole(k: nat, e: nat, p: nat, n: nat)
    requires e <= 52 && p == Pow2(52 - e) && n == k * p
    ensures k as real / Pow2Real(e - 52) == n as real
  {
    NegativePower(e, p);
    calc {
      k as real / Pow2Real(e - 52);
      k as real / (1.0 / p as real);
      { DivideByReciprocal(k as real, p as real); }
      k as real * p as real;
      { RealProduct(k, p); }
      n as real;
    }
  }

  lemma NegativePower(e: nat, p: nat)
    requires e <= 52 && p == Pow2(52 - e)
    ensures Pow2Real(e - 52) == 1.0 / p as real
  {
  }

  /** a <= k < b gives a*p <= k*p < b*p, for a positive `p`. */
  lemma Pow2Multiples(k: nat, a: nat, b: nat, p: nat)
    requires a <= k < b && p > 0
    ensures a * p <= k * p < b * p
  {
  }

  lemma DivideByReciprocal(m: real, p: real)
    requires p > 0.0
    ensures m / (1.0 / p) == m * p
  {
  }

  /** A normal `Double`: exponent field `f`, fraction `r`. */
  lemma DenoteNormal(bits: nat, f: nat, r: nat)
    requires 1 <= f < 0x7FF && r < 0x10_0000_0000_0000 && bits == f * 0x10_0000_0000_0000 + r
    ensures Denote(bits) == Finite((0x10_0000_0000_0000 + r) as real * Pow2Real(f - 1075))
  {
    assert bits / 0x10_0000_0000_0000 == f;
    assert bits % 0x10_0000_0000_0000 == r;
  }

  lemma Log2FloorUnique(k: nat, e: nat)
    requires 1 <= k && Pow2(e) <= k < Pow2(e + 1)
    ensures Log2Floor(k) == e
  {
    var f := Log2Floor(k);
    if f < e {
      Pow2Monotone(f + 1, e);
    } else if f > e {
      Pow2Monotone(e + 1, f);
    }
  }

  // ---------------------------------------------------------------------
  // Date
  // ---------------------------------------------------------------------

  /** Seconds from 1970-01-01 to 2001-01-01, which `timeIntervalSince1970` adds. */
  const SecondsFrom1970To2001: real := 978307200.0

  /**
   * `UInt64(date.timeIntervalSince1970 * 1000)` in `encodeDate`, for the
   * date whose `timeIntervalSinceReferenceDate` has the bit pattern
   * `interval`: `None` where the conversion traps.
   */
  function MillisSince1970(interval: nat): (r: Option<nat>)
    ensures r.Some? ==> r.value < UInt64Limit
  {
    TruncateToUInt64(MultiplyConstant(AddConstant(interval, SecondsFrom1970To2001), 1000.0))
  }

  /**
   * `Date(timeIntervalSince1970: TimeInterval(ms) / 1000)` in
   * `decodeDate`: the bit pattern of the new date's
   * `timeIntervalSinceReferenceDate`.
   */
  function FromMillisSince1970(ms: nat): (interval: nat)
    ensures interval < UInt64Limit
  {
    AddConstant(DivideConstant(FromInteger(ms), 1000.0), -SecondsFrom1970To2001)
  }

  // ---------------------------------------------------------------------
  // UUID
  // ---------------------------------------------------------------------

  type UuidBytes = u: seq<byte> | |u| == 16 witness [0, 0, 0, 0, 0, 0, 0, 0, 0, 0, 0, 0, 0, 0, 0, 0]

  /** The hyphen that separates the groups of a `uuidString`. */
  const Hyphen: byte := 0x2D

  predicate IsUpperHexDigit(c: byte)
  {
    0x30 <= c <= 0x39 || 0x41 <= c <= 0x46
  }

  /** The ASCII upper-case hexadecimal digit for `d`. */
  function HexDigit(d: nat): (c: byte)
    requires d < 16
    ensures IsUpperHexDigit(c)
  {
    if d < 10 then 0x30 + d else 0x41 + (d - 10)
  }

  /** The value of an ASCII hexadecimal digit of either case. */
  function DigitValue(c: byte): (r: Option<nat>)
    ensures r.Some? ==> r.value < 16
  {
    if 0x30 <= c <= 0x39 then Some(c - 0x30)
    else if 0x41 <= c <= 0x46 then Some(c - 0x41 + 10)
    else if 0x61 <= c <= 0x66 then Some(c - 0x61 + 10)
    else None
  }

  /** An ASCII letter in upper case; every other byte as it is. */
  function Upper(c: byte): byte
  {
    if 0x61 <= c <= 0x7A then c - 0x20 else c
  }

  function UpperAll(s: seq<byte>): (r: seq<byte>)
    ensures |r| == |s|
  {
    if s == [] then [] else [Upper(s[0])] + UpperAll(s[1..])
  }

  /** Each byte as two upper-case hexadecimal digits, the high one first. */
  function Hex(bytes: seq<byte>): (s: seq<byte>)
    ensures |s| == 2 * |bytes|
  {
    if bytes == [] then [] else [HexDigit(bytes[0] / 16), HexDigit(bytes[0] % 16)] + Hex(bytes[1..])
  }

  /** The bytes that pairs of hexadecimal digits of either case stand for, if every character is one. */
  function ParseHex(s: seq<byte>): (r: Option<seq<byte>>)
    requires |s| % 2 == 0
    ensures r.Some? ==> 2 * |r.value| == |s|
  {
    if s == [] then Some([])
    else
      match (DigitValue(s[0]), DigitValue(s[1]), ParseHex(s[2..]))
      case (Some(hi), Some(lo), Some(rest)) => Some([hi * 16 + lo] + rest)
      case _ => None
  }

  /** Five groups joined by hyphens, the layout of a `uuidString`. */
  function Join(a: seq<byte>, b: seq<byte>, c: seq<byte>, d: seq<byte>, e: seq<byte>): seq<byte>
  {
    a + [Hyphen] + b + [Hyphen] + c + [Hyphen] + d + [Hyphen] + e
  }

  /** `uuidString`: the bytes in groups of 4, 2, 2, 2 and 6. */
  function UuidString(u: UuidBytes): (s: seq<byte>)
    ensures |s| == 36
  {
    Join(Hex(u[..4]), Hex(u[4..6]), Hex(u[6..8]), Hex(u[8..10]), Hex(u[10..]))
  }

  /** The 32 digits of a 36-character UUID string, without the hyphens. */
  function Digits(s: seq<byte>): (d: seq<byte>)
    requires |s| == 36
    ensures |d| == 32
  {
    s[..8] + s[9..13] + s[14..18] + s[19..23] + s[24..]
  }

  /**
   * `UUID(uuidString:)`: 36 characters, hyphens at 8, 13, 18 and 23 and a
   * hexadecimal digit of either case everywhere else; anything else is
   * not a UUID.
   */
  function ParseUuid(s: seq<byte>): (r: Option<UuidBytes>)
  {
    if |s| != 36 || s[8] != Hyphen || s[13] != Hyphen || s[18] != Hyphen || s[23] != Hyphen then None
    else
      var u := ParseHex(Digits(s));
      if u.None? then None
      else
        var bytes: UuidBytes := u.value;
        Some(bytes)
  }

  lemma {:induction false} HexAppend(a: seq<byte>, b: seq<byte>)
    ensures Hex(a + b) == Hex(a) + Hex(b)
  {
    if a != [] {
      var head := [HexDigit(a[0] / 16), HexDigit(a[0] % 16)];
      assert (a + b)[0] == a[0];
      assert (a + b)[1..] == a[1..] + b;
      HexAppend(a[1..], b);
      assert Hex(a + b) == head + Hex(a[1..] + b);
      assert Hex(a) == head + Hex(a[1..]);
    } else {
      assert a + b == b;
    }
  }

  /** `Hex` of the UUID, group by group. */
  lemma HexGroups(u: UuidBytes)
    ensures Hex(u) == Hex(u[..4]) + Hex(u[4..6]) + Hex(u[6..8]) + Hex(u[8..10]) + Hex(u[10..])
  {
    HexAppend(u[..4], u[4..6]);
    HexAppend(u[..4] + u[4..6], u[6..8]);
    HexAppend(u[..4] + u[4..6] + u[6..8], u[8..10]);
    HexAppend(u[..4] + u[4..6] + u[6..8] + u[8..10], u[10..]);
    assert u[..4] + u[4..6] + u[6..8] + u[8..10] + u[10..] == u;
  }

  lemma {:induction false} HexRoundTrip(bytes: seq<byte>)
    ensures ParseHex(Hex(bytes)) == Some(bytes)
  {
    if bytes != [] {
      var s := Hex(bytes);
      assert s[2..] == Hex(bytes[1..]);
      HexRoundTrip(bytes[1..]);
      assert [bytes[0]] + bytes[1..] == bytes;
    }
  }

  /** Parsing pairs of digits and writing them out again gives the digits in upper case. */
  lemma {:induction false} ParseHexUpper(s: seq<byte>)
    requires |s| % 2 == 0 && ParseHex(s).Some?
    ensures Hex(ParseHex(s).value) == UpperAll(s)
  {
    if s != [] {
      ParseHexHead(s);
      ParseHexUpper(s[2..]);
      HexOfDigits(s, DigitValue(s[0]).value, DigitValue(s[1]).value, ParseHex(s[2..]).value);
    }
  }

  /** One step of `ParseHexUpper`: the first two digits, then the rest. */
  lemma HexOfDigits(s: seq<byte>, hi: nat, lo: nat, rest: seq<byte>)
    requires |s| >= 2 && DigitValue(s[0]) == Some(hi) && DigitValue(s[1]) == Some(lo)
    requires Hex(rest) == UpperAll(s[2..])
    ensures Hex([hi * 16 + lo] + rest) == UpperAll(s)
  {
    var b := [hi * 16 + lo] + rest;
    HexHead(b);
    assert b[1..] == rest;
    SplitByte(hi, lo);
    UpperDigit(s[0]);
    UpperDigit(s[1]);
    UpperAllTwo(s);
  }

  lemma HexHead(b: seq<byte>)
    requires b != []
    ensures Hex(b) == [HexDigit(b[0] / 16), HexDigit(b[0] % 16)] + Hex(b[1..])
  {
  }

  lemma UpperAllTwo(s: seq<byte>)
    requires |s| >= 2
    ensures UpperAll(s) == [Upper(s[0]), Upper(s[1])] + UpperAll(s[2..])
  {
    assert s[1..][1..] == s[2..];
  }

  /** The first byte of a parsed string and the rest of it. */
  lemma ParseHexHead(s: seq<byte>)
    requires |s| % 2 == 0 && s != [] && ParseHex(s).Some?
    ensures DigitValue(s[0]).Some? && DigitValue(s[1]).Some? && ParseHex(s[2..]).Some?
    ensures ParseHex(s).value == [DigitValue(s[0]).value * 16 + DigitValue(s[1]).value] + ParseHex(s[2..]).value
  {
  }

  lemma SplitByte(hi: nat, lo: nat)
    requires hi < 16 && lo < 16
    ensures (hi * 16 + lo) / 16 == hi && (hi * 16 + lo) % 16 == lo
  {
  }

  /** Writing out the value of a digit gives the digit in upper case. */
  lemma UpperDigit(c: byte)
    requires DigitValue(c).Some?
    ensures HexDigit(DigitValue(c).value) == Upper(c)
  {
  }

  lemma {:induction false} UpperAllAppend(a: seq<byte>, b: seq<byte>)
    ensures UpperAll(a + b) == UpperAll(a) + UpperAll(b)
  {
    if a != [] {
      assert (a + b)[0] == a[0];
      assert (a + b)[1..] == a[1..] + b;
      UpperAllAppend(a[1..], b);
      assert UpperAll(a + b) == [Upper(a[0])] + UpperAll(a[1..] + b);
    } else {
      assert a + b == b;
    }
  }

  /** The groups and the hyphens of a joined string, where each group has its `uuidString` length. */
  lemma JoinSplit(a: seq<byte>, b: seq<byte>, c: seq<byte>, d: seq<byte>, e: seq<byte>)
    requires |a| == 8 && |b| == 4 && |c| == 4 && |d| == 4 && |e| == 12
    ensures |Join(a, b, c, d, e)| == 36
    ensures Join(a, b, c, d, e)[8] == Hyphen && Join(a, b, c, d, e)[13] == Hyphen
    ensures Join(a, b, c, d, e)[18] == Hyphen && Join(a, b, c, d, e)[23] == Hyphen
    ensures Digits(Join(a, b, c, d, e)) == a + b + c + d + e
  {
    var s := Join(a, b, c, d, e);
    assert s[..8] == a;
    assert s[9..13] == b;
    assert s[14..18] == c;
    assert s[19..23] == d;
    assert s[24..] == e;
  }

  /** A 36-character string with hyphens in place is its groups joined again. */
  lemma SplitJoin(s: seq<byte>)
    requires |s| == 36 && s[8] == Hyphen && s[13] == Hyphen && s[18] == Hyphen && s[23] == Hyphen
    ensures s == Join(s[..8], s[9..13], s[14..18], s[19..23], s[24..])
  {
  }

  /** Upper case keeps the hyphens and works group by group. */
  lemma UpperJoin(a: seq<byte>, b: seq<byte>, c: seq<byte>, d: seq<byte>, e: seq<byte>)
    ensures UpperAll(Join(a, b, c, d, e)) == Join(UpperAll(a), UpperAll(b), UpperAll(c), UpperAll(d), UpperAll(e))
  {
    var h := [Hyphen];
    assert UpperAll(h) == h;
    UpperAllAppend(a, h);
    UpperAllAppend(a + h, b);
    UpperAllAppend(a + h + b, h);
    UpperAllAppend(a + h + b + h, c);
    UpperAllAppend(a + h + b + h + c, h);
    UpperAllAppend(a + h + b + h + c + h, d);
    UpperAllAppend(a + h + b + h + c + h + d, h);
    UpperAllAppend(a + h + b + h + c + h + d + h, e);
  }

  /** Upper case on the digits of a UUID string, group by group. */
  lemma UpperDigits(a: seq<byte>, b: seq<byte>, c: seq<byte>, d: seq<byte>, e: seq<byte>)
    ensures UpperAll(a + b + c + d + e) == UpperAll(a) + UpperAll(b) + UpperAll(c) + UpperAll(d) + UpperAll(e)
  {
    UpperAllAppend(a, b);
    UpperAllAppend(a + b, c);
    UpperAllAppend(a + b + c, d);
    UpperAllAppend(a + b + c + d, e);
  }

  /** Two concatenations of five parts of equal lengths agree part by part. */
  lemma SameParts(a: seq<byte>, b: seq<byte>, c: seq<byte>, d: seq<byte>, e: seq<byte>,
                  a': seq<byte>, b': seq<byte>, c': seq<byte>, d': seq<byte>, e': seq<byte>)
    requires |a| == |a'| && |b| == |b'| && |c| == |c'| && |d| == |d'|
    requires a + b + c + d + e == a' + b' + c' + d' + e'
    ensures a == a' && b == b' && c == c' && d == d' && e == e'
  {
    var s, s' := a + b + c + d + e, a' + b' + c' + d' + e';
    var i, j, k, l := |a|, |a| + |b|, |a| + |b| + |c|, |a| + |b| + |c| + |d|;
    assert a == s[..i] == s'[..i] == a';
    assert b == s[i..j] == s'[i..j] == b';
    assert c == s[j..k] == s'[j..k] == c';
    assert d == s[k..l] == s'[k..l] == d';
    assert e == s[l..] == s'[l..] == e';
  }

  /** A `uuidString` is ASCII. */
  /** `Hex` writes nothing but upper-case hexadecimal digits. */
  lemma {:induction false} HexIsUpper(bytes: seq<byte>)
    ensures forall i | 0 <= i < |Hex(bytes)| :: IsUpperHexDigit(Hex(bytes)[i])
  {
    if bytes != [] {
      HexIsUpper(bytes[1..]);
    }
  }

  lemma UuidStringIsAscii(u: UuidBytes)
    ensures forall i | 0 <= i < |UuidString(u)| :: UuidString(u)[i] < 0x80
  {
    HexIsUpper(u[..4]);
    HexIsUpper(u[4..6]);
    HexIsUpper(u[6..8]);
    HexIsUpper(u[8..10]);
    HexIsUpper(u[10..]);
  }

  /** `UUID(uuidString: uuid.uuidString)` is the same UUID. */
  lemma UuidStringRoundTrip(u: UuidBytes)
    ensures ParseUuid(UuidString(u)) == Some(u)
  {
    JoinSplit(Hex(u[..4]), Hex(u[4..6]), Hex(u[6..8]), Hex(u[8..10]), Hex(u[10..]));
    HexGroups(u);
    HexRoundTrip(u);
  }

  /**
   * The strings `UUID(uuidString:)` accepts are exactly the `uuidString`s
   * of UUIDs, written in upper or lower case.
   */
  lemma ParsedUuidString(s: seq<byte>)
    requires ParseUuid(s).Some?
    ensures UuidString(ParseUuid(s).value) == UpperAll(s)
  {
    var u := ParseUuid(s).value;
    var (a, b, c, d, e) := (s[..8], s[9..13], s[14..18], s[19..23], s[24..]);
    ParseHexUpper(Digits(s));
    UpperDigits(a, b, c, d, e);
    HexGroups(u);
    SameParts(Hex(u[..4]), Hex(u[4..6]), Hex(u[6..8]), Hex(u[8..10]), Hex(u[10..]),
              UpperAll(a), UpperAll(b), UpperAll(c), UpperAll(d), UpperAll(e));
    SplitJoin(s);
    UpperJoin(a, b, c, d, e);
  }
}
