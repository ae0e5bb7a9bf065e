/**
 Conversion between 128-bit integers and doubles. Bit patterns are natural numbers; shifts and masks
 are products, quotients and remainders by powers of two.
 */
module Int128ToDouble {

  const MANT_DIG: nat := 53
  const BITS: nat := 128
  const TWO52: nat := 0x10_0000_0000_0000
  const TWO53: nat := 0x20_0000_0000_0000
  const TWO63: nat := 0x8000_0000_0000_0000
  const TWO64: nat := 0x1_0000_0000_0000_0000
  const TWO127: nat := 0x8000_0000_0000_0000_0000_0000_0000_0000
  const TWO128: nat := 0x1_0000_0000_0000_0000_0000_0000_0000_0000

  type U64 = n: nat | n < TWO64
  type U128 = n: nat | n < TWO128
  type I128 = n: int | 0 - TWO127 as int <= n < TWO127

  // ---- Powers of two ----

  function Pow2(n: nat): (p: nat)
    ensures p > 0
  {
    if n == 0 then 1 else 2 * Pow2(n - 1)
  }

  lemma {:induction false} Pow2Add(a: nat, b: nat)
    ensures Pow2(a + b) == Pow2(a) * Pow2(b)
    decreases a
  {
    if a > 0 { Pow2Add(a - 1, b); }
  }

  lemma {:induction false} Pow2Monotone(a: nat, b: nat)
    requires a <= b
    ensures Pow2(a) <= Pow2(b)
    decreases b
  {
    if a < b { Pow2Monotone(a, b - 1); }
  }

  lemma Pow2Small()
    ensures Pow2(0) == 1 && Pow2(1) == 2 && Pow2(4) == 16
  {
  }

  lemma Pow2Constants()
    ensures Pow2(32) == 0x1_0000_0000 && Pow2(52) == TWO52 && Pow2(53) == TWO53
    ensures Pow2(64) == TWO64 && Pow2(127) == TWO127 && Pow2(128) == TWO128
  {
    hide Pow2;
    Pow2Small();
    Pow2Add(4, 4);
    Pow2Add(8, 8);
    Pow2Add(16, 16);
    Pow2Add(32, 16);
    Pow2Add(48, 4);
    Pow2Add(32, 32);
    Pow2Add(64, 64);
    Pow2Twice(52);
    Pow2Twice(127);
  }

  lemma Pow2Twice(n: nat)
    ensures Pow2(n + 1) == 2 * Pow2(n)
  {
  }

  lemma MulMonotone(x: nat, y: nat, k: nat)
    requires x <= y
    ensures x * k <= y * k
  {
  }

  // ---- Counting significant bits ----

  function BitLength(a: nat): (n: nat)
    ensures a > 0 ==> n > 0 && Pow2(n - 1) <= a < Pow2(n)
    ensures a == 0 ==> n == 0
  {
    if a == 0 then 0 else 1 + BitLength(a / 2)
  }

  lemma BitLengthIs(a: nat, n: nat)
    requires n > 0 && Pow2(n - 1) <= a < Pow2(n)
    ensures BitLength(a) == n
  {
    var m := BitLength(a);
    if m < n {
      Pow2Monotone(m, n - 1);
    } else if n < m {
      Pow2Monotone(n, m - 1);
    }
  }

  /** `__builtin_clzll`. */
  function Clz64(x: U64): int
    requires x > 0
  {
    64 - BitLength(x)
  }

  /** `__clzti2`: counts in the high half, or in the low half when the high half is zero. */
  function Clzti2(a: U128): int
    requires a > 0
  {
    var high, low := a / TWO64, a % TWO64;
    if high == 0 then Clz64(low) + 64 else Clz64(high)
  }

  lemma Clzti2CountsLeadingZeros(a: U128)
    requires a > 0
    ensures Clzti2(a) == BITS - BitLength(a) && 0 < BitLength(a) <= BITS
  {
    hide Pow2, BitLength;
    BitLengthAtMost(a);
    var high, low := a / TWO64, a % TWO64;
    if high > 0 {
      BitLengthOfHalves(high, low);
    }
  }

  lemma BitLengthAtMost(a: U128)
    ensures BitLength(a) <= BITS
  {
    hide Pow2, BitLength;
    Pow2Constants();
    if BitLength(a) > BITS { Pow2Monotone(BITS, BitLength(a) - 1); }
  }

  lemma BitLengthOfHalves(high: nat, low: U64)
    requires high > 0
    ensures BitLength(high * TWO64 + low) == BitLength(high) + 64
  {
    hide Pow2, BitLength;
    Pow2Constants();
    var n := BitLength(high);
    Pow2Add(n - 1, 64);
    Pow2Add(n, 64);
    MulMonotone(Pow2(n - 1), high, TWO64);
    MulMonotone(high + 1, Pow2(n), TWO64);
    BitLengthIs(high * TWO64 + low, n + 64);
  }

  // ---- The conversion ----

  /** Sets the lowest bit if `b` holds. */
  function Or1(x: nat, b: bool): nat
  {
    if b && x % 2 == 0 then x + 1 else x
  }

  /** Scaling to 55 bits: two bits below the significand, the lower one standing for everything dropped. */
  function ToGuardBits(a: U128, sd: nat): nat
    requires MANT_DIG < sd <= BITS
  {
    if sd == MANT_DIG + 1 then a * 2
    else if sd == MANT_DIG + 2 then a
    else Or1(a / Pow2(sd - (MANT_DIG + 2)), a % Pow2(BITS - ((BITS + MANT_DIG + 2) - sd)) != 0)
  }

  /** Dropping the two guard bits, with a tie decided by the last bit kept. */
  function DropGuardBits(x: nat): nat
  {
    (Or1(x, x / 4 % 2 != 0) + 1) / 4
  }

  lemma WordsOf(x: nat)
    ensures x / 0x1_0000_0000 % 0x10_0000 * 0x1_0000_0000 + x % 0x1_0000_0000 == x % TWO52
    ensures x / 0x1_0000_0000 % 0x10_0000 < 0x10_0000 && x % 0x1_0000_0000 < 0x1_0000_0000
  {
    var q, low := x / 0x1_0000_0000, x % 0x1_0000_0000;
    var top, mid := q / 0x10_0000, q % 0x10_0000;
    assert x == q * 0x1_0000_0000 + low && q == top * 0x10_0000 + mid;
    DivModUnique(x, TWO52, top, mid * 0x1_0000_0000 + low);
  }

  /** The two words of the result: sign, exponent and high mantissa; low mantissa. */
  function Pack(sign: nat, e: nat, x: nat): (bits: U64)
    requires sign <= 1 && e + 1023 < 2048
    ensures bits == sign * TWO63 + (e + 1023) * TWO52 + x % TWO52
  {
    WordsOf(x);
    var high := sign * 0x8000_0000 + (e + 1023) * 0x10_0000 + x / 0x1_0000_0000 % 0x10_0000;
    var low := x % 0x1_0000_0000;
    high * 0x1_0000_0000 + low
  }

  /** The common part of `___floatuntidf` and `___floattidf`: converts a magnitude. */
  method FloatMagnitude(sign: nat, a: U128) returns (bits: U64)
    requires sign <= 1 && a > 0
    ensures bits == Convert(sign, a)
  {
    hide Pow2, BitLength, Clzti2, ToGuardBits, RoundHalfEven, Pack, DropGuardBits;
    Clzti2CountsLeadingZeros(a);
    var sd := BITS - Clzti2(a);
    var e := sd - 1;
    var x: nat := a;
    if sd > MANT_DIG {
      x := ToGuardBits(x, sd);
      x := DropGuardBits(x);
      GuardBitsRound(a, sd);
      SignificandBound(a);
      TopBit(x);
      if x / TWO53 % 2 != 0 {
        x := x / 2;
        e := e + 1;
      }
    } else {
      x := x * Pow2(MANT_DIG - sd);
    }
    bits := Pack(sign, e, x);
  }

  lemma TopBit(x: nat)
    requires x <= TWO53
    ensures x / TWO53 % 2 != 0 <==> x == TWO53
  {
  }

  /** `___floatuntidf`. */
  method FloatUnTiDf(a: U128) returns (bits: U64)
    ensures bits == OfUnsigned(a)
  {
    if a == 0 { return 0; }
    bits := FloatMagnitude(0, a);
  }

  function Magnitude(a: I128): U128
  {
    var n: int := a;
    if n < 0 then -n else n
  }

  /** `___floattidf`: the magnitude of the most negative number is its own bit pattern, read unsigned. */
  method FloatTiDf(a: I128) returns (bits: U64)
    ensures bits == OfSigned(a)
  {
    if a == 0 { return 0; }
    bits := FloatMagnitude(if a < 0 then 1 else 0, Magnitude(a));
  }

  /** The integer significand of the nearest multiple of the unit, ties to even. */
  function RoundHalfEven(a: nat, unit: nat): nat
    requires unit > 0
  {
    NearerNeighbour(a / unit, a % unit, unit)
  }

  function NearerNeighbour(h: nat, r: nat, unit: nat): nat
  {
    if 2 * r < unit || (2 * r == unit && h % 2 == 0) then h else h + 1
  }

  /** What the conversion computes: the rounded significand and its exponent, packed. */
  function Convert(sign: nat, a: U128): U64
    requires sign <= 1 && a > 0
  {
    var sd := BitLength(a);
    BitLengthAtMost(a);
    if sd <= MANT_DIG then Pack(sign, sd - 1, a * Pow2(MANT_DIG - sd))
    else
      var m := RoundHalfEven(a, Pow2(sd - MANT_DIG));
      if m == TWO53 then Pack(sign, sd, TWO52) else Pack(sign, sd - 1, m)
  }

  function OfUnsigned(a: U128): U64
  {
    if a == 0 then 0 else Convert(0, a)
  }

  function OfSigned(a: I128): U64
  {
    if a == 0 then 0 else Convert(if a < 0 then 1 else 0, Magnitude(a))
  }

  // ---- Rounding ----

  lemma DivModUnique(a: nat, q: nat, h: nat, r: nat)
    requires q > 0 && a == h * q + r && r < q
    ensures a / q == h && a % q == r
  {
    var h', r' := a / q, a % q;
    assert a == h' * q + r';
    if h' < h {
      MulMonotone(h' + 1, h, q);
    } else if h < h' {
      MulMonotone(h + 1, h', q);
    }
  }

  lemma QuotientBounds(a: nat, unit: nat)
    requires unit > 0 && unit * TWO52 <= a < unit * TWO53
    ensures TWO52 <= a / unit < TWO53
  {
    var h, r := a / unit, a % unit;
    assert a == h * unit + r;
    if h < TWO52 {
      MulMonotone(h + 1, TWO52, unit);
    } else if h >= TWO53 {
      MulMonotone(TWO53, h, unit);
    }
  }

  lemma SignificandBound(a: U128)
    requires a > 0 && BitLength(a) > MANT_DIG
    ensures var unit := Pow2(BitLength(a) - MANT_DIG); TWO52 <= RoundHalfEven(a, unit) <= TWO53
  {
    hide Pow2, BitLength;
    var sd := BitLength(a);
    Pow2Constants();
    Pow2Add(sd - MANT_DIG, 52);
    Pow2Add(sd - MANT_DIG, 53);
    QuotientBounds(a, Pow2(sd - MANT_DIG));
  }

  lemma ShiftedBound(a: U128)
    requires a > 0 && BitLength(a) <= MANT_DIG
    ensures TWO52 <= a * Pow2(MANT_DIG - BitLength(a)) < TWO53
  {
    hide Pow2, BitLength;
    var sd := BitLength(a);
    var s := Pow2(MANT_DIG - sd);
    Pow2Constants();
    Pow2Add(sd - 1, MANT_DIG - sd);
    Pow2Add(sd, MANT_DIG - sd);
    MulMonotone(Pow2(sd - 1), a, s);
    MulMonotone(a + 1, Pow2(sd), s);
  }

  /** The guard and sticky bits decide like the remainder itself. */
  lemma GuardBitsRound(a: U128, sd: nat)
    requires MANT_DIG < sd <= BITS
    ensures DropGuardBits(ToGuardBits(a, sd)) == RoundHalfEven(a, Pow2(sd - MANT_DIG))
  {
    hide Pow2, DropGuardBits;
    Pow2Small();
    if sd == MANT_DIG + 1 {
      GuardCases(a / 2, 2 * (a % 2), false);
      assert 4 * (a / 2) + 2 * (a % 2) == a * 2;
    } else {
      var k := sd - (MANT_DIG + 2);
      Pow2Twice(k);
      Pow2Twice(k + 1);
      GuardBits(a, Pow2(k));
    }
  }

  lemma GuardBits(a: nat, q: nat)
    requires q > 0
    ensures DropGuardBits(Or1(a / q, a % q != 0)) == RoundHalfEven(a, 4 * q)
  {
    hide DropGuardBits, Or1, NearerNeighbour;
    Quarters(a, q, a / (4 * q), a % (4 * q));
  }

  /** Split in quarters, the remainder says how it compares with one half. */
  lemma Quarters(a: nat, q: nat, h: nat, r: nat)
    requires q > 0 && a == h * (4 * q) + r && r < 4 * q
    ensures DropGuardBits(Or1(a / q, a % q != 0)) == NearerNeighbour(h, r, 4 * q)
  {
    hide DropGuardBits, Or1;
    var g := if r < q then 0 else if r < 2 * q then 1 else if r < 3 * q then 2 else 3;
    var t := r - g * q;
    assert a == (4 * h + g) * q + t by { Regroup(q, h, g); }
    DivModUnique(a, q, 4 * h + g, t);
    GuardCases(h, g, t != 0);
  }

  lemma Regroup(q: nat, h: nat, g: nat)
    ensures h * (4 * q) + g * q == (4 * h + g) * q
  {
  }

  lemma GuardCases(h: nat, g: nat, sticky: bool)
    requires g < 4
    ensures DropGuardBits(Or1(4 * h + g, sticky)) == (if g < 2 || (g == 2 && !sticky && h % 2 == 0) then h else h + 1)
  {
    var g1 := Or1(g, sticky);
    LowBit(h, g, sticky);
    assert (4 * h + g1) / 4 == h;
    LowBit(h, g1, h % 2 != 0);
    hide Or1;
    assert (4 * h + Or1(g1, h % 2 != 0) + 1) / 4 == h + (Or1(g1, h % 2 != 0) + 1) / 4;
  }

  lemma LowBit(h: nat, g: nat, b: bool)
    requires g < 4
    ensures Or1(4 * h + g, b) == 4 * h + Or1(g, b) && Or1(g, b) < 4
  {
    assert (4 * h + g) % 2 == g % 2;
  }

  // ---- The value of a double ----

  function Exponent(bits: U64): nat
  {
    bits / TWO52 % 2048
  }

  function Fraction(bits: U64): nat
  {
    bits % TWO52
  }

  predicate Finite(bits: U64)
  {
    Exponent(bits) < 2047
  }

  /** The scale on which every finite double is an integer: the smallest positive one is 2^-1074. */
  const SCALE: nat := 1074

  /** The magnitude of a finite double is `Significand(bits) * 2^(Shift(bits) - SCALE)`. */
  function Significand(bits: U64): (m: nat)
    ensures m < TWO53
  {
    if Exponent(bits) == 0 then Fraction(bits) else TWO52 + Fraction(bits)
  }

  function Shift(bits: U64): nat
  {
    if Exponent(bits) == 0 then 0 else Exponent(bits) - 1
  }

  ghost function Scaled(bits: U64): nat
  {
    Significand(bits) * Pow2(Shift(bits))
  }

  /** A finite double, times 2^SCALE. */
  ghost function Value(bits: U64): int
  {
    var magnitude: int := Scaled(bits);
    if bits >= TWO63 then -magnitude else magnitude
  }

  /** An integer, times 2^SCALE. */
  ghost function Units(n: int): int
  {
    n * Pow2(SCALE)
  }

  function Dist(x: int, y: int): nat
  {
    if x <= y then y - x else x - y
  }

  /** IEEE 754 round-to-nearest, ties to even: no finite double is nearer, and a tie is won by an even significand. */
  ghost predicate IsNearestEven(n: int, bits: U64)
  {
    && Finite(bits)
    && forall d: U64 :: Finite(d) ==>
         && Dist(Value(bits), Units(n)) <= Dist(Value(d), Units(n))
         && (Dist(Value(bits), Units(n)) == Dist(Value(d), Units(n)) && Value(d) != Value(bits) ==> bits % 2 == 0)
  }

  lemma PackIs(sign: nat, e: nat, x: nat)
    requires sign <= 1 && e + 1023 < 2047 && TWO52 <= x < TWO53
    ensures var bits := Pack(sign, e, x);
      Exponent(bits) == e + 1023 && Fraction(bits) == x - TWO52 && (bits >= TWO63 <==> sign == 1) && bits % 2 == x % 2
  {
    hide Pack, Exponent, Fraction;
    var bits, top := Pack(sign, e, x), sign * 2048 + e + 1023;
    assert x % TWO52 == x - TWO52 by { DivModUnique(x, TWO52, 1, x - TWO52); }
    assert top % 2048 == e + 1023 by { DivModUnique(top, 2048, sign, e + 1023); }
    FieldsOf(bits, top, x - TWO52);
    assert x % 2 == (x - TWO52) % 2;
  }

  lemma FieldsOf(bits: U64, top: nat, low: nat)
    requires low < TWO52 && bits == top * TWO52 + low
    ensures Exponent(bits) == top % 2048 && Fraction(bits) == low && bits % 2 == low % 2
  {
    DivModUnique(bits, TWO52, top, low);
    SameParity(bits, top * (TWO52 / 2), low);
  }

  lemma SameParity(n: nat, half: nat, low: nat)
    requires n == 2 * half + low
    ensures n % 2 == low % 2
  {
  }

  /** The significand before a carry out of it is taken into the exponent. */
  ghost function Rounded(a: U128): nat
  {
    var sd := BitLength(a);
    if sd <= MANT_DIG then a else RoundHalfEven(a, Pow2(sd - MANT_DIG))
  }

  ghost function Unit(a: U128): (u: nat)
    ensures u > 0
  {
    var sd := BitLength(a);
    if sd <= MANT_DIG then 1 else Pow2(sd - MANT_DIG)
  }

  /** The converted value is the rounded significand times its unit. */
  lemma ConvertedValue(sign: nat, a: U128)
    requires sign <= 1 && a > 0
    ensures var bits := Convert(sign, a);
      && Finite(bits)
      && (bits >= TWO63 <==> sign == 1)
      && Scaled(bits) == Rounded(a) * Unit(a) * Pow2(SCALE)
      && (BitLength(a) > MANT_DIG ==> bits % 2 == Rounded(a) % 2)
  {
    hide Pow2, BitLength, RoundHalfEven, Pack, Exponent, Fraction;
    var sd := BitLength(a);
    BitLengthAtMost(a);
    if sd <= MANT_DIG {
      ShiftedBound(a);
      PackIs(sign, sd - 1, a * Pow2(MANT_DIG - sd));
      Pow2Add(MANT_DIG - sd, sd + 1021);
      MulAssoc(a, Pow2(MANT_DIG - sd), Pow2(sd + 1021));
    } else {
      SignificandBound(a);
      var m := RoundHalfEven(a, Pow2(sd - MANT_DIG));
      Pow2Add(sd - MANT_DIG, SCALE);
      MulAssoc(m, Pow2(sd - MANT_DIG), Pow2(SCALE));
      if m == TWO53 {
        PackIs(sign, sd, TWO52);
        Pow2Twice(sd + 1021);
      } else {
        PackIs(sign, sd - 1, m);
      }
    }
  }

  lemma MulAssoc(x: nat, y: nat, z: nat)
    ensures x * y * z == x * (y * z)
  {
  }

  // ---- Nearest ----

  lemma NearestMultiple(a: nat, u: nat, h: nat, r: nat, k: nat)
    requires u > 0 && a == h * u + r && r < u
    ensures var m := NearerNeighbour(h, r, u);
      && Dist(m * u, a) <= Dist(k * u, a)
      && (Dist(m * u, a) == Dist(k * u, a) && k != m ==> m % 2 == 0)
  {
    assert (h + 1) * u == h * u + u;
    if k <= h {
      MulMonotone(k, h, u);
      if k < h { MulMonotone(k + 1, h, u); }
      assert (k + 1) * u == k * u + u;
    } else {
      MulMonotone(h + 1, k, u);
      if h + 1 < k { MulMonotone(h + 2, k, u); }
      assert (h + 2) * u == h * u + 2 * u;
    }
  }

  lemma DistScales(x: nat, y: nat, p: nat)
    ensures Dist(x * p, y * p) == Dist(x, y) * p
  {
    if x <= y { assert (y - x) * p == y * p - x * p; } else { assert (x - y) * p == x * p - y * p; }
  }

  /** Among the multiples of the unit, nothing is nearer. */
  lemma NearestOnGrid(a: U128, k: nat)
    requires BitLength(a) > MANT_DIG
    ensures var m, u, p := Rounded(a), Unit(a), Pow2(SCALE);
      && Dist(m * u * p, a * p) <= Dist(k * u * p, a * p)
      && (Dist(m * u * p, a * p) == Dist(k * u * p, a * p) && k != m ==> m % 2 == 0)
  {
    hide Pow2, BitLength, NearerNeighbour, Dist;
    var m, u, p := Rounded(a), Unit(a), Pow2(SCALE);
    Euclid(a, u);
    NearestMultiple(a, u, a / u, a % u, k);
    DistScales(m * u, a, p);
    DistScales(k * u, a, p);
    Cancel(Dist(m * u, a), Dist(k * u, a), p);
  }

  lemma Cancel(x: nat, y: nat, p: nat)
    requires x <= y && p > 0
    ensures x * p <= y * p && (x * p == y * p ==> x == y)
  {
    MulMonotone(x, y, p);
    if x < y { MulMonotone(x + 1, y, p); }
  }

  lemma Euclid(a: nat, u: nat)
    requires u > 0
    ensures a == a / u * u + a % u && a % u < u
  {
  }

  /** Nothing is nearer among all finite magnitudes. */
  lemma NearestMagnitude(a: U128, d: U64)
    requires a > 0
    ensures var s, x := Rounded(a) * Unit(a) * Pow2(SCALE), a * Pow2(SCALE);
      && Dist(s, x) <= Dist(Scaled(d), x)
      && (Dist(s, x) == Dist(Scaled(d), x) && Scaled(d) != s ==> BitLength(a) > MANT_DIG && Rounded(a) % 2 == 0)
  {
    hide Pow2, BitLength, RoundHalfEven, Significand, Shift;
    if BitLength(a) > MANT_DIG {
      var u, p := Unit(a), Pow2(SCALE);
      var t := BitLength(a) - MANT_DIG + SCALE;
      Pow2Add(BitLength(a) - MANT_DIG, SCALE);
      if Shift(d) >= t {
        var k := Significand(d) * Pow2(Shift(d) - t);
        NearestOnGrid(a, k);
        Pow2Add(Shift(d) - t, t);
        OnGrid(Significand(d), Pow2(Shift(d) - t), u, p);
      } else {
        NearestOnGrid(a, TWO52);
        BelowGrid(a, d, t);
      }
    }
  }

  lemma OnGrid(m: nat, v: nat, u: nat, p: nat)
    ensures m * (v * (u * p)) == m * v * u * p
  {
    MulAssoc(m * v, u, p);
    MulAssoc(m, v, u * p);
  }

  /** A double with a finer unit lies below the first significand of the unit. */
  lemma BelowGrid(a: U128, d: U64, t: nat)
    requires BitLength(a) > MANT_DIG && t == BitLength(a) - MANT_DIG + SCALE && Shift(d) < t
    ensures Scaled(d) < TWO52 * Unit(a) * Pow2(SCALE) <= a * Pow2(SCALE)
  {
    hide Pow2, BitLength, Shift, Significand, Exponent, Fraction;
    Pow2Add(BitLength(a) - MANT_DIG, SCALE);
    Pow2Monotone(Shift(d), t - 1);
    Pow2Twice(t - 1);
    FinerUnit(Significand(d), Pow2(Shift(d)), Pow2(t - 1));
    MulAssoc(TWO52, Unit(a), Pow2(SCALE));
    assert TWO52 * Unit(a) <= a by {
      Pow2Constants();
      Pow2Add(BitLength(a) - MANT_DIG, 52);
    }
    MulMonotone(TWO52 * Unit(a), a, Pow2(SCALE));
  }

  lemma FinerUnit(m: nat, w: nat, v: nat)
    requires m < TWO53 && 0 < w <= v
    ensures m * w < TWO52 * (2 * v)
  {
    MulMonotone(m + 1, TWO53, w);
    assert (m + 1) * w == m * w + w;
  }

  lemma ZeroIsZero()
    ensures Finite(0) && Scaled(0) == 0 && Value(0) == 0
  {
    hide Pow2;
  }

  lemma ConvertIsNearestEven(sign: nat, a: U128)
    requires sign <= 1 && a > 0
    ensures IsNearestEven(if sign == 1 then -(a as int) else a, Convert(sign, a))
  {
    hide Pow2, BitLength, Convert, Rounded, Unit, Scaled, Exponent, Fraction;
    var bits := Convert(sign, a);
    var n := if sign == 1 then -(a as int) else a;
    ConvertedValue(sign, a);
    ZeroIsZero();
    NearestMagnitude(a, 0);
    forall d: U64 | Finite(d)
      ensures Dist(Value(bits), Units(n)) <= Dist(Value(d), Units(n))
      ensures Dist(Value(bits), Units(n)) == Dist(Value(d), Units(n)) && Value(d) != Value(bits) ==> bits % 2 == 0
    {
      NearestMagnitude(a, d);
      assert Units(n) == if sign == 1 then -(a * Pow2(SCALE)) else a * Pow2(SCALE);
    }
  }

  /** Every unsigned 128-bit integer becomes the nearest double. */
  lemma UnsignedIsNearestEven(a: U128)
    ensures IsNearestEven(a, OfUnsigned(a))
  {
    hide Pow2, BitLength, Convert, Scaled, Exponent, Fraction;
    if a == 0 {
      ZeroIsZero();
    } else {
      ConvertIsNearestEven(0, a);
    }
  }

  /** Every signed 128-bit integer, the most negative included, becomes the nearest double. */
  lemma SignedIsNearestEven(a: I128)
    ensures IsNearestEven(a, OfSigned(a))
  {
    hide Pow2, BitLength, Convert, Scaled, Exponent, Fraction;
    if a == 0 {
      ZeroIsZero();
    } else {
      ConvertIsNearestEven(if a < 0 then 1 else 0, Magnitude(a));
    }
  }

  // ---- Back to an integer ----

  /** `___fixunsdfti`. */
  function FixUnsDfTi(a: U64): (r: U128)
  {
    var abs := a % TWO63;
    var sign := if a >= TWO63 then -1 else 1;
    var exponent := abs / TWO52 - 1023;
    var significand := abs % TWO52 + TWO52;
    if sign == -1 || exponent < 0 then 0
    else if exponent >= BITS then TWO128 - 1
    else if exponent < 52 then ShiftRight(significand, 52 - exponent)
    else ShiftLeft(significand, exponent - 52)
  }

  function ShiftRight(m: nat, k: nat): (r: nat)
    ensures r <= m
  {
    Quotient(m, Pow2(k))
  }

  function Quotient(m: nat, q: nat): (r: nat)
    requires q > 0
    ensures r <= m
  {
    DivMonotone(m, q);
    m / q
  }

  function ShiftLeft(m: nat, k: nat): (r: U128)
    requires m < TWO53 && k <= 75
  {
    LeftShiftBound(m, k);
    m * Pow2(k)
  }

  lemma DivMonotone(m: nat, q: nat)
    requires q > 0
    ensures 0 <= m / q <= m
  {
    if m / q > m { MulMonotone(1, q, m / q); }
    Euclid(m, q);
  }

  lemma LeftShiftBound(m: nat, k: nat)
    requires m < TWO53 && k <= 75
    ensures m * Pow2(k) < TWO128
  {
    hide Pow2;
    Pow2Constants();
    Pow2Monotone(k, 75);
    Pow2Add(75, 53);
    FinerUnit(m, Pow2(k), Pow2(75));
  }

  /** The conversion truncates: to zero below one, to the largest integer beyond the range and for what is no number. */
  lemma FixTruncates(d: U64)
    ensures var r, p := FixUnsDfTi(d), Pow2(SCALE);
      if d >= TWO63 then r == 0
      else if Finite(d) && Scaled(d) < TWO128 * p then r * p <= Scaled(d) < (r + 1) * p
      else r == TWO128 - 1
  {
    if d < TWO63 {
      if Finite(d) { FixFinite(d); } else { DirectFields(d); }
    }
  }

  lemma FixFinite(d: U64)
    requires d < TWO63 && Finite(d)
    ensures var r, p := FixUnsDfTi(d), Pow2(SCALE);
      if Scaled(d) < TWO128 * p then r * p <= Scaled(d) < (r + 1) * p else r == TWO128 - 1
  {
    hide Pow2, Exponent, Fraction;
    assert d / TWO52 == Exponent(d) && d % TWO52 == Fraction(d) by { DirectFields(d); }
    var e := Exponent(d) - 1023;
    if e < 0 {
      BelowOne(d);
    } else if e < 52 {
      var m, v, w := Significand(d), Pow2(52 - e), Pow2(e + 1022);
      Pow2Add(52 - e, e + 1022);
      TruncatedShift(m, v, w);
      LeftShiftBound(m, 0);
      DivMonotone(m, v);
      MulMonotone(m / v + 1, TWO128, v * w);
    } else if e < BITS {
      var m := Significand(d);
      Pow2Add(e - 52, SCALE);
      MulAssoc(m, Pow2(e - 52), Pow2(SCALE));
      var r := m * Pow2(e - 52);
      LeftShiftBound(m, e - 52);
      MulMonotone(r + 1, TWO128, Pow2(SCALE));
      assert (r + 1) * Pow2(SCALE) == r * Pow2(SCALE) + Pow2(SCALE);
    } else {
      BeyondRange(d);
    }
  }

  lemma DirectFields(d: U64)
    requires d < TWO63
    ensures d / TWO52 == Exponent(d) && d % TWO52 == Fraction(d) && d % TWO63 == d
  {
  }

  lemma TruncatedShift(m: nat, v: nat, w: nat)
    requires v > 0 && w > 0
    ensures m / v * (v * w) <= m * w < (m / v + 1) * (v * w)
  {
    var q := m / v;
    Euclid(m, v);
    MulMonotone(q * v, m, w);
    MulMonotone(m + 1, (q + 1) * v, w);
    assert (m + 1) * w == m * w + w;
    MulAssoc(q, v, w);
    MulAssoc(q + 1, v, w);
    assert (q + 1) * v == q * v + v;
  }

  lemma BelowOne(d: U64)
    requires Exponent(d) < 1023
    ensures Scaled(d) < Pow2(SCALE)
  {
    hide Pow2, Exponent, Fraction, Significand;
    Pow2Monotone(Shift(d), 1021);
    Pow2Constants();
    Pow2Add(53, 1021);
    FinerUnit(Significand(d), Pow2(Shift(d)), Pow2(1021));
  }

  lemma BeyondRange(d: U64)
    requires Exponent(d) >= 1023 + 128
    ensures Scaled(d) >= TWO128 * Pow2(SCALE)
  {
    hide Pow2, Exponent, Fraction;
    Pow2Monotone(1150, Shift(d));
    Pow2Constants();
    Pow2Add(128, SCALE);
    Pow2Add(52, 1150);
    MulMonotone(TWO52, Significand(d), Pow2(Shift(d)));
  }

  ghost predicate IsShifted(a: nat, m: nat, k: nat)
  {
    a == m * Pow2(k)
  }

  /** At most 53 significant bits. */
  ghost predicate FewBits(a: nat)
  {
    exists m: nat, k: nat :: m < TWO53 && IsShifted(a, m, k)
  }

  lemma FewBitsIffExact(a: U128)
    requires a > 0
    ensures FewBits(a) <==> Rounded(a) * Unit(a) == a
  {
    hide Pow2, BitLength;
    if BitLength(a) <= MANT_DIG {
      Pow2Small();
      Pow2Constants();
      Pow2Monotone(BitLength(a), MANT_DIG);
      assert IsShifted(a, a, 0);
    } else {
      var u := Unit(a);
      Euclid(a, u);
      RoundedExactly(a / u, a % u, u);
      if a % u == 0 {
        Pow2Constants();
        Pow2Add(BitLength(a) - MANT_DIG, 52);
        Pow2Add(BitLength(a) - MANT_DIG, 53);
        QuotientBounds(a, u);
        assert IsShifted(a, a / u, BitLength(a) - MANT_DIG);
      }
      if FewBits(a) {
        var m: nat, k: nat :| m < TWO53 && IsShifted(a, m, k);
        ShiftedDivides(a, m, k);
      }
    }
  }

  lemma RoundedExactly(h: nat, r: nat, u: nat)
    requires u > 0 && r < u
    ensures NearerNeighbour(h, r, u) * u == h * u + r <==> r == 0
  {
    assert (h + 1) * u == h * u + u;
  }

  lemma ShiftedDivides(a: nat, m: nat, k: nat)
    requires BitLength(a) > MANT_DIG && m < TWO53 && IsShifted(a, m, k)
    ensures a % Pow2(BitLength(a) - MANT_DIG) == 0
  {
    hide Pow2, BitLength;
    var j := BitLength(a) - MANT_DIG;
    Pow2Constants();
    if k < j {
      Pow2Monotone(k, j - 1);
      FinerUnit(m, Pow2(k), Pow2(j - 1));
      Pow2Twice(j - 1);
      Pow2Add(52, j);
    } else {
      Pow2Add(k - j, j);
      MulAssoc(m, Pow2(k - j), Pow2(j));
      DivModUnique(a, Pow2(j), m * Pow2(k - j), 0);
    }
  }

  /** The round trip gives an integer back exactly when it has few significant bits, or is the saturated value. */
  lemma RoundTrip(a: U128)
    ensures FixUnsDfTi(OfUnsigned(a)) == a <==> FewBits(a) || a == TWO128 - 1
  {
    hide Pow2, BitLength, FixUnsDfTi, Convert, Scaled, Exponent, Fraction, FewBits, Rounded, Unit;
    if a == 0 {
      ZeroRoundTrip();
    } else {
      ConvertedValue(0, a);
      FixTruncates(Convert(0, a));
      FewBitsIffExact(a);
      TruncationIs(FixUnsDfTi(Convert(0, a)), Rounded(a) * Unit(a), Pow2(SCALE));
      if a == TWO128 - 1 {
        LargestRoundsUp();
      }
    }
  }

  lemma ZeroRoundTrip()
    ensures FixUnsDfTi(0) == 0 && FewBits(0)
  {
    hide Pow2;
    assert IsShifted(0, 0, 0);
  }

  lemma TruncationIs(r: nat, v: nat, p: nat)
    requires p > 0
    requires if v * p < TWO128 * p then r * p <= v * p < (r + 1) * p else r == TWO128 - 1
    ensures r == if v < TWO128 then v else TWO128 - 1
  {
    if v < TWO128 {
      MulMonotone(v + 1, TWO128, p);
      assert (v + 1) * p == v * p + p;
      if r < v {
        MulMonotone(r + 1, v, p);
      } else if v < r {
        MulMonotone(v + 1, r, p);
      }
    } else {
      MulMonotone(TWO128, v, p);
    }
  }

  lemma LargestRoundsUp()
    ensures Rounded(TWO128 - 1) * Unit(TWO128 - 1) == TWO128
  {
    hide Pow2, BitLength;
    var a: U128 := TWO128 - 1;
    Pow2Constants();
    BitLengthIs(a, BITS);
    Pow2Add(53, 75);
    var u := Pow2(75);
    assert u == 0x800_0000_0000_0000_0000;
    DivModUnique(a, u, TWO53 - 1, u - 1);
  }
}
