/** Python's `float`, `Decimal` and `struct` as far as the Modbus adapters use them: `float(x)`,
    `struct.pack('f')` and `struct.unpack('f')`, and the server's `float32` oracle built on them
    (device_server_modbus/_register_map.py, device_server_modbus/_write_map.py). */
module Floats {
  import opened Options
  import opened Rounding

  const H32: pos := 0x80_0000                     // hidden bit of binary32
  const H64: pos := 0x10_0000_0000_0000           // hidden bit of binary64
  const INF32: nat := 0x7F80_0000                 // pattern of binary32 infinity
  const INF64: nat := 0x7FF0_0000_0000_0000       // pattern of binary64 infinity
  const SIGN32: pos := 0x8000_0000
  const NAN32: nat := 0x7FC0_0000
  const WORD: pos := 0x1_0000

  /** 2^128 - 2^103 in units of 2^-1074. */
  const OVERFLOW: int := Pow2(128 + 1074) - Pow2(103 + 1074)

  /** From here on a number rounds to 2^128 - 2^103 or more as a `float`: half a step below it. */
  const SINGLE_LIMIT: nat := 0x3F_FFFF_DFFF_FFFF * Pow2(74)     // 2^128 - 2^103 - 2^74

  /** From here on a number is infinite as a `float`. */
  const DOUBLE_LIMIT: nat := 0x3F_FFFF_FFFF_FFFF * Pow2(970)    // 2^1024 - 2^970

  /** The content of a 16-bit Modbus register. */
  type Word = n: nat | n < 0x1_0000

  const UNITS: pos := Pow2(1074)                  // 1.0 in units of 2^-1074
  const SCALE: pos := Pow2(925)                   // 2^-149 in units of 2^-1074

  /** A binary64 number. A finite magnitude is counted in units of 2^-1074, the smallest binary64
      subnormal, of which every binary64 number is a multiple. Zero keeps its sign. */
  datatype Double = Nan(neg: bool) | Inf(neg: bool) | Fin(neg: bool, mag: nat)

  ghost predicate IsDouble(d: Double) {
    d.Fin? ==> exists b: nat :: b < INF64 && d.mag == Magnitude(H64, b)
  }

  /** A `Decimal`: an exact number, or one of the special values. */
  datatype Decimal =
    | Number(neg: bool, num: nat, den: pos)
    | Infinite(neg: bool)
    | QuietNan(neg: bool)
    | SignalingNan

  // ---- float(), struct.pack, struct.unpack ----

  /** The binary64 number nearest to `num / den`, infinite past the largest. */
  function NearestDouble(neg: bool, num: nat, den: pos): Double {
    var b := Round(H64, num * UNITS, den);
    if b < INF64 then Fin(neg, Magnitude(H64, b)) else Inf(neg)
  }

  /** `float(value)`; None stands for the ValueError of a signaling NaN. */
  function ToFloat(value: Decimal): Option<Double> {
    match value
    case Number(neg, num, den) => Some(NearestDouble(neg, num, den))
    case Infinite(neg) => Some(Inf(neg))
    case QuietNan(neg) => Some(Nan(neg))
    case SignalingNan => None
  }

  function Sign(neg: bool): nat {
    if neg then SIGN32 else 0
  }

  /** `struct.pack('f', x)` as a 32-bit pattern; None stands for the OverflowError of a finite
      number that rounds past the largest binary32 number. */
  function Pack(x: Double): (bits: Option<nat>)
    ensures bits.Some? ==> bits.value < 2 * SIGN32
  {
    match x
    case Nan(neg) => Some(Sign(neg) + NAN32)
    case Inf(neg) => Some(Sign(neg) + INF32)
    case Fin(neg, mag) =>
      var b := Round(H32, mag, SCALE);
      if b < INF32 then Some(Sign(neg) + b) else None
  }

  /** `struct.unpack('f', bits)`. */
  function Unpack(bits: nat): Double {
    var neg := bits / SIGN32 % 2 == 1;
    var b := bits % SIGN32;
    if b < INF32 then Fin(neg, Magnitude(H32, b) * SCALE)
    else if b == INF32 then Inf(neg)
    else Nan(neg)
  }

  predicate IsFinitePattern(bits: nat) {
    bits % SIGN32 < INF32
  }

  // ---- the server's float32 oracle ----

  /** `encode_float32`: (high word, low word), for every `Decimal` whatever. */
  function EncodeFloat32(value: Decimal): (words: (nat, nat))
    ensures words.0 < WORD && words.1 < WORD
  {
    var asFloat := AsFloat(value);
    var bits := match Pack(asFloat) case Some(p) => p case None => Sign(asFloat.neg) + INF32;
    (bits / WORD, bits % WORD)
  }

  /** `Decimal(str(x))` for a finite `x`: a decimal that `float` takes back to `x`. */
  function FromFinite(x: Double): Decimal
    requires x.Fin?
  {
    Number(x.neg, x.mag, UNITS)
  }

  /** `decode_float32`: None for the patterns of NaN and the infinities. */
  function DecodeFloat32(high: int, low: int): Option<Decimal> {
    var bits := high % WORD * WORD + low % WORD;
    var x := Unpack(bits);
    if x.Fin? then Some(FromFinite(x)) else None
  }

  // ---- ordering ----

  function Signed(neg: bool, n: nat): int {
    var i: int := n;
    if neg then -i else i
  }

  predicate DoubleLe(x: Double, y: Double) {
    match (x, y)
    case (Nan(_), _) => false
    case (_, Nan(_)) => false
    case (Inf(neg), Inf(neg')) => neg || !neg'
    case (Inf(neg), Fin(_, _)) => neg
    case (Fin(_, _), Inf(neg')) => !neg'
    case (Fin(neg, mag), Fin(neg', mag')) => Signed(neg, mag) <= Signed(neg', mag')
  }

  predicate DecimalLe(x: Decimal, y: Decimal) {
    match (x, y)
    case (Infinite(neg), Infinite(neg')) => neg || !neg'
    case (Infinite(neg), Number(_, _, _)) => neg
    case (Number(_, _, _), Infinite(neg')) => !neg'
    case (Number(neg, num, den), Number(neg', num', den')) =>
      Signed(neg, num) * den' <= Signed(neg', num') * den
    case _ => false
  }

  /** What the two words of a register window stand for. */
  function OfWords(words: (nat, nat)): Double {
    Unpack(words.0 * WORD + words.1)
  }

  // ---- powers of two ----

  lemma DoubleProduct(p: nat, q: nat)
    ensures (2 * p) * q == 2 * (p * q)
  {
  }

  lemma {:induction false} PowerSum(a: nat, b: nat)
    ensures Pow2(a + b) == Pow2(a) * Pow2(b)
  {
    if a > 0 {
      var p, q := Pow2(a - 1), Pow2(b);
      assert Pow2(a - 1 + b) == p * q by { PowerSum(a - 1, b); }
      DoubleProduct(p, q);
      assert Pow2(a) == 2 * p && Pow2(a + b) == 2 * Pow2(a - 1 + b);
    }
  }

  lemma {:induction false} PowerIncreasing(a: nat, b: nat)
    requires a <= b
    ensures Pow2(a) <= Pow2(b)
    decreases b - a
  {
    if a < b {
      PowerIncreasing(a, b - 1);
    }
  }

  lemma PowerValues()
    ensures Pow2(23) == H32 && Pow2(52) == H64
  {
    assert Pow2(8) == 256;
    PowerSum(8, 8);
    PowerSum(16, 7);
    assert Pow2(7) == 128;
    PowerSum(16, 16);
    PowerSum(32, 16);
    PowerSum(48, 4);
    assert Pow2(4) == 16;
  }

  // ---- every binary32 number is a binary64 number ----

  /** A significand that fits, shifted up, is a number of the format. */
  lemma {:induction false} Representable(h: pos, n: nat, k: nat) returns (b: nat)
    requires n < 2 * h
    ensures Magnitude(h, b) == n * Pow2(k)
  {
    if k == 0 {
      b := n;
    } else {
      var c := Representable(h, n, k - 1);
      b := if c < h then 2 * c else c + h;
      DoublePower(n, k);
    }
  }

  lemma SingleMagnitude(b: nat) returns (n: nat, k: nat)
    requires b < INF32
    ensures n < 2 * H32 && k < 254
    ensures Magnitude(H32, b) == n * Pow2(k)
  {
    MagnitudeFormula(H32, b);
    n := if b / H32 == 0 then b % H32 else H32 + b % H32;
    k := if b / H32 == 0 then 0 else b / H32 - 1;
  }

  lemma BelowInfinity(b: nat, n: nat, k: nat)
    requires Magnitude(H64, b) == n * Pow2(k) && n < 2 * H32 && k < 254 + 925
    ensures b < INF64
  {
    InfinityIsLarge(n, k);
    if b > INF64 {
      MagnitudeIncreasing(H64, INF64, b);
    }
  }

  lemma InfinityIsLarge(n: nat, k: nat)
    requires n < 2 * H32 && k < 254 + 925
    ensures n * Pow2(k) < Magnitude(H64, INF64)
  {
    PowerValues();
    MagnitudeFormula(H64, INF64);
    var top := Pow2(2046);
    assert Magnitude(H64, INF64) == H64 * top;
    Times(n, 2 * H32, Pow2(k));
    assert 2 * H32 == Pow2(24);
    PowerSum(24, k);
    PowerIncreasing(24 + k, 2046);
    Times(2, H64, top);
  }

  lemma Associative(a: nat, b: nat, c: nat)
    ensures a * b * c == a * (b * c)
  {
  }

  lemma UnpackedIsDouble(bits: nat)
    ensures IsDouble(Unpack(bits))
  {
    var b := bits % SIGN32;
    if b < INF32 {
      var n, k := SingleMagnitude(b);
      PowerSum(k, 925);
      Associative(n, Pow2(k), SCALE);
      var c := Representable(H64, n, k + 925);
      BelowInfinity(c, n, k + 925);
    }
  }

  /** The decimal written for a finite double is read back as that double. */
  lemma FloatOfFinite(x: Double)
    requires x.Fin? && IsDouble(x)
    ensures ToFloat(FromFinite(x)) == Some(x)
  {
    var b: nat :| b < INF64 && x.mag == Magnitude(H64, b);
    RoundExact(H64, b, UNITS);
  }

  // ---- round trips ----

  lemma PackUnpack(bits: nat)
    requires bits < 2 * SIGN32 && IsFinitePattern(bits)
    ensures Pack(Unpack(bits)) == Some(bits)
  {
    SignParts(bits);
    RoundExact(H32, bits % SIGN32, SCALE);
  }

  lemma SignParts(bits: nat)
    requires bits < 2 * SIGN32
    ensures bits == Sign(bits / SIGN32 % 2 == 1) + bits % SIGN32
  {
  }

  /** Each finite binary32 pattern, negative zero and the subnormals included, survives being
      decoded to a decimal and encoded again. */
  lemma RoundTrip(high: nat, low: nat)
    requires high < WORD && low < WORD
    requires IsFinitePattern(high * WORD + low)
    ensures DecodeFloat32(high, low).Some?
    ensures EncodeFloat32(DecodeFloat32(high, low).value) == (high, low)
  {
    var bits := high * WORD + low;
    Joined(high, low);
    UnpackedIsDouble(bits);
    FloatOfFinite(Unpack(bits));
    PackUnpack(bits);
  }

  lemma Joined(high: nat, low: nat)
    requires high < WORD && low < WORD
    ensures (high * WORD + low) / WORD == high && (high * WORD + low) % WORD == low
    ensures high * WORD + low < 2 * SIGN32
    ensures DecodeFloat32(high, low) ==
            var x := Unpack(high * WORD + low);
            if x.Fin? then Some(FromFinite(x)) else None
  {
    assert high % WORD == high && low % WORD == low;
  }

  /** Decoding refuses exactly the patterns of NaN and of the infinities. */
  lemma DecodeRefusesExactly(high: nat, low: nat)
    requires high < WORD && low < WORD
    ensures DecodeFloat32(high, low).None? <==> !IsFinitePattern(high * WORD + low)
  {
    Joined(high, low);
  }

  // ---- the nearest binary32 number, and where there is none ----

  /** The last number before exponent field `e` and the first one in it. */
  lemma {:induction false} LastAndNext(h: pos, e: nat)
    requires 2 <= e
    ensures 2 * h <= e * h
    ensures Magnitude(h, e * h - 1) + Magnitude(h, e * h) == (4 * h - 1) * Pow2(e - 2)
  {
    if e == 2 {
      FirstDoubled(h);
      assert Pow2(0) == 1;
    } else {
      var x := e * h;
      OneLess(e, h);
      LastAndNext(h, e - 1);
      BothDoubled(h, x);
      DoublePower(4 * h - 1, e - 2);
    }
  }

  lemma FirstDoubled(h: pos)
    ensures Magnitude(h, 2 * h - 1) + Magnitude(h, 2 * h) == 4 * h - 1
  {
    assert Magnitude(h, h) == h;
  }

  lemma OneLess(e: nat, h: pos)
    requires 3 <= e
    ensures (e - 1) * h == e * h - h && 3 * h <= e * h
  {
    Times(3, e, h);
  }

  lemma BothDoubled(h: pos, x: nat)
    requires 3 * h <= x
    ensures Magnitude(h, x - 1) + Magnitude(h, x) == 2 * (Magnitude(h, x - h - 1) + Magnitude(h, x - h))
  {
  }

  /** Twice 2^128 - 2^103 when `a` is 252 and `c` is 925. */
  lemma Midpoint(a: nat, c: nat)
    ensures (0x1FF_FFFF * Pow2(a + 1)) * Pow2(c) == 2 * (Pow2(25 + a + c) - Pow2(a + c))
  {
    var p := Pow2(a + c);
    assert Pow2(25 + (a + c)) == 0x200_0000 * p by {
      PowerValues();
      PowerSum(2, 23);
      assert Pow2(2) == 4;
      PowerSum(25, a + c);
    }
    PowerSum(a + 1, c);
    Associative(0x1FF_FFFF, Pow2(a + 1), Pow2(c));
    assert Pow2(a + 1 + c) == 2 * p;
  }

  /** Packing overflows exactly from 2^128 - 2^103 on, half a step past the largest number. */
  lemma PackOverflowsExactly(x: Double)
    ensures Pack(x).None? <==> x.Fin? && x.mag >= OVERFLOW
  {
    if x.Fin? { PackOverflowsAt(x, 252, 925); }
  }

  lemma OverflowIs(a: nat, c: nat)
    requires a == 252 && c == 925
    ensures OVERFLOW == Pow2(25 + a + c) - Pow2(a + c) && SCALE == Pow2(c)
  {
  }

  lemma PackOverflowsAt(x: Double, a: nat, c: nat)
    requires x.Fin? && a == 252 && c == 925
    ensures Pack(x).None? <==> x.mag >= OVERFLOW
  {
    OverflowIs(a, c);
    RoundsPastLargest(H32, x.mag, INF32, a, c);
  }

  lemma RoundsPastLargest(h: pos, m: nat, inf: nat, a: nat, c: nat)
    requires h % 2 == 0 && inf == (a + 3) * h && inf % 2 == 0
    requires 4 * h - 1 == 0x1FF_FFFF
    ensures Round(h, m, Pow2(c)) >= inf <==> m >= Pow2(25 + a + c) - Pow2(a + c)
  {
    LargestSingle(h, a, c);
    RoundPastOdd(h, m, Pow2(c), inf - 1);
  }

  lemma LargestSingle(h: pos, a: nat, c: nat)
    requires 4 * h - 1 == 0x1FF_FFFF
    ensures 0 < (a + 3) * h
    ensures (Magnitude(h, (a + 3) * h - 1) + Magnitude(h, (a + 3) * h)) * Pow2(c)
            == 2 * (Pow2(25 + a + c) - Pow2(a + c))
  {
    LastAndNext(h, a + 3);
    Midpoint(a, c);
  }

  // ---- the same limits for decimals, through both roundings ----

  /** The number with exponent field `e` and fraction field `f`. */
  lemma Significand(h: pos, e: nat, f: nat)
    requires 1 <= e && f < h
    ensures Magnitude(h, e * h + f) == (h + f) * Pow2(e - 1)
  {
    Division(h, e, f, e * h + f);
    MagnitudeFormula(h, e * h + f);
  }

  lemma NextMultiple(e: nat, h: nat)
    ensures (e + 1) * h == e * h + h
  {
  }

  lemma NextSignificand(h: pos, e: nat, f: nat)
    requires 1 <= e && f < h
    ensures Magnitude(h, e * h + f + 1) == (h + f + 1) * Pow2(e - 1)
  {
    if f + 1 < h {
      Significand(h, e, f + 1);
    } else {
      NextMultiple(e, h);
      Significand(h, e + 1, 0);
      DoublePower(h, e);
      DoubleProduct(h, Pow2(e - 1));
    }
  }

  lemma Cancel(a: nat, b: nat, c: pos)
    ensures a * c >= b * c <==> a >= b
  {
    Multiples(b, a, c);
    Multiples(a, b, c);
  }

  lemma HalfSteps(num: nat, p: pos, s: nat, q: pos, den: pos)
    ensures 2 * (num * p) >= s * (2 * q * p) * den <==> num >= s * q * den
  {
    assert s * (2 * q * p) * den == s * q * den * (2 * p);
    assert 2 * (num * p) == num * (2 * p);
    Cancel(num, s * q * den, 2 * p);
  }

  lemma Distribute(n: nat, p: nat)
    ensures n * p + (n + 1) * p == (2 * n + 1) * p
  {
  }

  lemma EvenMultiple(e: nat, h: pos)
    requires h % 2 == 0
    ensures e * h % 2 == 0
  {
    var g := h / 2;
    assert e * h == 2 * (e * g);
  }

  /** A number counted in units of 2^-u goes past an odd pattern exactly when it reaches the
      midpoint to the next one. */
  lemma RoundsPast(h: pos, e: nat, f: nat, u: nat, k: nat, num: nat, den: pos)
    requires h % 2 == 0 && f < h && f % 2 == 1 && e == u + k + 2
    ensures Round(h, num * Pow2(u), den) > e * h + f <==> num >= (2 * (h + f) + 1) * Pow2(k) * den
  {
    var b, m := e * h + f, num * Pow2(u);
    var sum := Magnitude(h, b) + Magnitude(h, b + 1);
    PastOdd(h, e, f, m, den);
    SumReached(h, e, f, u, k, num, den, sum);
  }

  lemma PastOdd(h: pos, e: nat, f: nat, m: nat, den: pos)
    requires h % 2 == 0 && f < h && f % 2 == 1
    ensures Round(h, m, den) > e * h + f
      <==> 2 * m >= (Magnitude(h, e * h + f) + Magnitude(h, e * h + f + 1)) * den
  {
    EvenMultiple(e, h);
    var b := e * h + f;
    assert b % 2 == 1;
    RoundPastOdd(h, m, den, b);
  }

  lemma SumReached(h: pos, e: nat, f: nat, u: nat, k: nat, num: nat, den: pos, sum: nat)
    requires f < h && e == u + k + 2 && sum == Magnitude(h, e * h + f) + Magnitude(h, e * h + f + 1)
    ensures 2 * (num * Pow2(u)) >= sum * den <==> num >= (2 * (h + f) + 1) * Pow2(k) * den
  {
    MidpointIs(h, e, f, u, k);
    StepsPast(num * Pow2(u), sum, num, Pow2(u), 2 * (h + f) + 1, Pow2(k), den);
  }

  lemma StepsPast(m: nat, sum: nat, num: nat, p: pos, s: nat, q: pos, den: pos)
    requires m == num * p && sum == s * (2 * q * p)
    ensures 2 * m >= sum * den <==> num >= s * q * den
  {
    HalfSteps(num, p, s, q, den);
  }

  lemma MidpointIs(h: pos, e: nat, f: nat, u: nat, k: nat)
    requires f < h && e == u + k + 2
    ensures Magnitude(h, e * h + f) + Magnitude(h, e * h + f + 1) == (2 * (h + f) + 1) * (2 * Pow2(k) * Pow2(u))
  {
    Significand(h, e, f);
    NextSignificand(h, e, f);
    Distribute(h + f, Pow2(e - 1));
    PowerOfSum(u, k, e);
  }

  lemma PowerOfSum(u: nat, k: nat, e: nat)
    requires e == u + k + 2
    ensures Pow2(e - 1) == 2 * Pow2(k) * Pow2(u)
  {
    PowerSum(k, u);
    assert Pow2(e - 1) == 2 * Pow2(k + u);
  }

  lemma LimitsAre(u: nat, k: nat, l: nat)
    requires u == 1074 && k == 74 && l == 970
    ensures UNITS == Pow2(u)
    ensures SINGLE_LIMIT == 0x3F_FFFF_DFFF_FFFF * Pow2(k)
    ensures DOUBLE_LIMIT == 0x3F_FFFF_FFFF_FFFF * Pow2(l)
  {
  }

  /** `top` is the pattern of 2^128 - 2^103 as binary64. */
  lemma ReachesTop(num: nat, den: pos, top: nat, u: nat, k: nat)
    requires u == 1074 && k == 74 && top == (u + k + 3) * H64 - 0x1000_0000
    ensures Round(H64, num * UNITS, den) >= top <==> num >= SINGLE_LIMIT * den
  {
    LimitsAre(u, k, 970);
    RoundsPast(H64, u + k + 2, H64 - 0x1000_0001, u, k, num, den);
  }

  lemma ReachesInfinity(num: nat, den: pos, u: nat, l: nat)
    requires u == 1074 && l == 970
    ensures Round(H64, num * UNITS, den) >= INF64 <==> num >= DOUBLE_LIMIT * den
  {
    LimitsAre(u, 74, l);
    RoundsPast(H64, u + l + 2, H64 - 1, u, l, num, den);
  }

  lemma TopIs(top: nat, a: nat, b: nat, c: nat)
    requires b == 252 && c == 925 && 53 + a == 25 + b + c && top == (a + 2) * H64 - 0x1000_0000
    ensures Magnitude(H64, top) == OVERFLOW
  {
    Significand(H64, a + 1, H64 - 0x1000_0000);
    LimitOfSum(a);
    OverflowIs(b, c);
  }

  lemma LimitOfSum(a: nat)
    ensures (H64 + H64 - 0x1000_0000) * Pow2(a) == Pow2(53 + a) - Pow2(28 + a)
  {
    PowerValues();
    assert Pow2(53) == 2 * Pow2(52) && Pow2(28) == 0x1000_0000;
    PowerSum(53, a);
    PowerSum(28, a);
  }

  /** A decimal's `float` is infinite from 2^1024 - 2^970 on, and is or packs to an infinity from
      2^128 - 2^103 - 2^74 on: that rounds to 2^128 - 2^103, the tie going to the even one. */
  lemma FloatOverflowsExactly(neg: bool, num: nat, den: pos)
    ensures var x := NearestDouble(neg, num, den);
            && x.neg == neg && !x.Nan?
            && (x.Inf? <==> num >= DOUBLE_LIMIT * den)
            && (x.Inf? || Pack(x).None? <==> num >= SINGLE_LIMIT * den)
  {
    FloatOverflowsAt(neg, num, den, 1151 * H64 - 0x1000_0000, 1074, 74);
  }

  /** `float` of a number below 2^1024 - 2^970 has its sign, and no binary64 number `b` is nearer to
      the number; of two equally near ones it is the one with the even significand. */
  lemma FloatNearest(neg: bool, num: nat, den: pos, b: nat) returns (r: nat)
    requires num < DOUBLE_LIMIT * den && b < INF64
    ensures r < INF64 && NearestDouble(neg, num, den) == Fin(neg, Magnitude(H64, r))
    ensures Nearer(Magnitude(H64, r), Magnitude(H64, b), num * UNITS, den, r % 2 == 0)
  {
    FloatIsFinite(neg, num, den);
    r := Round(H64, num * UNITS, den);
    NearestPattern(H64, num * UNITS, den, b);
  }

  /** `near` is no farther from `m / d` than `far`, and `even` if it is another as far. */
  predicate Nearer(near: nat, far: nat, m: nat, d: pos, even: bool) {
    && Abs(near * d - m) <= Abs(far * d - m)
    && (Abs(near * d - m) == Abs(far * d - m) && far != near ==> even)
  }

  lemma FloatIsFinite(neg: bool, num: nat, den: pos)
    requires num < DOUBLE_LIMIT * den
    ensures Round(H64, num * UNITS, den) < INF64
  {
    FloatOverflowsExactly(neg, num, den);
  }

  lemma NearestPattern(h: pos, m: nat, d: pos, b: nat)
    requires h % 2 == 0
    ensures Nearer(Magnitude(h, Round(h, m, d)), Magnitude(h, b), m, d, Round(h, m, d) % 2 == 0)
  {
    RoundNearest(h, m, d, b);
  }

  lemma FloatOverflowsAt(neg: bool, num: nat, den: pos, top: nat, u: nat, k: nat)
    requires u == 1074 && k == 74 && top == (u + k + 3) * H64 - 0x1000_0000
    ensures var x := NearestDouble(neg, num, den);
            && (x.Inf? <==> num >= DOUBLE_LIMIT * den)
            && (x.Inf? || Pack(x).None? <==> num >= SINGLE_LIMIT * den)
  {
    var b := Round(H64, num * UNITS, den);
    ReachesTop(num, den, top, u, k);
    ReachesInfinity(num, den, u, 970);
    PatternPacks(neg, b, top, u + k + 1);
  }

  lemma PatternPacks(neg: bool, b: nat, top: nat, a: nat)
    requires a == 1149 && top == (a + 2) * H64 - 0x1000_0000
    ensures Pack(Fin(neg, Magnitude(H64, b))).None? <==> b >= top
  {
    TopIs(top, a, 252, 925);
    PackOverflowsExactly(Fin(neg, Magnitude(H64, b)));
    PatternOrder(H64, b, top);
  }

  lemma PatternOrder(h: pos, a: nat, b: nat)
    ensures Magnitude(h, a) >= Magnitude(h, b) <==> a >= b
  {
    if a < b {
      MagnitudeIncreasing(h, a, b);
    } else if b < a {
      MagnitudeIncreasing(h, b, a);
    }
  }

  /** Serving is total. The words stand for an infinity exactly for an infinite decimal and for one
      of at least 2^128 - 2^103 - 2^74 in magnitude, with its sign, and decoding then refuses them;
      they stand for a NaN exactly when the decimal is one. */
  lemma EncodeInfiniteExactly(value: Decimal)
    ensures var w := EncodeFloat32(value);
            && (OfWords(w).Inf? <==>
                value.Infinite? || (value.Number? && value.num >= SINGLE_LIMIT * value.den))
            && (OfWords(w).Inf? ==> OfWords(w).neg == value.neg && DecodeFloat32(w.0, w.1).None?)
            && (OfWords(w).Nan? <==> value.QuietNan? || value.SignalingNan?)
  {
    var w := EncodeFloat32(value);
    var x := AsFloat(value);
    ServedIsQuantized(value);
    QuantizedSigns(x);
    QuantizedInfinity(x);
    if value.Number? { FloatOverflowsExactly(value.neg, value.num, value.den); }
    if OfWords(w).Inf? { InfinityRefused(w.0, w.1); }
  }

  lemma InfinityRefused(high: nat, low: nat)
    requires high < WORD && low < WORD && OfWords((high, low)).Inf?
    ensures DecodeFloat32(high, low).None?
  {
    Joined(high, low);
  }

  lemma QuantizedInfinity(x: Double)
    ensures Quantized(x).Inf? <==> x.Inf? || Pack(x).None?
  {
    InfinityStays(x.neg);
    SignField(x.neg, INF32);
    if x.Nan? { SignField(x.neg, NAN32); }
    if x.Fin? && Pack(x).Some? { SignField(x.neg, Round(H32, x.mag, SCALE)); }
  }

  function AsFloat(value: Decimal): Double {
    match ToFloat(value) case Some(d) => d case None => Nan(false)
  }

  lemma ServedIsQuantized(value: Decimal)
    ensures OfWords(EncodeFloat32(value)) == Quantized(AsFloat(value))
  {
    SplitWords(value);
  }

  /** The words put together again are the packed pattern. */
  lemma SplitWords(value: Decimal)
    ensures var asFloat := AsFloat(value);
            var w := EncodeFloat32(value);
            w.0 * WORD + w.1 ==
              match Pack(asFloat) case Some(p) => p case None => Sign(asFloat.neg) + INF32
  {
  }

  lemma SignField(neg: bool, b: nat)
    requires b < SIGN32
    ensures (Sign(neg) + b) % SIGN32 == b
    ensures (Sign(neg) + b) / SIGN32 % 2 == 1 <==> neg
  {
  }

  /** Packing a `float` gives the nearest pattern, and to two equally near ones the even one. */
  lemma PackNearest(x: Double, b: nat)
    requires x.Fin? && Pack(x).Some? && b < INF32
    ensures var y := Quantized(x);
            && y.Fin? && y.neg == x.neg
            && Abs(y.mag - x.mag) <= Abs(Magnitude(H32, b) * SCALE - x.mag)
            && ((Abs(y.mag - x.mag) == Abs(Magnitude(H32, b) * SCALE - x.mag)
                 && Magnitude(H32, b) * SCALE != y.mag)
                ==> Pack(x).value % WORD % 2 == 0)
  {
    var r := Round(H32, x.mag, SCALE);
    QuantizedFinite(x);
    RoundNearest(H32, x.mag, SCALE, b);
    LowBit(x.neg, r);
  }

  /** A number below 2^128 - 2^103 - 2^74 is served as a finite one, which has the sign of the
      `float`, and no finite binary32 number `b` is nearer to it; of two equally near ones the
      result is the one with the even significand. */
  lemma EncodeNearest(value: Decimal, b: nat)
    requires value.Number? && value.num < SINGLE_LIMIT * value.den && b < INF32
    ensures var x := NearestDouble(value.neg, value.num, value.den);
            var w := EncodeFloat32(value);
            var y := OfWords(w);
            && x.Fin? && y.Fin? && y.neg == x.neg
            && Abs(y.mag - x.mag) <= Abs(Magnitude(H32, b) * SCALE - x.mag)
            && ((Abs(y.mag - x.mag) == Abs(Magnitude(H32, b) * SCALE - x.mag)
                 && Magnitude(H32, b) * SCALE != y.mag)
                ==> w.1 % 2 == 0)
  {
    var x := NearestDouble(value.neg, value.num, value.den);
    BelowLimitPacks(value);
    PackNearest(x, b);
  }

  /** What a number below the limit is served as. */
  lemma BelowLimitPacks(value: Decimal)
    requires value.Number? && value.num < SINGLE_LIMIT * value.den
    ensures var x, w := NearestDouble(value.neg, value.num, value.den), EncodeFloat32(value);
            x.Fin? && Pack(x).Some? && OfWords(w) == Quantized(x) && w.1 == Pack(x).value % WORD
  {
    FloatOverflowsExactly(value.neg, value.num, value.den);
    ServedIsQuantized(value);
  }

  lemma QuantizedFinite(x: Double)
    requires x.Fin? && Pack(x).Some?
    ensures Quantized(x) == Fin(x.neg, Magnitude(H32, Round(H32, x.mag, SCALE)) * SCALE)
  {
    SignField(x.neg, Round(H32, x.mag, SCALE));
  }

  lemma LowBit(neg: bool, r: nat)
    ensures (Sign(neg) + r) % WORD % 2 == r % 2
  {
  }

  // ---- order ----

  lemma SingleOrder(x: Double, y: Double)
    requires DoubleLe(x, y)
    ensures DoubleLe(Quantized(x), Quantized(y))
  {
    if x.Fin? && y.Fin? {
      if x.neg == y.neg {
        SingleOrderSameSign(x, y);
      } else if x.neg {
        QuantizedSigns(x);
        QuantizedSigns(y);
      } else {
        QuantizedZero(x);
        QuantizedZero(y);
      }
    } else {
      SingleOrderInfinite(x, y);
    }
  }

  lemma SingleOrderSameSign(x: Double, y: Double)
    requires x.Fin? && y.Fin? && x.neg == y.neg && DoubleLe(x, y)
    ensures DoubleLe(Quantized(x), Quantized(y))
  {
    if x.neg {
      QuantizedOrder(Fin(false, y.mag), Fin(false, x.mag));
      QuantizedSign(x);
      QuantizedSign(y);
    } else {
      QuantizedOrder(x, y);
    }
  }

  lemma SingleOrderInfinite(x: Double, y: Double)
    requires DoubleLe(x, y) && (x.Inf? || y.Inf?)
    ensures DoubleLe(Quantized(x), Quantized(y))
  {
    QuantizedSigns(x);
    QuantizedSigns(y);
    QuantizedInfinity(x);
    QuantizedInfinity(y);
  }

  /** What a `float` becomes on its way through two registers. */
  function Quantized(x: Double): Double {
    Unpack(match Pack(x) case Some(p) => p case None => Sign(x.neg) + INF32)
  }

  lemma QuantizedSigns(x: Double)
    ensures Quantized(x).neg == x.neg
    ensures Quantized(x).Nan? <==> x.Nan?
  {
    match x
    case Nan(neg) => SignField(neg, NAN32);
    case Inf(neg) => SignField(neg, INF32);
    case Fin(neg, mag) => if Pack(x).Some? { QuantizedFinite(x); } else { SignField(neg, INF32); }
  }

  lemma InfinityStays(neg: bool)
    ensures Quantized(Inf(neg)) == Inf(neg)
  {
    SignField(neg, INF32);
  }

  lemma QuantizedSign(x: Double)
    requires x.Fin?
    ensures var y, z := Quantized(x), Quantized(Fin(!x.neg, x.mag));
            && y.neg == x.neg && z.neg == !x.neg
            && (if y.Fin? then z.Fin? && z.mag == y.mag else y.Inf? && z.Inf?)
  {
    var x' := Fin(!x.neg, x.mag);
    if Pack(x).Some? {
      QuantizedFinite(x);
      QuantizedFinite(x');
    } else {
      SignField(x.neg, INF32);
      SignField(!x.neg, INF32);
    }
  }

  lemma QuantizedZero(x: Double)
    requires x.Fin? && x.mag == 0
    ensures Quantized(x) == x
  {
    assert Magnitude(H32, 0) == 0;
    RoundExact(H32, 0, SCALE);
    SignField(x.neg, 0);
  }

  lemma QuantizedOrder(x: Double, y: Double)
    requires x.Fin? && y.Fin? && !x.neg && !y.neg && x.mag <= y.mag
    ensures DoubleLe(Quantized(x), Quantized(y))
  {
    var r, r' := Round(H32, x.mag, SCALE), Round(H32, y.mag, SCALE);
    RoundMonotone(H32, x.mag, y.mag, SCALE);
    if r < INF32 { QuantizedFinite(x); } else { SignField(false, INF32); }
    if r' < INF32 {
      QuantizedFinite(y);
      if r < r' { MagnitudeIncreasing(H32, r, r'); }
      Times(Magnitude(H32, r), Magnitude(H32, r'), SCALE);
    } else {
      SignField(false, INF32);
    }
  }

  lemma FloatOrder(x: Decimal, y: Decimal)
    requires DecimalLe(x, y)
    ensures DoubleLe(ToFloat(x).value, ToFloat(y).value)
  {
    if x.Number? && y.Number? {
      FloatOrderNumbers(x.neg, x.num, x.den, y.neg, y.num, y.den);
    }
  }

  lemma NearestDoubleOrder(num: nat, den: pos, num': nat, den': pos)
    requires num * den' <= num' * den
    ensures DoubleLe(NearestDouble(false, num, den), NearestDouble(false, num', den'))
    ensures DoubleLe(NearestDouble(true, num', den'), NearestDouble(true, num, den))
  {
    Times(num * den', num' * den, UNITS);
    assert num * UNITS * den' == num * den' * UNITS;
    assert num' * UNITS * den == num' * den * UNITS;
    RoundMonotoneRational(H64, num * UNITS, den, num' * UNITS, den');
    var b, b' := Round(H64, num * UNITS, den), Round(H64, num' * UNITS, den');
    if b < b' { MagnitudeIncreasing(H64, b, b'); }
  }

  lemma SignedProduct(neg: bool, n: nat, c: pos)
    ensures Signed(neg, n) * c == Signed(neg, n * c)
    ensures n * c >= 0 && (n > 0 ==> n * c > 0)
  {
  }

  lemma FloatOrderNumbers(neg: bool, num: nat, den: pos, neg': bool, num': nat, den': pos)
    requires Signed(neg, num) * den' <= Signed(neg', num') * den
    ensures DoubleLe(NearestDouble(neg, num, den), NearestDouble(neg', num', den'))
  {
    SignedProduct(neg, num, den');
    SignedProduct(neg', num', den);
    if !neg && !neg' {
      NearestDoubleOrder(num, den, num', den');
    } else if neg && neg' {
      NearestDoubleOrder(num', den', num, den);
    } else if !neg {
      ZeroIsZero(den);
      ZeroIsZero(den');
    }
  }

  lemma ZeroIsZero(den: pos)
    ensures NearestDouble(false, 0, den) == Fin(false, 0)
    ensures NearestDouble(true, 0, den) == Fin(true, 0)
  {
    assert Magnitude(H64, 0) == 0;
    RoundExact(H64, 0, den);
  }

  /** Larger values are never served as smaller ones, through both roundings, from decimal to
      binary64 and from binary64 to binary32. */
  lemma EncodeMonotone(x: Decimal, y: Decimal)
    requires DecimalLe(x, y)
    ensures DoubleLe(OfWords(EncodeFloat32(x)), OfWords(EncodeFloat32(y)))
  {
    FloatOrder(x, y);
    ServedIsQuantized(x);
    ServedIsQuantized(y);
    SingleOrder(ToFloat(x).value, ToFloat(y).value);
  }
}
