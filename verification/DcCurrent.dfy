/** The DC current of a battery telemetry frame (field_publish_bess_ems/_encoder.py): a product, a
    division and a quantization, each rounding half to even in a 28-digit decimal context.

    A finite `Decimal` is its exact value, a `real`; what the context does to it is written out. */
module DcCurrent {
  import opened Options

  const LOW: real := 1_000_000_000_000_000_000_000_000_000.0     // 10^27, the least 28-digit coefficient
  const TOP: real := 10_000_000_000_000_000_000_000_000_000.0    // 10^28, the first with 29 digits
  const MICRO: real := 0.000001

  type positive = x: real | 0.0 < x witness 1.0

  /** Ten to the power `k`. */
  function Pow10(k: int): positive {
    Power(k)
  }

  function Power(k: int): positive
    decreases if k < 0 then -k else k
  {
    if k == 0 then 1.0 else if k > 0 then 10.0 * Power(k - 1) else Power(k + 1) / 10.0
  }

  function Abs(x: real): real {
    if x < 0.0 then -x else x
  }

  /** The nearest integer, the even one of two equally near. */
  function Nearest(x: real): int {
    var q := x.Floor;
    var part := x - q as real;
    if part < 0.5 || (part == 0.5 && q % 2 == 0) then q else q + 1
  }

  /** `x` scaled by 10^k has 28 digits before the point. */
  predicate Fits(x: positive, k: int) {
    LOW <= x * Pow10(k) < TOP
  }

  /** The one scale that fits (`ScaleIs`). */
  ghost function Scale(x: positive): (k: int)
    ensures Fits(x, k)
  {
    ScaleExists(x);
    var k :| Fits(x, k);
    k
  }

  lemma ScaleExists(x: positive)
    ensures exists k :: Fits(x, k)
  {
    if x < LOW { var k := ScaleUp(x); } else { var k := ScaleDown(x); }
  }

  lemma {:induction false} ScaleUp(x: positive) returns (k: int)
    requires x < TOP
    ensures Fits(x, k)
    decreases (TOP / x).Floor
  {
    if x >= LOW {
      k := 0;
    } else {
      var y := TOP / x;
      assert y * x == TOP;
      if y <= 1.0 { Times(y, 1.0, x); }
      Shrinks(y);
      assert TOP / (10.0 * x) == TOP / x / 10.0;
      k := ScaleUp(10.0 * x);
      PowStep(k);
      TenTimes(x, Pow10(k));
      assert 10.0 * x * Pow10(k) == 10.0 * (x * Pow10(k));
      k := k + 1;
    }
  }

  lemma {:induction false} ScaleDown(x: positive) returns (k: int)
    requires LOW <= x
    ensures Fits(x, k)
    decreases x.Floor
  {
    if x < TOP {
      k := 0;
    } else {
      Shrinks(x);
      k := ScaleDown(x / 10.0);
      PowStep(k - 1);
      TenTimes(x / 10.0, Pow10(k - 1));
      assert 10.0 * (x / 10.0 * Pow10(k - 1)) == x * Pow10(k - 1);
      k := k - 1;
    }
  }

  lemma Shrinks(y: real)
    requires y > 1.0
    ensures 0 <= (y / 10.0).Floor < y.Floor
  {
  }

  /** Rounding to 28 significant digits. */
  ghost function Round28(x: real): real {
    if x == 0.0 then 0.0 else RoundTo(x, ScaleOf(Abs(x)))
  }

  ghost function ScaleOf(x: positive): positive {
    Pow10(Scale(x))
  }

  /** Rounding to a multiple of `1 / p`. */
  function RoundTo(x: real, p: positive): real {
    Nearest(x * p) as real / p
  }

  /** `quantize` to six decimals, None standing for InvalidOperation: the coefficient has more
      digits than the context. */
  function Quantize(x: real): Option<real> {
    var m := Nearest(x / MICRO);
    if Abs(m as real) >= TOP then None else Some(m as real * MICRO)
  }

  /** `_dc_current`: amperes from kilowatts and volts. */
  ghost function Current(power: real, voltage: real): Option<real> {
    if voltage == 0.0 then Some(0.0)
    else Quantize(Round28(Round28(power * 1000.0) / voltage))
  }

  // ---- powers of ten ----

  lemma {:induction false} PowStep(k: int)
    ensures Pow10(k + 1) == 10.0 * Pow10(k)
  {
  }

  lemma TenTimes(x: real, y: real)
    ensures x * (10.0 * y) == 10.0 * (x * y)
  {
  }

  lemma StepUp(x: real, y: real, xy: real, y': real, xy': real)
    requires xy == x * y && xy' == 10.0 * xy && y' == 10.0 * y
    ensures xy' == x * y'
  {
    TenTimes(x, y);
  }

  lemma StepDown(x: real, y: real, xy: real, y': real, xy': real)
    requires xy == x * y && xy == 10.0 * xy' && y == 10.0 * y'
    ensures xy' == x * y'
  {
    TenTimes(x, y');
  }

  predicate TenTimesAt(f: int -> real, k: int) {
    f(k + 1) == 10.0 * f(k)
  }

  ghost predicate Geometric(f: int -> real) {
    f(0) == 1.0 && forall k: int :: TenTimesAt(f, k)
  }

  lemma {:induction false} GeometricAdd(f: int -> real, a: int, b: int)
    requires Geometric(f)
    ensures f(a + b) == f(a) * f(b)
    decreases if b < 0 then -b else b
  {
    if b > 0 {
      GeometricAdd(f, a, b - 1);
      assert TenTimesAt(f, a + b - 1) && TenTimesAt(f, b - 1);
      StepUp(f(a), f(b - 1), f(a + b - 1), f(b), f(a + b));
    } else if b < 0 {
      GeometricAdd(f, a, b + 1);
      assert TenTimesAt(f, a + b) && TenTimesAt(f, b);
      StepDown(f(a), f(b + 1), f(a + b + 1), f(b), f(a + b));
    }
  }

  lemma PowAdd(a: int, b: int)
    ensures Pow10(a + b) == Pow10(a) * Pow10(b)
  {
    var f := (k: int) => Pow10(k) as real;
    forall k: int ensures TenTimesAt(f, k) {
      PowStep(k);
    }
    GeometricAdd(f, a, b);
  }

  lemma PowMonotone(a: int, b: int)
    requires a <= b
    ensures Pow10(a) <= Pow10(b)
    decreases b - a
  {
    if a < b {
      PowMonotone(a, b - 1);
      PowStep(b - 1);
    }
  }

  // ---- rounding ----

  /** Rounding treats both signs alike. */
  lemma NearestOdd(x: real)
    ensures Nearest(-x) == -Nearest(x)
  {
    var q := x.Floor;
    if x == q as real {
      assert (-x).Floor == -q;
    } else {
      assert (-x).Floor == -q - 1;
    }
  }

  lemma NearestMonotone(x: real, y: real)
    requires x <= y
    ensures Nearest(x) <= Nearest(y)
  {
    assert x.Floor <= y.Floor;
  }

  lemma NearestBound(x: real)
    ensures Abs(Nearest(x) as real - x) <= 0.5
  {
  }

  lemma NearestInt(n: int)
    ensures Nearest(n as real) == n
  {
  }

  lemma Times(a: real, b: real, c: real)
    requires a <= b && 0.0 <= c
    ensures a * c <= b * c
  {
  }

  lemma Assoc(a: real, b: real, c: real)
    ensures a * b * c == a * (b * c)
  {
  }

  lemma Shift(x: real, a: int, b: int)
    ensures x * Pow10(a) * Pow10(b) == x * Pow10(a + b)
  {
    Assoc(x, Pow10(a), Pow10(b));
    PowAdd(a, b);
  }

  lemma ScaleClash(x: positive, y: positive, p: positive, q: positive)
    requires x <= y && 10.0 * p <= q && LOW <= x * p
    ensures TOP <= y * q
  {
    TenTimes(x, p);
    Times(10.0 * p, q, x);
    Times(x, y, q);
  }

  /** The larger number needs no more scaling than the smaller. */
  lemma ScaleOrder(x: positive, y: positive, k: int, l: int)
    requires x <= y && LOW <= x * Pow10(k) && y * Pow10(l) < TOP
    ensures l <= k
  {
    if k < l {
      PowMonotone(k + 1, l);
      PowStep(k);
      ScaleClash(x, y, Pow10(k), Pow10(l));
    }
  }

  lemma ScaleIs(x: positive, k: int)
    requires LOW <= x * Pow10(k) < TOP
    ensures Scale(x) == k
  {
    ScaleOrder(x, x, k, Scale(x));
    ScaleOrder(x, x, Scale(x), k);
  }

  lemma RoundToOdd(x: real, p: positive)
    ensures RoundTo(-x, p) == -RoundTo(x, p)
  {
    assert (-x) * p == -(x * p);
    NearestOdd(x * p);
  }

  lemma RoundToMonotone(x: real, y: real, p: positive)
    requires x <= y
    ensures RoundTo(x, p) <= RoundTo(y, p)
  {
    Times(x, y, p);
    NearestMonotone(x * p, y * p);
    Divided(Nearest(x * p) as real, Nearest(y * p) as real, p);
  }

  lemma Divided(a: real, b: real, p: positive)
    requires a <= b
    ensures a / p <= b / p
  {
  }

  /** A scaled number that has 28 digits keeps them, or becomes 10^28. */
  lemma RoundToFits(x: positive, p: positive)
    requires LOW <= x * p < TOP
    ensures LOW / p <= RoundTo(x, p) <= TOP / p
  {
    NearestMonotone(LOW, x * p);
    NearestMonotone(x * p, TOP);
    Divided(LOW, Nearest(x * p) as real, p);
    Divided(Nearest(x * p) as real, TOP, p);
  }

  lemma Coarser(p: positive, q: positive)
    requires 10.0 * q <= p
    ensures TOP / p <= LOW / q
  {
    var r := p / q;
    assert p == r * q;
    Divided(10.0 * q, p, q);
    assert TOP / p == TOP / r / q;
    Divided(TOP / r, LOW, q);
  }

  lemma Round28Odd(x: real)
    ensures Round28(-x) == -Round28(x)
  {
    if x != 0.0 { RoundToOdd(x, ScaleOf(Abs(x))); }
  }

  lemma Round28Positive(x: positive)
    ensures 0.0 < Round28(x)
  {
    RoundToFits(x, ScaleOf(x));
    Divided(1.0, LOW, ScaleOf(x));
  }

  lemma Round28Sign(x: real)
    ensures 0.0 < x ==> 0.0 < Round28(x)
    ensures x < 0.0 ==> Round28(x) < 0.0
  {
    if x > 0.0 {
      Round28Positive(x);
    } else if x < 0.0 {
      Round28Odd(x);
      Round28Positive(-x);
    }
  }

  lemma ScalesApart(k: int, l: int)
    requires l < k
    ensures 10.0 * Pow10(l) <= Pow10(k)
  {
    PowStep(l);
    PowMonotone(l + 1, k);
  }

  lemma RoundToAcross(x: positive, y: positive, p: positive, q: positive)
    requires x <= y && (p == q || 10.0 * q <= p)
    requires LOW <= x * p < TOP && LOW <= y * q < TOP
    ensures RoundTo(x, p) <= RoundTo(y, q)
  {
    if p == q {
      RoundToMonotone(x, y, p);
    } else {
      RoundToFits(x, p);
      RoundToFits(y, q);
      Coarser(p, q);
    }
  }

  predicate Rounds(x: positive, p: positive, r: real) {
    LOW <= x * p < TOP && r == RoundTo(x, p)
  }

  lemma Rounded(x: positive)
    ensures Rounds(x, ScaleOf(x), Round28(x))
  {
    assert Abs(x) == x;
    assert Fits(x, Scale(x));
  }

  lemma ScaleOfOrder(x: positive, y: positive)
    requires x <= y
    ensures ScaleOf(x) == ScaleOf(y) || 10.0 * ScaleOf(y) <= ScaleOf(x)
  {
    ScaleOrder(x, y, Scale(x), Scale(y));
    if Scale(y) < Scale(x) { ScalesApart(Scale(x), Scale(y)); }
  }

  lemma RoundsInOrder(x: positive, y: positive, p: positive, q: positive, r: real, s: real)
    requires x <= y && (p == q || 10.0 * q <= p)
    requires Rounds(x, p, r) && Rounds(y, q, s)
    ensures r <= s
  {
    RoundToAcross(x, y, p, q);
  }

  lemma Round28MonotonePositive(x: positive, y: positive)
    requires x <= y
    ensures Round28(x) <= Round28(y)
  {
    Rounded(x);
    Rounded(y);
    ScaleOfOrder(x, y);
    RoundsInOrder(x, y, ScaleOf(x), ScaleOf(y), Round28(x), Round28(y));
  }

  lemma Round28Monotone(x: real, y: real)
    requires x <= y
    ensures Round28(x) <= Round28(y)
  {
    Round28Sign(x);
    Round28Sign(y);
    if x > 0.0 {
      Round28MonotonePositive(x, y);
    } else if y < 0.0 {
      Round28Odd(x);
      Round28Odd(y);
      Round28MonotonePositive(-y, -x);
    }
  }

  // ---- quantizing what has been rounded ----

  /** Whole multiples of a positive power. */
  lemma {:induction false} PowWhole(k: nat) returns (n: nat)
    ensures Pow10(k) == n as real
  {
    if k == 0 {
      n := 1;
    } else {
      n := PowWhole(k - 1);
      PowStep(k - 1);
      n := 10 * n;
    }
  }

  predicate Is28Digits(x: real, c: int, e: int) {
    Abs(c as real) < TOP && x == c as real * Pow10(e)
  }

  ghost predicate Has28Digits(x: real) {
    exists c: int, e: int :: Is28Digits(x, c, e)
  }

  lemma Tenth(a: real, p: positive)
    requires 0.0 <= a < TOP && 10.0 * p <= 1.0
    ensures a * p < LOW
  {
    var z := a * p;
    assert 10.0 * z <= a by {
      Times(10.0 * p, 1.0, a);
      TenTimes(a, p);
    }
    assert z <= a / 10.0;
  }

  lemma RoundToWhole(x: real, p: positive, n: int)
    requires x * p == n as real
    ensures RoundTo(x, p) == x
  {
    NearestInt(n);
    assert n as real / p == x;
  }

  /** Scaled to 28 digits before the point, a number that has no more than those is whole. */
  lemma ScaledIsWhole(c: nat, e: int, k: int) returns (n: int)
    requires c as real < TOP
    requires LOW <= c as real * Pow10(e) * Pow10(k)
    ensures c as real * Pow10(e) * Pow10(k) == n as real
  {
    Shift(c as real, e, k);
    if e + k < 0 {
      PowMonotone(e + k + 1, 0);
      PowStep(e + k);
      Tenth(c as real, Pow10(e + k));
      assert false;
    } else {
      var m := PowWhole(e + k);
      n := c * m;
    }
  }

  lemma ExactPositive(x: positive, c: nat, e: int)
    requires c as real < TOP && x == c as real * Pow10(e)
    ensures Round28(x) == x
  {
    var n := ScaledIsWhole(c, e, Scale(x));
    RoundToWhole(x, ScaleOf(x), n);
  }

  lemma PositiveCoefficient(x: positive, c: int, p: positive)
    requires x == c as real * p
    ensures c > 0
  {
    if c <= 0 { Times(c as real, 0.0, p); }
  }

  lemma ExactNegative(x: real, c: int, e: int)
    requires x < 0.0 && Is28Digits(x, c, e)
    ensures Round28(x) == x
  {
    Negated(c as real, Pow10(e));
    PositiveCoefficient(-x, -c, Pow10(e));
    ExactPositive(-x, -c, e);
    Round28Odd(x);
  }

  /** A number of at most 28 digits is not changed. */
  lemma Round28Exact(x: real)
    requires Has28Digits(x)
    ensures Round28(x) == x
  {
    var c, e :| Is28Digits(x, c, e);
    if x > 0.0 {
      PositiveCoefficient(x, c, Pow10(e));
      ExactPositive(x, c, e);
    } else if x < 0.0 {
      ExactNegative(x, c, e);
    }
  }

  lemma Negated(x: real, y: real)
    ensures (-x) * y == -(x * y)
  {
  }

  /** Multiplying by 1000 loses no digit. */
  lemma ThousandfoldExact(x: real)
    requires Has28Digits(x)
    ensures Round28(x * 1000.0) == x * 1000.0
  {
    var c, e :| Is28Digits(x, c, e);
    ThousandfoldHas28Digits(x, c, e);
    Round28Exact(x * 1000.0);
  }

  lemma ThousandfoldHas28Digits(x: real, c: int, e: int)
    requires Is28Digits(x, c, e)
    ensures Is28Digits(x * 1000.0, c, e + 3)
  {
    PowThousand(e);
    Thousandfold(x, c as real, Pow10(e), Pow10(e + 3));
  }

  lemma PowThousand(e: int)
    ensures Pow10(e + 3) == 1000.0 * Pow10(e)
  {
    PowStep(e);
    PowStep(e + 1);
    PowStep(e + 2);
  }

  lemma Thousandfold(x: real, c: real, p: real, q: real)
    requires x == c * p && q == 1000.0 * p
    ensures x * 1000.0 == c * q
  {
  }

  lemma PowSix()
    ensures Pow10(6) == 1_000_000.0
  {
    PowStep(0);
    PowStep(1);
    PowStep(2);
    PowStep(3);
    PowStep(4);
    PowStep(5);
  }

  lemma RoundToNear(x: real, p: positive)
    ensures Abs(RoundTo(x, p) - x) * p <= 0.5
  {
    var n := Nearest(x * p) as real;
    NearestBound(x * p);
    assert (n / p - x) * p == n - x * p;
    if n / p < x { assert (x - n / p) * p == x * p - n; }
  }

  /** How a rounded number stands to the grid of millionths: on it with at least 29 digits, on it
      with 28, or on a finer one. */
  datatype Grid = TooLarge | OnGrid | Finer

  ghost predicate Stands(grid: Grid, z: real, w: real) {
    match grid
    case TooLarge => TOP <= z && TOP <= w
    case OnGrid => LOW <= z < TOP && w == Nearest(z) as real
    case Finer => 0.0 < z < LOW && 0.0 < w <= LOW && Abs(w - z) <= 0.05
  }

  lemma StandsAt(x: positive, p: positive, r: real) returns (grid: Grid)
    requires Rounds(x, p, r)
    requires p == 1_000_000.0 || 10.0 * p <= 1_000_000.0 || 10_000_000.0 <= p
    ensures Stands(grid, x * 1_000_000.0, r * 1_000_000.0)
  {
    if p == 1_000_000.0 {
      grid := OnGrid;
    } else if p < 1_000_000.0 {
      grid := TooLarge;
      TooLargeGrid(x, p, r);
    } else {
      grid := Finer;
      RoundToFits(x, p);
      RoundToNear(x, p);
      FinerGrid(x, p, r);
    }
  }

  lemma TooLargeGrid(x: positive, p: positive, r: real)
    requires Rounds(x, p, r) && 10.0 * p <= 1_000_000.0
    ensures Stands(TooLarge, x * 1_000_000.0, r * 1_000_000.0)
  {
    RoundToFits(x, p);
    ScaleClash(x, x, p, 1_000_000.0);
    Scaled(LOW, r, p, 1_000_000.0);
  }

  lemma Scaled(c: real, r: real, p: positive, q: positive)
    requires 0.0 < c && c / p <= r && 10.0 * p <= q
    ensures 10.0 * c <= r * q
  {
    var y := c / p;
    assert y * p == c;
    Times(y, r, q);
    Times(10.0 * p, q, y);
    TenTimes(y, p);
  }

  lemma FinerGrid(x: positive, p: positive, r: real)
    requires Rounds(x, p, r) && 10_000_000.0 <= p
    requires LOW / p <= r <= TOP / p && Abs(r - x) * p <= 0.5
    ensures Stands(Finer, x * 1_000_000.0, r * 1_000_000.0)
  {
    Times(10_000_000.0, p, x);
    var d := Abs(r - x);
    Times(10_000_000.0, p, d);
    Divided(1.0, LOW, p);
    var t := TOP / p;
    assert t * p == TOP;
    Times(10_000_000.0, p, t);
  }

  lemma Grids(x: positive) returns (grid: Grid)
    ensures Stands(grid, x / MICRO, Round28(x) / MICRO)
  {
    Rounded(x);
    PowSix();
    var k := Scale(x);
    if k < 6 { ScalesApart(6, k); } else if k > 6 { ScalesApart(k, 6); }
    grid := StandsAt(x, ScaleOf(x), Round28(x));
  }

  // ---- the current ----

  lemma QuantizeOdd(x: real)
    ensures Quantize(-x) == Opposite(Quantize(x))
  {
    assert -x / MICRO == -(x / MICRO);
    NearestOdd(x / MICRO);
    var m := Nearest(x / MICRO);
    assert -m as real * MICRO == -(m as real * MICRO);
  }

  function Opposite(r: Option<real>): Option<real> {
    if r.Some? then Some(-r.value) else None
  }

  lemma QuotientOdd(m: real, v: real)
    requires v != 0.0
    ensures -m / v == -(m / v) && m / -v == -(m / v)
  {
  }

  /** Charging and discharging, and either polarity of the voltage, are mirror images. */
  lemma CurrentOdd(power: real, voltage: real)
    ensures Current(-power, voltage) == Opposite(Current(power, voltage))
    ensures Current(power, -voltage) == Opposite(Current(power, voltage))
  {
    if voltage != 0.0 {
      var m := Round28(power * 1000.0);
      Negated(power, 1000.0);
      Round28Odd(power * 1000.0);
      QuotientOdd(m, voltage);
      Round28Odd(m / voltage);
      QuantizeOdd(Round28(m / voltage));
    }
  }

  /** More power is never less current. */
  lemma CurrentMonotone(p: real, q: real, voltage: real)
    requires p <= q && 0.0 < voltage
    requires Current(p, voltage).Some? && Current(q, voltage).Some?
    ensures Current(p, voltage).value <= Current(q, voltage).value
  {
    Round28Monotone(p * 1000.0, q * 1000.0);
    var m, n := Round28(p * 1000.0), Round28(q * 1000.0);
    Divided(m, n, voltage);
    Round28Monotone(m / voltage, n / voltage);
    var x, y := Round28(m / voltage), Round28(n / voltage);
    Divided(x, y, MICRO);
    NearestMonotone(x / MICRO, y / MICRO);
  }

  lemma Mirrored(x: real)
    ensures (-x) / MICRO == -(x / MICRO) && Round28(-x) / MICRO == -(Round28(x) / MICRO)
  {
    Round28Odd(x);
  }

  lemma TrapsPositive(x: positive)
    ensures Quantize(Round28(x)).None? <==> TOP - 0.5 <= x / MICRO
  {
    var grid := Grids(x);
    var z, w := x / MICRO, Round28(x) / MICRO;
    assert TOP.Floor as real == TOP && TOP.Floor % 2 == 0;
    match grid
    case TooLarge => NearestMonotone(TOP, w);
    case OnGrid => NearestInt(Nearest(z)); ReachesTop(z);
    case Finer => NearestMonotone(w, LOW); NearestMonotone(0.0, w);
  }

  lemma ReachesTop(z: real)
    requires LOW <= z < TOP
    ensures Nearest(z) as real >= TOP <==> TOP - 0.5 <= z
  {
  }

  /** The quantization traps exactly when the quotient is within half a millionth of 10^22 A, or
      beyond. */
  lemma TrapsExactly(power: real, voltage: real)
    ensures Current(power, voltage).None?
      <==> voltage != 0.0 && TOP - 0.5 <= Abs(Round28(power * 1000.0) / voltage / MICRO)
    ensures Has28Digits(power) ==> Round28(power * 1000.0) == power * 1000.0
  {
    if Has28Digits(power) { ThousandfoldExact(power); }
    if voltage != 0.0 {
      var x := Round28(power * 1000.0) / voltage;
      if x > 0.0 {
        TrapsPositive(x);
      } else if x < 0.0 {
        Mirrored(x);
        Round28Odd(x);
        QuantizeOdd(Round28(x));
        TrapsPositive(-x);
      }
    }
  }

  ghost predicate Near(x: real) {
    var z, w := x / MICRO, Round28(x) / MICRO;
    || w == Nearest(z) as real
    || (Abs(w - z) <= 0.05 && Abs(z) < LOW && Abs(w) <= LOW)
  }

  lemma NearPositive(x: positive)
    requires Quantize(Round28(x)).Some?
    ensures Near(x)
  {
    var grid := Grids(x);
    var z, w := x / MICRO, Round28(x) / MICRO;
    TrapsPositive(x);
    if grid.TooLarge? { assert false; }
  }

  lemma NearMirrored(x: real)
    requires Near(-x)
    ensures Near(x)
  {
    Mirrored(x);
    NearestOdd(x / MICRO);
  }

  lemma AlwaysNear(x: real)
    requires Quantize(Round28(x)).Some?
    ensures Near(x)
  {
    if x > 0.0 {
      NearPositive(x);
    } else if x < 0.0 {
      Round28Odd(x);
      QuantizeOdd(Round28(x));
      NearPositive(-x);
      NearMirrored(x);
    } else {
      NearestInt(0);
    }
  }

  /** `|I V - W| <= 0.55e-6 |V|`: amperes times volts give the watts up to the quantization. */
  predicate Balances(current: real, voltage: real, watts: real) {
    Abs(current * voltage - watts) <= 0.55 * MICRO * Abs(voltage)
  }

  /** The two roundings together are off by little more than half a millionth of an ampere. */
  lemma CurrentNear(power: real, voltage: real)
    requires voltage != 0.0 && Current(power, voltage).Some?
    ensures Balances(Current(power, voltage).value, voltage, Round28(power * 1000.0))
    ensures Has28Digits(power) ==> Balances(Current(power, voltage).value, voltage, power * 1000.0)
  {
    var m := Round28(power * 1000.0);
    var x := m / voltage;
    QuotientNear(x);
    Spread(Quantize(Round28(x)).value, x, m, voltage);
    if Has28Digits(power) { ThousandfoldExact(power); }
  }

  lemma QuotientNear(x: real)
    requires Quantize(Round28(x)).Some?
    ensures Abs(Quantize(Round28(x)).value - x) <= 0.55 * MICRO
  {
    AlwaysNear(x);
    var z, w := x / MICRO, Round28(x) / MICRO;
    NearestBound(z);
    NearestBound(w);
    NearestInt(Nearest(z));
    assert Abs(Nearest(w) as real - z) <= 0.55;
  }

  lemma Spread(i: real, x: real, m: real, v: real)
    requires v != 0.0 && x == m / v && Abs(i - x) <= 0.55 * MICRO
    ensures Balances(i, v, m)
  {
    var d, b := i - x, 0.55 * MICRO;
    assert x * v == m;
    Distribute(x, d, v);
    assert x + d == i;
    SpreadBy(d, v, b);
    BalancesIf(i, v, m, d * v);
  }

  lemma SpreadBy(d: real, v: real, b: real)
    requires Abs(d) <= b
    ensures Abs(d * v) <= b * Abs(v)
  {
    AbsProduct(d, v);
    Times(Abs(d), b, Abs(v));
  }

  lemma BalancesIf(i: real, v: real, m: real, e: real)
    requires i * v == m + e && Abs(e) <= 0.55 * MICRO * Abs(v)
    ensures Balances(i, v, m)
  {
  }

  lemma Distribute(x: real, d: real, v: real)
    requires v != 0.0
    ensures (x + d) * v == x * v + d * v
  {
  }

  lemma AbsProduct(a: real, b: real)
    ensures Abs(a * b) == Abs(a) * Abs(b)
  {
    if a < 0.0 && b < 0.0 { assert a * b == -a * -b; }
    else if a < 0.0 { Negated(-a, b); }
    else if b < 0.0 { Negated(-b, a); }
  }

  /** Midway between two integers. */
  predicate Tie(w: real) {
    w - w.Floor as real == 0.5
  }

  /** The current in millionths of an ampere. */
  ghost function Millionths(x: real): int {
    Nearest(Round28(x) / MICRO)
  }

  /** Rounding twice differs from rounding once exactly when the 28-digit quotient is a tie that
      the true quotient is not, and the tie is broken away from the true quotient. */
  lemma TieDecides(x: real)
    requires Quantize(Round28(x)).Some?
    ensures var z, w := x / MICRO, Round28(x) / MICRO;
            Millionths(x) != Nearest(z) <==> Tie(w) && TowardOdd(w, z)
  {
    var z, w := x / MICRO, Round28(x) / MICRO;
    AlwaysNear(x);
    NearestInt(Nearest(z));
    if !Tie(w) && Nearest(w) != Nearest(z) {
      var n := if Nearest(z) < Nearest(w) then Nearest(z) else Nearest(w);
      NearestLow(z);
      NearestLow(w);
      TieIsKept(n);
      var t := n as real + 0.5;
      if z <= t { Round28Monotone(x, t * MICRO); } else { Round28Monotone(t * MICRO, x); }
    }
  }

  /** `z` lies on the side of `w` to whose odd integer `w`, if it is midway, is not rounded. */
  predicate TowardOdd(w: real, z: real) {
    if w.Floor % 2 == 0 then w < z else z < w
  }

  /** How many decimals of a millionth rounding to 28 digits leaves. */
  ghost function Decimals(x: real): int {
    if x == 0.0 then 0 else Scale(Abs(x)) - 6
  }

  /** `z` is so close to a midpoint between two integers that rounding to `j` decimals takes it
      there, from the side of the odd integer. (With one decimal the midpoint ends in an odd
      digit, 5, so that a distance of half a step is not close enough.) */
  predicate Misrounds(z: real, j: int) {
    var n := z.Floor;
    var distance := z - n as real - 0.5;
    && j > 0
    && (if n % 2 == 0 then distance > 0.0 else distance < 0.0)
    && Abs(distance) * Pow10(j) <= 0.5
    && (j == 1 ==> Abs(distance) * Pow10(j) < 0.5)
  }

  lemma NearestIs(y: real, n: int)
    ensures Nearest(y) == n <==>
            Abs(y - n as real) < 0.5 || (Abs(y - n as real) == 0.5 && n % 2 == 0)
  {
  }

  /** The 28-digit quotient in millionths, as a rounding to whole multiples of 10^-j. */
  lemma OnItsGrid(x: real)
    requires x != 0.0
    ensures Round28(x) / MICRO == RoundTo(x / MICRO, Pow10(Decimals(x)))
  {
    var j := Decimals(x);
    PowSix();
    PowAdd(j, 6);
    SameGrid(x, Pow10(j), Pow10(j + 6));
  }

  lemma QuotientIs(a: real, b: real, c: positive)
    requires b * c == a
    ensures a / c == b
  {
  }

  lemma Million(x: real, g: positive)
    ensures x * 1_000_000.0 * g == x * (g * 1_000_000.0)
  {
  }

  lemma SameGrid(x: real, g: positive, p: positive)
    requires p == g * 1_000_000.0
    ensures RoundTo(x, p) / MICRO == RoundTo(x / MICRO, g)
  {
    var n := Nearest(x * p);
    GridArguments(x, g, p);
    RoundToIs(x, p, n);
    RoundToIs(x / MICRO, g, n);
    GridQuotients(n as real, g, p);
  }

  lemma RoundToIs(x: real, p: positive, n: int)
    requires Nearest(x * p) == n
    ensures RoundTo(x, p) == n as real / p
  {
  }

  lemma GridArguments(x: real, g: positive, p: positive)
    requires p == g * 1_000_000.0
    ensures x / MICRO * g == x * p
  {
    Million(x, g);
    assert x / MICRO == x * 1_000_000.0;
  }

  lemma GridQuotients(n: real, g: positive, p: positive)
    requires p == g * 1_000_000.0
    ensures n / p / MICRO == n / g
  {
    var q := n / p;
    assert q * p == n;
    Million(q, g);
    QuotientIs(n, q * 1_000_000.0, g);
    assert q / MICRO == q * 1_000_000.0;
  }

  /** Ten to a positive power as an integer, with the half of it. */
  lemma PowHalf(j: int) returns (h: int)
    requires j > 0
    ensures h > 0 && Pow10(j) == 10.0 * h as real
    ensures h % 2 == 0 <==> j > 1
  {
    h := PowParity(j - 1);
    PowStep(j - 1);
  }

  lemma {:induction false} PowParity(k: nat) returns (n: int)
    ensures n > 0 && Pow10(k) == n as real
    ensures n % 2 == 0 <==> k > 0
  {
    if k == 0 {
      n := 1;
    } else {
      var m := PowParity(k - 1);
      PowStep(k - 1);
      n := 10 * m;
    }
  }

  lemma OddGrid(n: int, h: int)
    ensures (10 * (n * h) + 5 * h) % 2 == h % 2
  {
    OddTerm(n * h, h);
  }

  lemma OddTerm(m: int, h: int)
    ensures (10 * m + 5 * h) % 2 == h % 2
  {
    assert 10 * m + 5 * h == 2 * (5 * m + 2 * h) + h;
  }

  /** The midpoint after `n` on a grid of steps of a tenth of `1 / h`. */
  lemma MidpointOnGrid(z: real, n: int, h: int, g: positive)
    requires h > 0 && g == 10.0 * h as real
    ensures var t := 10 * (n * h) + 5 * h;
            && t as real == (n as real + 0.5) * g
            && z * g - t as real == (z - n as real - 0.5) * g
            && t as real / g == n as real + 0.5
  {
    assert (n * h) as real == n as real * h as real;
    var m := n as real + 0.5;
    assert m * g == n as real * g + 0.5 * g;
    assert (z - m) * g == z * g - m * g;
    assert m * g / g == m;
  }

  /** Rounding on the grid gives the midpoint after `n` exactly when `z` is close enough. */
  lemma RoundsToMidpoint(z: real, n: int, h: int, g: positive)
    requires h > 0 && g == 10.0 * h as real
    ensures RoundTo(z, g) == n as real + 0.5 <==>
            var far := Abs((z - n as real - 0.5) * g);
            far < 0.5 || (far == 0.5 && h % 2 == 0)
  {
    var t := 10 * (n * h) + 5 * h;
    var c := Nearest(z * g);
    MidpointOnGrid(z, n, h, g);
    OddGrid(n, h);
    NearestIs(z * g, t);
    RoundToIs(z, g, c);
    SameQuotient(c as real, t as real, g);
  }

  lemma SameQuotient(a: real, b: real, g: positive)
    ensures a / g == b / g <==> a == b
  {
    var q, r := a / g, b / g;
    assert q * g == a && r * g == b;
  }

  lemma CloseOnGrid(z: real, g: positive)
    requires g >= 10.0
    ensures Abs(RoundTo(z, g) - z) <= 0.05
  {
    RoundToNear(z, g);
    Times(10.0, g, Abs(RoundTo(z, g) - z));
  }

  lemma FloorOf(w: real, n: int)
    requires n as real <= w < n as real + 1.0
    ensures w.Floor == n
  {
  }

  predicate Close(distance: real, g: real, j: int) {
    Abs(distance) * g < 0.5 || (Abs(distance) * g == 0.5 && j != 1)
  }

  lemma AtMidpoint(z: real, j: int)
    requires j > 0
    ensures var n := z.Floor;
            RoundTo(z, Pow10(j)) == n as real + 0.5 <==> Close(z - n as real - 0.5, Pow10(j), j)
  {
    var h := PowHalf(j);
    AtMidpointOn(z, z.Floor, h, Pow10(j), j);
  }

  lemma AtMidpointOn(z: real, n: int, h: int, g: positive, j: int)
    requires j > 0 && h > 0 && g == 10.0 * h as real && (h % 2 == 0 <==> j > 1)
    ensures RoundTo(z, g) == n as real + 0.5 <==> Close(z - n as real - 0.5, g, j)
  {
    RoundsToMidpoint(z, n, h, g);
    CloseIs(z - n as real - 0.5, g, j);
  }

  lemma CloseIs(distance: real, g: positive, j: int)
    requires j > 0
    ensures Close(distance, g, j) <==>
            Abs(distance * g) < 0.5 || (Abs(distance * g) == 0.5 && j > 1)
  {
    AbsScaled(distance, g);
    CloseBy(distance, g, j, Abs(distance * g));
  }

  lemma AbsScaled(a: real, g: positive)
    ensures Abs(a * g) == Abs(a) * g
  {
    if a < 0.0 { Negated(-a, g); }
  }

  lemma CloseBy(distance: real, g: positive, j: int, far: real)
    requires far == Abs(distance) * g
    ensures Close(distance, g, j) <==> far < 0.5 || (far == 0.5 && j != 1)
  {
  }

  /** Near `z` there is one midpoint at most. */
  lemma OneMidpoint(z: real, w: real)
    requires Abs(w - z) <= 0.05
    ensures Tie(w) && TowardOdd(w, z) <==>
            && w == z.Floor as real + 0.5
            && (if z.Floor % 2 == 0 then z > w else z < w)
  {
    if Tie(w) {
      FloorOf(z, w.Floor);
    }
    if w == z.Floor as real + 0.5 {
      FloorOf(w, z.Floor);
    }
  }

  /** A grid point midway between two integers, with `z` to its odd side, by `z` alone. */
  lemma MisroundsExactly(z: real, j: int)
    requires j > 0
    ensures var w := RoundTo(z, Pow10(j)); Tie(w) && TowardOdd(w, z) <==> Misrounds(z, j)
  {
    PowMonotone(1, j);
    PowStep(0);
    CloseOnGrid(z, Pow10(j));
    AtMidpoint(z, j);
    OneMidpoint(z, RoundTo(z, Pow10(j)));
  }

  lemma WholeIsNoTie(w: real, n: int)
    requires w == n as real
    ensures !Tie(w)
  {
  }

  lemma Inverse(c: real, p: real, q: positive)
    requires p * q == 1.0
    ensures c / q == c * p
  {
    Assoc(c, p, q);
    QuotientIs(c, c * p, q);
  }

  lemma CoarseGridIsNoTie(z: real, j: int)
    requires j <= 0
    ensures !Tie(RoundTo(z, Pow10(j)))
  {
    var n := PowWhole(-j);
    PowAdd(-j, j);
    WholeGridIsNoTie(z, Pow10(j), n);
  }

  lemma WholeGridIsNoTie(z: real, g: positive, n: nat)
    requires n as real * g == 1.0
    ensures !Tie(RoundTo(z, g))
  {
    var c := Nearest(z * g);
    RoundToIs(z, g, c);
    WholeQuotient(RoundTo(z, g), c, g, n);
  }

  lemma WholeQuotient(w: real, c: int, g: positive, n: nat)
    requires w == c as real / g && n as real * g == 1.0
    ensures !Tie(w)
  {
    Inverse(c as real, n as real, g);
    WholeProduct(c, n);
    WholeIsNoTie(w, c * n);
  }

  lemma WholeProduct(c: int, n: int)
    ensures c as real * n as real == (c * n) as real
  {
  }

  /** Rounding the product over the voltage to 28 digits and then to millionths is not rounding it
      once exactly when it lies next to a midpoint of millionths, on the side of the odd one, within
      half a step of the 28-digit grid. For a power of at most 28 digits the product is exact. */
  lemma RoundedOnceExactly(power: real, voltage: real)
    requires voltage != 0.0 && Current(power, voltage).Some?
    ensures var x := Round28(power * 1000.0) / voltage;
            Current(power, voltage) != Some(Nearest(x / MICRO) as real * MICRO) <==> Misrounds(x / MICRO, Decimals(x))
    ensures Has28Digits(power) ==> Round28(power * 1000.0) == power * 1000.0
  {
    var x := Round28(power * 1000.0) / voltage;
    TieDecides(x);
    if x != 0.0 {
      OnItsGrid(x);
      if Decimals(x) > 0 {
        MisroundsExactly(x / MICRO, Decimals(x));
      } else {
        CoarseGridIsNoTie(x / MICRO, Decimals(x));
      }
    }
    SameMillionths(Millionths(x), Nearest(x / MICRO));
    if Has28Digits(power) { ThousandfoldExact(power); }
  }

  lemma SameMillionths(m: int, n: int)
    ensures m as real * MICRO == n as real * MICRO <==> m == n
  {
  }

  lemma NearestLow(z: real)
    requires Abs(z) <= LOW
    ensures Abs(Nearest(z) as real) <= LOW
  {
    NearestMonotone(-LOW, z);
    NearestMonotone(z, LOW);
  }

  lemma TieIsKept(n: int)
    requires -LOW <= n as real < LOW
    ensures var t := (n as real + 0.5) * MICRO; Round28(t) == t
  {
    PowSix();
    PowAdd(6, -6);
    PowStep(-7);
    assert Is28Digits((n as real + 0.5) * MICRO, 10 * n + 5, -7);
    Round28Exact((n as real + 0.5) * MICRO);
  }

  // ---- a current that is not rounded once ----

  lemma SmallPowers()
    ensures Pow10(3) == 1000.0 && Pow10(6) == 1_000_000.0 && Pow10(4) == 10_000.0
  {
    PowSix();
    PowStep(0);
    PowStep(1);
    PowStep(2);
    PowStep(3);
  }

  lemma LargePowers()
    ensures Pow10(27) == LOW && Pow10(33) == LOW * 1_000_000.0
  {
    SmallPowers();
    PowAdd(6, 6);
    PowAdd(12, 12);
    PowAdd(24, 3);
    PowAdd(27, 6);
  }

  lemma SmallestPower()
    ensures Pow10(-10) == 0.000_000_000_1
  {
    SmallPowers();
    PowAdd(6, 4);
    PowAdd(10, -10);
  }

  const WITNESS_POWER: real := 750_000_000_000_000_000.000_000_000_1
  const WITNESS_VOLTAGE: real := 300_000_000_000_000_000_000_000_000.0

  lemma WitnessHas28Digits()
    ensures Has28Digits(WITNESS_POWER)
  {
    SmallestPower();
    assert Is28Digits(WITNESS_POWER, 7_500_000_000_000_000_000_000_000_001, -10);
  }

  lemma WitnessQuotient(x: positive, z: real)
    requires x == WITNESS_POWER * 1000.0 / WITNESS_VOLTAGE && z == x / MICRO
    ensures 2.5 < z < 2.500_000_000_000_000_000_000_000_000_5
    ensures Decimals(x) == 27 && z.Floor == 2
  {
    LargePowers();
    ScaleIs(x, 33);
  }

  lemma WitnessMisrounds(z: real)
    requires 2.5 < z < 2.500_000_000_000_000_000_000_000_000_5 && z.Floor == 2
    ensures Misrounds(z, 27) && Nearest(z) == 3
  {
    LargePowers();
    Times(z - 2.5, 0.000_000_000_000_000_000_000_000_000_5, LOW);
  }

  /** 750000000000000000.0000000001 kW, a number of 28 digits, at 3 * 10^26 V: the quotient in
      millionths of an ampere is a little more than 2.5, the 28-digit quotient is 2.5, and the
      current served is 0.000002 A instead of 0.000003 A. */
  lemma RoundingTwiceCounts()
    ensures Has28Digits(WITNESS_POWER)
    ensures Current(WITNESS_POWER, WITNESS_VOLTAGE) == Some(0.000002)
    ensures Nearest(WITNESS_POWER * 1000.0 / WITNESS_VOLTAGE / MICRO) == 3
  {
    var x := WITNESS_POWER * 1000.0 / WITNESS_VOLTAGE;
    WitnessHas28Digits();
    ThousandfoldExact(WITNESS_POWER);
    WitnessQuotient(x, x / MICRO);
    WitnessMisrounds(x / MICRO);
    TrapsExactly(WITNESS_POWER, WITNESS_VOLTAGE);
    RoundedOnceExactly(WITNESS_POWER, WITNESS_VOLTAGE);
    QuotientNear(x);
    BetweenTwoAndThree(Millionths(x), x / MICRO, x);
  }

  lemma BetweenTwoAndThree(m: int, z: real, x: real)
    requires 2.5 < z < 2.6 && x == z * MICRO && m != 3
    requires Abs(m as real * MICRO - x) <= 0.55 * MICRO
    ensures m == 2
  {
  }
}
