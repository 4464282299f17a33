/** Rounding to nearest, ties to even, into a binary floating-point format with gradual underflow
    (IEEE 754-2019, sections 3.4 and 4.3.1).

    A format is given by its hidden bit `h` (2^23 for binary32, 2^52 for binary64). Magnitudes are
    counted in units of the smallest subnormal, and the non-negative finite numbers of the format
    are listed in increasing order by their bit pattern `b` (exponent field above fraction field).
    The quantity to round is the non-negative rational `m / d`, so every statement here covers
    every rational number and not only those of some wider format. */
module Rounding {

  type pos = n: nat | 0 < n witness 1

  function Pow2(k: nat): pos {
    if k == 0 then 1 else 2 * Pow2(k - 1)
  }

  function Abs(x: int): nat {
    if x < 0 then -x else x
  }

  /** `m / d` to the nearest integer, the even one of two equally near. */
  function HalfEven(m: nat, d: pos): nat {
    var q := m / d;
    var r := m % d;
    if 2 * r < d || (2 * r == d && q % 2 == 0) then q else q + 1
  }

  /** The number a bit pattern stands for: subnormal numbers and those of the first exponent step
      are the pattern itself, and each further exponent step (`h` patterns on) doubles.
      `MagnitudeFormula` gives the closed form. */
  function Magnitude(h: pos, b: nat): nat {
    if b < 2 * h then b else 2 * Magnitude(h, b - h)
  }

  /** The pattern `m / d` rounds to when the exponent range is unbounded above: units are doubled
      until the significand fits, then it is rounded to an integer. A carry out of the significand
      runs into the exponent field by itself. */
  function Round(h: pos, m: nat, d: pos): nat
    decreases if m > d then m - d else 0
  {
    if m < 2 * h * d then HalfEven(m, d)
    else
      Grows(h, d);
      h + Round(h, m, 2 * d)
  }

  lemma Grows(h: pos, d: pos)
    ensures 2 * h * d >= 2 * d
  {
    assert h * d >= d;
  }

  // ---- magnitudes ----

  lemma Times(a: nat, b: nat, c: nat)
    requires a <= b
    ensures a * c <= b * c
  {
    var k := b - a;
    assert k * c >= 0;
    assert b * c == a * c + k * c;
  }

  lemma Division(h: pos, q: nat, r: nat, b: nat)
    requires b == q * h + r && r < h
    ensures b / h == q && b % h == r
  {
    var q', r' := b / h, b % h;
    assert b == q' * h + r';
    if q' < q {
      Times(q' + 1, q, h);
    } else if q < q' {
      Times(q + 1, q', h);
    }
  }

  /** Exponent field `b / h`, fraction field `b % h`: subnormal when the exponent field is 0, and
      otherwise the fraction with the hidden bit put back, shifted by the exponent. */
  lemma {:induction false} MagnitudeFormula(h: pos, b: nat)
    ensures Magnitude(h, b) == if b / h == 0 then b % h else (h + b % h) * Pow2(b / h - 1)
  {
    var q, r := b / h, b % h;
    assert b == q * h + r;
    if b < h {
      Division(h, 0, b, b);
    } else if b < 2 * h {
      Division(h, 1, b - h, b);
    } else {
      if q < 2 { Times(q, 1, h); }
      Division(h, q - 1, r, b - h);
      MagnitudeFormula(h, b - h);
      DoublePower(h + r, q - 1);
    }
  }

  lemma DoublePower(n: nat, k: nat)
    requires 0 < k
    ensures n * Pow2(k) == 2 * (n * Pow2(k - 1))
  {
    var p := Pow2(k - 1);
    assert Pow2(k) == 2 * p;
    assert n * (2 * p) == 2 * (n * p);
  }

  /** Bit patterns are listed in increasing order of what they stand for. */
  lemma {:induction false} MagnitudeIncreasing(h: pos, a: nat, b: nat)
    requires a < b
    ensures Magnitude(h, a) < Magnitude(h, b)
    decreases b
  {
    if 2 * h <= a {
      MagnitudeIncreasing(h, a - h, b - h);
    } else if 2 * h < b {
      MagnitudeIncreasing(h, h, b - h);
    }
  }

  /** How far the number with pattern `b` is from `m / d`, in units of `1 / d`. */
  function Distance(h: pos, b: nat, m: nat, d: pos): nat {
    Abs(Magnitude(h, b) * d - m)
  }

  // ---- integers ----

  lemma Multiples(n: nat, q: nat, d: pos)
    ensures n <= q ==> n * d <= q * d
    ensures n < q ==> n * d + d <= q * d
  {
    if n < q {
      Times(n + 1, q, d);
    }
  }

  /** No integer is nearer, and one that is as near loses to an even winner. */
  lemma HalfEvenNearest(m: nat, d: pos, n: nat)
    ensures Abs(HalfEven(m, d) * d - m) <= Abs(n * d - m)
    ensures Abs(HalfEven(m, d) * d - m) == Abs(n * d - m) && n != HalfEven(m, d) ==> HalfEven(m, d) % 2 == 0
  {
    var q, r := m / d, m % d;
    assert m == q * d + r;
    assert (q + 1) * d == q * d + d;
    Multiples(n, q, d);
    Multiples(q + 1, n, d);
  }

  lemma HalfEvenBound(h: pos, m: nat, d: pos)
    requires m < 2 * h * d
    ensures HalfEven(m, d) <= 2 * h
    ensures m >= h * d ==> HalfEven(m, d) >= h
  {
    var q, r := m / d, m % d;
    assert m == q * d + r;
    if q >= 2 * h { Multiples(2 * h, q, d); }
    if m >= h * d && q < h { Multiples(q, h, d); }
  }

  // ---- the rounding function ----

  lemma {:induction false} RoundAtLeastHidden(h: pos, m: nat, d: pos)
    requires m >= h * d
    ensures Round(h, m, d) >= h
  {
    if m < 2 * h * d {
      HalfEvenBound(h, m, d);
    }
  }

  lemma SmallExact(h: pos, b: nat, d: pos)
    requires b < 2 * h
    ensures Round(h, b * d, d) == b
  {
    Multiples(b, 2 * h, d);
    Division(d, b, 0, b * d);
  }

  lemma Doubled(n: nat, d: nat)
    ensures (2 * n) * d == n * (2 * d)
  {
  }

  /** The number with pattern `b`, when it is not among the first, as a multiple of `d`. */
  lemma LargeMultiple(h: pos, b: nat, d: pos)
    requires 2 * h <= b
    ensures 2 * h * d <= Magnitude(h, b) * d
    ensures Magnitude(h, b) * d == Magnitude(h, b - h) * (2 * d)
  {
    if 2 * h < b { MagnitudeIncreasing(h, 2 * h, b); }
    Multiples(2 * h, Magnitude(h, b), d);
    Doubled(Magnitude(h, b - h), d);
  }

  /** A number of the format rounds to itself. */
  lemma {:induction false} RoundExact(h: pos, b: nat, d: pos)
    ensures Round(h, Magnitude(h, b) * d, d) == b
    decreases b
  {
    if b < 2 * h {
      SmallExact(h, b, d);
    } else {
      LargeMultiple(h, b, d);
      RoundUnfolds(h, Magnitude(h, b) * d, d);
      RoundExact(h, b - h, 2 * d);
    }
  }

  lemma DistanceStep(h: pos, b: nat, m: nat, d: pos)
    requires 2 * h <= b
    ensures Distance(h, b, m, d) == Distance(h, b - h, m, 2 * d)
  {
    var n := Magnitude(h, b - h);
    assert (2 * n) * d == n * (2 * d);
  }

  /** Above `m / d`, and below it, smaller patterns are nearer and farther respectively. */
  lemma DistanceOrder(h: pos, a: nat, b: nat, m: nat, d: pos)
    requires a < b
    ensures m <= Magnitude(h, a) * d ==> Distance(h, a, m, d) < Distance(h, b, m, d)
    ensures Magnitude(h, b) * d <= m ==> Distance(h, b, m, d) < Distance(h, a, m, d)
  {
    MagnitudeIncreasing(h, a, b);
    Multiples(Magnitude(h, a), Magnitude(h, b), d);
  }

  lemma DistanceLow(h: pos, b: nat, m: nat, d: pos)
    requires b <= 2 * h
    ensures Distance(h, b, m, d) == Abs(b * d - m)
  {
    assert Magnitude(h, b) == b;
  }

  lemma RoundNearestLow(h: pos, m: nat, d: pos, b: nat)
    requires m < 2 * h * d
    ensures Beats(h, HalfEven(m, d), b, m, d)
  {
    var r, top := HalfEven(m, d), 2 * h;
    assert r <= top by { HalfEvenBound(h, m, d); }
    DistanceLow(h, r, m, d);
    if b <= top {
      HalfEvenNearest(m, d, b);
      DistanceLow(h, b, m, d);
    } else {
      HalfEvenNearest(m, d, top);
      DistanceLow(h, top, m, d);
      assert Distance(h, top, m, d) < Distance(h, b, m, d) by { TopIsNearer(h, b, m, d); }
    }
  }

  lemma TopIsNearer(h: pos, b: nat, m: nat, d: pos)
    requires 2 * h < b && m <= 2 * h * d
    ensures Distance(h, 2 * h, m, d) < Distance(h, b, m, d)
  {
    assert Magnitude(h, 2 * h) == 2 * h;
    DistanceOrder(h, 2 * h, b, m, d);
  }

  lemma BottomIsFarther(h: pos, b: nat, m: nat, d: pos)
    requires b < 2 * h && 2 * h * d <= m
    ensures Distance(h, 2 * h, m, d) < Distance(h, b, m, d)
  {
    assert Magnitude(h, 2 * h) == 2 * h;
    DistanceOrder(h, b, 2 * h, m, d);
  }

  /** `r` is at least as near as `b`, and even when it is merely as near. */
  predicate Beats(h: pos, r: nat, b: nat, m: nat, d: pos) {
    Wins(Distance(h, r, m, d), Distance(h, b, m, d), r, b)
  }

  predicate Wins(near: nat, far: nat, r: nat, b: nat) {
    near <= far && (near == far && r != b ==> r % 2 == 0)
  }

  lemma WinsShifted(near: nat, far: nat, r: nat, b: nat, h: nat)
    requires h % 2 == 0 && h <= b && Wins(near, far, r, b - h)
    ensures Wins(near, far, h + r, b)
  {
  }

  lemma BeatsStep(h: pos, r: nat, b: nat, m: nat, d: pos)
    requires h % 2 == 0 && h <= r && 2 * h * d <= m
    requires if 2 * h <= b then Beats(h, r, b - h, m, 2 * d) else Beats(h, r, h, m, 2 * d)
    ensures Beats(h, h + r, b, m, d)
  {
    if 2 * h <= b {
      DistanceStep(h, h + r, m, d);
      DistanceStep(h, b, m, d);
      WinsShifted(Distance(h, r, m, 2 * d), Distance(h, b - h, m, 2 * d), r, b, h);
    } else {
      BeatsBelow(h, r, b, m, d);
    }
  }

  lemma BeatsBelow(h: pos, r: nat, b: nat, m: nat, d: pos)
    requires h <= r && b < 2 * h && 2 * h * d <= m
    requires Distance(h, r, m, 2 * d) <= Distance(h, h, m, 2 * d)
    ensures Distance(h, h + r, m, d) < Distance(h, b, m, d)
  {
    DistanceStep(h, h + r, m, d);
    DistanceStep(h, 2 * h, m, d);
    BottomIsFarther(h, b, m, d);
  }

  lemma RoundUnfolds(h: pos, m: nat, d: pos)
    requires 2 * h * d <= m
    ensures Round(h, m, d) == h + Round(h, m, 2 * d)
    ensures Round(h, m, 2 * d) >= h
    ensures m > d
  {
    Grows(h, d);
    assert h * (2 * d) == 2 * h * d;
    RoundAtLeastHidden(h, m, 2 * d);
  }

  /** No number of the format is nearer to `m / d`; where another one is as near, the result's
      pattern is even, which is to say its significand is. */
  lemma {:induction false} RoundNearest(h: pos, m: nat, d: pos, b: nat)
    requires h % 2 == 0
    ensures Beats(h, Round(h, m, d), b, m, d)
    decreases if m > d then m - d else 0
  {
    if m < 2 * h * d {
      RoundNearestLow(h, m, d, b);
    } else {
      RoundUnfolds(h, m, d);
      var b' := if 2 * h <= b then b - h else h;
      RoundNearest(h, m, 2 * d, b');
      BeatsStep(h, Round(h, m, 2 * d), b, m, d);
    }
  }

  lemma HalfEvenMonotone(m: nat, n: nat, d: pos)
    requires m <= n
    ensures HalfEven(m, d) <= HalfEven(n, d)
  {
    var q, q' := m / d, n / d;
    assert m == q * d + m % d && n == q' * d + n % d;
    if q' < q { Multiples(q', q, d); }
  }

  /** Rounding keeps the order. */
  lemma {:induction false} RoundMonotone(h: pos, m: nat, n: nat, d: pos)
    requires m <= n
    ensures Round(h, m, d) <= Round(h, n, d)
    decreases if m > d then m - d else 0
  {
    if n < 2 * h * d {
      HalfEvenMonotone(m, n, d);
    } else if m < 2 * h * d {
      HalfEvenBound(h, m, d);
      assert n >= h * (2 * d);
      RoundAtLeastHidden(h, n, 2 * d);
    } else {
      Grows(h, d);
      RoundMonotone(h, m, n, 2 * d);
    }
  }

  lemma HalfEvenScale(m: nat, d: pos, c: pos)
    ensures HalfEven(m * c, d * c) == HalfEven(m, d)
  {
    var q, r := m / d, m % d;
    ScaledDivision(m, d, c);
    Multiples(2 * r, d, c);
    Multiples(d, 2 * r, c);
    assert (2 * r) * c == 2 * (r * c);
  }

  lemma ScaledDivision(m: nat, d: pos, c: pos)
    ensures m * c / (d * c) == m / d
    ensures m * c % (d * c) == (m % d) * c
  {
    var q, r := m / d, m % d;
    assert m * c == q * (d * c) + r * c by {
      assert m == q * d + r;
    }
    Multiples(r, d, c);
    Division(d * c, q, r * c, m * c);
  }

  /** Only the ratio matters, not how it is written. */
  lemma {:induction false} RoundScale(h: pos, m: nat, d: pos, c: pos)
    ensures Round(h, m * c, d * c) == Round(h, m, d)
    decreases if m > d then m - d else 0
  {
    ScaledBound(h, m, d, c);
    if m < 2 * h * d {
      HalfEvenScale(m, d, c);
    } else {
      RoundUnfolds(h, m, d);
      RoundUnfolds(h, m * c, d * c);
      RoundScale(h, m, 2 * d, c);
    }
  }

  lemma ScaledBound(h: pos, m: nat, d: pos, c: pos)
    ensures m < 2 * h * d <==> m * c < 2 * h * (d * c)
    ensures (2 * d) * c == 2 * (d * c)
  {
    var t := 2 * h * d;
    assert t * c == 2 * h * (d * c);
    Multiples(m, t, c);
    Multiples(t, m, c);
  }

  /** The order is kept between any two rationals. */
  lemma RoundMonotoneRational(h: pos, m: nat, d: pos, n: nat, e: pos)
    requires m * e <= n * d
    ensures Round(h, m, d) <= Round(h, n, e)
  {
    var c: pos := d * e;
    assert Round(h, m * e, c) == Round(h, m, d) by { RoundScale(h, m, d, e); }
    assert Round(h, n * d, c) == Round(h, n, e) by {
      RoundScale(h, n, e, d);
      assert e * d == c;
    }
    RoundMonotone(h, m * e, n * d, c);
  }

  /** `m / d` goes past an odd pattern exactly when it reaches the midpoint to the next one. */
  lemma RoundPastOdd(h: pos, m: nat, d: pos, b: nat)
    requires h % 2 == 0 && b % 2 == 1
    ensures Round(h, m, d) > b <==> 2 * m >= (Magnitude(h, b) + Magnitude(h, b + 1)) * d
  {
    var r := Round(h, m, d);
    var lo, hi := Magnitude(h, b) * d, Magnitude(h, b + 1) * d;
    assert (Magnitude(h, b) + Magnitude(h, b + 1)) * d == lo + hi;
    MagnitudeIncreasing(h, b, b + 1);
    Multiples(Magnitude(h, b), Magnitude(h, b + 1), d);
    RoundNearest(h, m, d, b);
    RoundNearest(h, m, d, b + 1);
    if r > b + 1 {
      DistanceOrder(h, b + 1, r, m, d);
    } else if r < b {
      DistanceOrder(h, r, b, m, d);
    }
  }
}
