/**
 * `_round`: an exact fraction is divided to 60 significant digits, then quantised to 10 decimal places, both times
 * rounding half to even. A fraction is p / q with q > 0; a result k stands for k units of 10^-10.
 */
module Rounding {

  const PLACES: nat := 10
  const PRECISION: nat := 60

  function Pow10(n: nat): (r: int)
    ensures r >= 1
  {
    if n == 0 then 1 else 10 * Pow10(n - 1)
  }

  function Abs(x: int): nat {
    if x < 0 then -x else x
  }

  /** The integer nearest n / d, ties to even. */
  function RoundHalfEven(n: int, d: int): int
    requires d > 0
  {
    var floor, r := n / d, n % d;
    if 2 * r < d then floor
    else if 2 * r > d then floor + 1
    else if floor % 2 == 0 then floor
    else floor + 1
  }

  /** `k` is nearest to n / d, and even if n / d is half-way between two integers. */
  ghost predicate IsNearest(n: int, d: int, k: int) {
    var twice := 2 * (n - k * d);
    -d <= twice <= d && (twice == d || twice == -d ==> k % 2 == 0)
  }

  lemma RoundsToNearest(n: int, d: int)
    requires d > 0
    ensures IsNearest(n, d, RoundHalfEven(n, d))
  {
    var floor, r := n / d, n % d;
    assert n == floor * d + r;
    assert (floor + 1) * d == floor * d + d;
  }

  lemma NearestIsUnique(n: int, d: int, j: int, k: int)
    requires d > 0 && IsNearest(n, d, j) && IsNearest(n, d, k)
    ensures j == k
  {
    NearestIsNotBelow(n, d, j, k);
    NearestIsNotBelow(n, d, k, j);
  }

  lemma NearestIs(n: int, d: int, k: int)
    requires d > 0 && IsNearest(n, d, k)
    ensures RoundHalfEven(n, d) == k
  {
    RoundsToNearest(n, d);
    NearestIsUnique(n, d, RoundHalfEven(n, d), k);
  }

  lemma NearestIsNotBelow(n: int, d: int, j: int, k: int)
    requires d > 0 && IsNearest(n, d, j) && IsNearest(n, d, k)
    ensures k <= j
  {
    assert (j + 1) * d == j * d + d;
    if k >= j + 2 {
      MulMono(j + 2, k, d);
      assert false;
    }
  }

  lemma MulMono(a: int, b: int, c: int)
    requires a <= b && c >= 0
    ensures a * c <= b * c
  {}

  // ----------------------------------------------------- rounding twice

  /** n / q, rounded to a grid `fine` times finer, lands exactly half-way between two integers although it is not there,
      and the tie goes to the integer on the other side. */
  predicate TieLost(n: int, q: int, fine: int)
    requires q > 0 && fine > 0
  {
    var c := RoundHalfEven(n * fine, q);
    && 2 * (c % fine) == fine
    && if (c / fine) % 2 == 0 then n * fine > c * q else n * fine < c * q
  }

  /** Rounding to a finer grid first changes the result exactly when it loses a tie. */
  lemma TwoRoundingsAreOneIffNoTieIsLost(n: int, q: int, fine: int)
    requires q > 0 && fine > 0 && fine % 2 == 0
    ensures RoundHalfEven(RoundHalfEven(n * fine, q), fine) == RoundHalfEven(n, q) <==> !TieLost(n, q, fine)
  {
    var c := RoundHalfEven(n * fine, q);
    var k := RoundHalfEven(c, fine);
    RoundsToNearest(n * fine, q);
    RoundsToNearest(c, fine);
    RoundsToNearest(n, q);
    var y := 2 * (c - k * fine);
    TieGoesToEven(c, fine);
    hide RoundHalfEven, IsNearest;
    NearestToTheExact(n, q, fine, c, k);
    if TieLost(n, q, fine) {
      assert !IsNearest(n, q, k);
    } else {
      NearestIsUnique(n, q, RoundHalfEven(n, q), k);
    }
  }

  /** Where the remainder is half, the nearest is the even neighbour. */
  lemma TieGoesToEven(c: int, fine: int)
    requires fine > 0
    ensures var k := RoundHalfEven(c, fine);
            var y := 2 * (c - k * fine);
            && (y == fine <==> 2 * (c % fine) == fine && (c / fine) % 2 == 0)
            && (y == -fine <==> 2 * (c % fine) == fine && (c / fine) % 2 != 0)
  {
    var floor, r := c / fine, c % fine;
    assert c == floor * fine + r;
    assert (floor + 1) * fine == floor * fine + fine;
  }

  /** The nearest integer to c / fine is the nearest to the exact n / q unless c / fine is half-way and n / q on the
      other side. */
  lemma NearestToTheExact(n: int, q: int, fine: int, c: int, k: int)
    requires q > 0 && fine > 0 && fine % 2 == 0 && IsNearest(n * fine, q, c) && IsNearest(c, fine, k)
    ensures var y := 2 * (c - k * fine);
            IsNearest(n, q, k) <==> !(y == fine && n * fine > c * q) && !(y == -fine && n * fine < c * q)
  {
    var x, y, z := 2 * (n - k * q), 2 * (c - k * fine), 2 * (n * fine - c * q);
    OffsetsAdd(n, q, fine, c, k);
    assert x * fine == z + y * q;
    assert y % 2 == 0;
    if -fine < y < fine {
      ScaledBounds(y, fine - 2, q);
      assert (fine - 2) * q == fine * q - 2 * q;
      LessByFactor(x, q, fine);
      LessByFactor(-x, q, fine);
    } else {
      assert y == fine || y == -fine;
      OffsetAtATie(x, q, fine, y, z);
    }
  }

  lemma OffsetsAdd(n: int, q: int, fine: int, c: int, k: int)
    ensures 2 * (n - k * q) * fine == 2 * (n * fine - c * q) + 2 * (c - k * fine) * q
    ensures -(2 * (n - k * q)) * fine == -(2 * (n - k * q) * fine) && q * fine == fine * q
  {}

  lemma OffsetAtATie(x: int, q: int, fine: int, y: int, z: int)
    requires q > 0 && fine >= 2 && x * fine == z + y * q && -q <= z <= q && (y == fine || y == -fine)
    ensures y == fine ==> -q < x && (x <= q <==> z <= 0)
    ensures y == -fine ==> x < q && (x >= -q <==> z >= 0)
  {
    assert (-q) * fine == -(fine * q) && q * fine == fine * q && (-fine) * q == -(fine * q);
    MulMono(2, fine, q);
    if y == fine {
      LessByFactor(-q, x, fine);
      if x <= q { MulMono(x, q, fine); } else { StrictTimes(q, x, fine); }
    } else {
      LessByFactor(x, q, fine);
      if x >= -q { MulMono(-q, x, fine); } else { StrictTimes(x, -q, fine); }
    }
  }

  /** A tie is lost only under a denominator larger than the grid is fine. */
  lemma LostTieNeedsALargeDenominator(n: int, q: int, fine: int)
    requires q > 0 && fine > 0 && TieLost(n, q, fine)
    ensures q > fine
  {
    var c := RoundHalfEven(n * fine, q);
    RoundsToNearest(n * fine, q);
    var odd := 2 * (c / fine) + 1;
    assert 2 * c == odd * fine by { assert c == (c / fine) * fine + c % fine; }
    var twice := 2 * n - odd * q;
    hide RoundHalfEven;
    TieIsAMultiple(n, q, fine, c, odd);
    NonzeroMultiple(twice, fine, q);
    OnItsOwnGrid(n, q, fine, c);
  }

  lemma TieIsAMultiple(n: int, q: int, fine: int, c: int, odd: int)
    requires 2 * c == odd * fine
    ensures 2 * (n * fine - c * q) == (2 * n - odd * q) * fine
  {
    assert 2 * (c * q) == odd * fine * q;
  }

  lemma NonzeroMultiple(d: int, fine: int, q: int)
    requires fine > 0 && -q <= d * fine <= q && d != 0
    ensures q >= fine
  {
    if d >= 1 { MulMono(1, d, fine); } else { MulMono(d, -1, fine); }
  }

  /** On a grid as fine as the denominator is large, the value is exact. */
  lemma OnItsOwnGrid(n: int, q: int, fine: int, c: int)
    requires q > 0 && IsNearest(n * fine, q, c)
    ensures q == fine ==> c == n
  {
    if q == fine {
      assert n * fine - c * q == (n - c) * q;
      if n - c >= 1 { MulMono(1, n - c, q); }
      if n - c <= -1 { MulMono(n - c, -1, q); }
    }
  }

  /** Rounding to an even grid at least as fine as the denominator is large changes nothing. */
  lemma FinerFirstIsHarmless(n: int, q: int, fine: int)
    requires 0 < q <= fine && fine % 2 == 0
    ensures RoundHalfEven(RoundHalfEven(n * fine, q), fine) == RoundHalfEven(n, q)
  {
    hide RoundHalfEven;
    TwoRoundingsAreOneIffNoTieIsLost(n, q, fine);
    if TieLost(n, q, fine) { LostTieNeedsALargeDenominator(n, q, fine); }
  }

  lemma ScaledBounds(b: int, fine: int, q: int)
    requires -fine <= b <= fine && q >= 0
    ensures -(fine * q) <= b * q <= fine * q
  {
    MulMono(b, fine, q);
    MulMono(-fine, b, q);
  }

  lemma LessByFactor(a: int, b: int, c: int)
    requires c > 0 && a * c < b * c
    ensures a < b
  {
    if a >= b {
      MulMono(b, a, c);
    }
  }

  // ------------------------------------------------------- powers of ten

  lemma ThreeFactors(a: int, b: int, c: int)
    ensures a * b * c == a * (b * c)
  {}

  lemma {:induction false} Pow10Sum(a: nat, b: nat)
    ensures Pow10(a + b) == Pow10(a) * Pow10(b)
  {
    if a > 0 {
      Pow10Sum(a - 1, b);
      ThreeFactors(10, Pow10(a - 1), Pow10(b));
    }
  }

  lemma {:induction false} Pow10Mono(a: nat, b: nat)
    requires a < b
    ensures 10 * Pow10(a) <= Pow10(b)
    decreases b
  {
    if a + 1 < b {
      Pow10Mono(a, b - 1);
    }
  }

  // ------------------------------------------------------------- _round

  datatype Rounded = Quantised(units: int) | InvalidOperation

  /** The number of decimal places, from `e` on, at which p / q has 60 significant digits. */
  function Scale(p: int, q: int, e: nat): (r: nat)
    requires p != 0 && q > 0
    requires Abs(p) * Pow10(e) < Pow10(PRECISION) * q
    ensures r >= e
    ensures Pow10(PRECISION - 1) * q <= Abs(p) * Pow10(r) < Pow10(PRECISION) * q
    decreases Pow10(PRECISION) * q - Abs(p) * Pow10(e)
  {
    if Abs(p) * Pow10(e) >= Pow10(PRECISION - 1) * q then e
    else
      NextPlace(Abs(p), q, e);
      Scale(p, q, e + 1)
  }

  lemma NextPlace(p: nat, q: int, e: nat)
    requires p > 0 && q > 0
    requires p * Pow10(e) < Pow10(PRECISION - 1) * q
    ensures p * Pow10(e) < p * Pow10(e + 1) < Pow10(PRECISION) * q
  {
    var power, limit := Pow10(e), Pow10(PRECISION - 1);
    assert Pow10(e + 1) == 10 * power && Pow10(PRECISION) == 10 * limit;
    hide Pow10;
    ThreeFactors(10, power, p);
    ThreeFactors(10, limit, q);
    assert p * (10 * power) == 10 * (p * power) by { assert p * (10 * power) == (10 * power) * p
                                                    && p * power == power * p; }
    MulMono(1, p, power);
  }

  /** p / q to `e` places, then to 10 places. */
  function DivideThenQuantise(p: int, q: int, e: nat): int
    requires q > 0 && e >= PLACES
  {
    RoundHalfEven(RoundHalfEven(p * Pow10(e), q), Pow10(e - PLACES))
  }

  /** `_round` on an exact fraction. From 10^50 on, the 10 places asked for need more than 60 digits. */
  function Round(p: int, q: int): Rounded
    requires q > 0
  {
    if p == 0 then Quantised(0)
    else if Abs(p) * Pow10(PLACES) >= Pow10(PRECISION) * q then InvalidOperation
    else
      var units := DivideThenQuantise(p, q, Scale(p, q, PLACES));
      if Abs(units) >= Pow10(PRECISION) then InvalidOperation else Quantised(units)
  }

  /** Below 4 * 10^18 in magnitude, as every lift of admitted values is. */
  ghost predicate LiftSized(p: int, q: int)
    requires q > 0
  {
    Abs(p) < 4 * (Pow10(18) * q)
  }

  /** p < 4aq and e <= t give pe < 4(at)q. */
  lemma ProductBelow(p: nat, a: int, q: int, e: int, t: int)
    requires p < 4 * (a * q) && 0 < e <= t && a > 0 && q > 0
    ensures p * e < 4 * ((a * t) * q)
  {
    var bound := 4 * (a * q);
    MulMono(p + 1, bound, e);
    assert (p + 1) * e == p * e + e;
    assert bound > 0 by { MulMono(1, a, q); }
    MulMono(e, t, bound);
    assert e * bound == bound * e && t * bound == 4 * ((a * t) * q);
  }

  lemma ScaleOfLift(p: int, q: int, e: nat)
    requires q > 0 && LiftSized(p, q)
    requires Pow10(PRECISION - 1) * q <= Abs(p) * Pow10(e)
    ensures e >= 41
  {
    hide Pow10;
    Pow10Sum(18, 40);
    Pow10Step(58);
    TenTimes(Pow10(58), q);
    if e <= 40 {
      if e < 40 { Pow10Mono(e, 40); }
      ProductBelow(Abs(p), Pow10(18), q, Pow10(e), Pow10(40));
    }
  }

  lemma Pow10Step(n: nat)
    ensures Pow10(n + 1) == 10 * Pow10(n)
  {}

  lemma TenTimes(a: int, q: int)
    requires a > 0 && q > 0
    ensures (10 * a) * q == 10 * (a * q) && a * q > 0
  {
    MulMono(1, a, q);
  }

  lemma FinePow(e: nat)
    requires e >= 41
    ensures Pow10(e - PLACES) % 2 == 0 && Pow10(31) <= Pow10(e - PLACES)
    ensures Pow10(e) == Pow10(PLACES) * Pow10(e - PLACES)
  {
    Pow10Sum(PLACES, e - PLACES);
    Pow10Mono(30, e - PLACES);
    assert Pow10(e - PLACES) == 2 * (5 * Pow10(e - PLACES - 1));
    assert Pow10(31) == 10 * Pow10(30);
  }

  lemma LiftIsInRange(p: int, q: int)
    requires q > 0 && LiftSized(p, q)
    ensures Abs(p) * Pow10(PLACES) < Pow10(29) * q
    ensures Abs(p) * Pow10(PLACES) < Pow10(PRECISION) * q
  {
    Pow10Sum(18, PLACES);
    assert Pow10(29) == 10 * Pow10(28);
    Pow10Mono(29, PRECISION);
    ProductBelow(Abs(p), Pow10(18), q, Pow10(PLACES), Pow10(PLACES));
    TenTimes(Pow10(28), q);
    MulMono(Pow10(29), Pow10(PRECISION), q);
  }

  /** The nearest integer to n / q is at most a bound that n / q stays below. */
  lemma NearestBounded(n: int, q: int, k: int, bound: int)
    requires q > 0 && IsNearest(n, q, k) && Abs(n) < bound * q
    ensures Abs(k) <= bound
  {
    assert (bound + 1) * q == bound * q + q && (-bound - 1) * q == -(bound * q) - q;
    if k > bound {
      MulMono(bound + 1, k, q);
    } else if k < -bound {
      MulMono(k, -bound - 1, q);
    }
  }

  lemma AbsTimes(p: int, e: int)
    requires e > 0
    ensures Abs(p * e) == Abs(p) * e
  {
    if p < 0 { MulMono(p, 0, e); } else { MulMono(0, p, e); }
  }

  /** The quantised coefficient of a lift has at most 30 digits, so it always fits. */
  lemma LiftFits(p: int, q: int)
    requires q > 0 && LiftSized(p, q)
    ensures Abs(RoundHalfEven(p * Pow10(PLACES), q)) <= Pow10(29) < Pow10(PRECISION)
  {
    LiftIsInRange(p, q);
    Pow10Mono(29, PRECISION);
    AbsTimes(p, Pow10(PLACES));
    RoundsToNearest(p * Pow10(PLACES), q);
    NearestBounded(p * Pow10(PLACES), q, RoundHalfEven(p * Pow10(PLACES), q), Pow10(29));
  }

  /** At a scale of 41 places or more, the two roundings together are one, if the denominator is at most 10^31. */
  lemma TwoRoundingsAreOne(p: int, q: int, e: nat)
    requires 0 < q <= Pow10(31) && e >= 41
    ensures DivideThenQuantise(p, q, e) == RoundHalfEven(p * Pow10(PLACES), q)
  {
    FinePow(e);
    SplitPower(p, e);
    hide Pow10;
    FinerFirstIsHarmless(p * Pow10(PLACES), q, Pow10(e - PLACES));
  }

  lemma SplitPower(p: int, e: nat)
    requires e >= PLACES
    ensures p * Pow10(e) == p * Pow10(PLACES) * Pow10(e - PLACES)
  {
    Pow10Sum(PLACES, e - PLACES);
    hide Pow10;
  }

  /** For every lift whose denominator is at most 10^31, `_round` is one rounding of the exact value. */
  lemma RoundIsOneRounding(p: int, q: int)
    requires 0 < q <= Pow10(31) && LiftSized(p, q)
    ensures Round(p, q) == Quantised(RoundHalfEven(p * Pow10(PLACES), q))
  {
    if p != 0 {
      LiftIsInRange(p, q);
      LiftFits(p, q);
      hide Pow10, RoundHalfEven, DivideThenQuantise;
      var e := Scale(p, q, PLACES);
      ScaleOfLift(p, q, e);
      TwoRoundingsAreOne(p, q, e);
    } else {
      ZeroRounds(q);
    }
  }

  lemma ZeroRounds(q: int)
    requires q > 0
    ensures RoundHalfEven(0 * Pow10(PLACES), q) == 0
  {
    assert 0 * Pow10(PLACES) == 0;
  }

  /** For any denominator, the result is off by at most half a unit plus half of 10^-31 unit: half a quantum and
      10^-41. */
  lemma RoundError(p: int, q: int)
    requires q > 0 && LiftSized(p, q)
    ensures Round(p, q).Quantised?
    ensures 2 * Abs(Round(p, q).units * q - p * Pow10(PLACES)) * Pow10(31) <= q * Pow10(31) + q
  {
    hide Pow10, DivideThenQuantise;
    if p != 0 {
      LiftIsInRange(p, q);
      Pow10Mono(29, PRECISION);
      var e := Scale(p, q, PLACES);
      ScaleOfLift(p, q, e);
      TwoRoundingsError(p, q, e);
    } else {
      ZeroError(q, Pow10(PLACES), Pow10(31));
    }
  }

  lemma ZeroError(q: int, places: int, scale: int)
    requires q > 0 && scale > 0
    ensures 2 * Abs(0 * q - 0 * places) * scale <= q * scale + q
  {
    MulMono(0, q, scale);
  }

  lemma TwoRoundingsError(p: int, q: int, e: nat)
    requires q > 0 && e >= 41
    requires Abs(p) * Pow10(PLACES) < Pow10(29) * q
    ensures var k := DivideThenQuantise(p, q, e);
            && 2 * Abs(k * q - p * Pow10(PLACES)) * Pow10(31) <= q * Pow10(31) + q
            && Abs(k) <= Pow10(29)
  {
    FinePow(e);
    SplitPower(p, e);
    AbsTimes(p, Pow10(PLACES));
    hide Pow10;
    var n, fine := p * Pow10(PLACES), Pow10(e - PLACES);
    var c := RoundHalfEven(n * fine, q);
    RoundsToNearest(n * fine, q);
    RoundsToNearest(c, fine);
    var k := RoundHalfEven(c, fine);
    hide RoundHalfEven, IsNearest;
    TwoErrors(n, q, fine, c, k);
    ErrorAtCoarserScale(Abs(k * q - n), q, fine, Pow10(31));
    TwiceRoundedFits(n, q, fine, c, k, Pow10(29));
  }

  lemma TwoErrors(n: int, q: int, fine: int, c: int, k: int)
    requires q > 0 && fine > 0 && IsNearest(n * fine, q, c) && IsNearest(c, fine, k)
    ensures 2 * Abs(k * q - n) * fine <= q * fine + q
  {
    ScaledBounds(2 * (c - k * fine), fine, q);
    ErrorProducts(n, q, fine, c, k);
    AbsTimes(k * q - n, fine);
    LinearErrors(n * fine, c * q, k * fine * q, q, fine * q);
    var error := Abs(k * q - n);
    assert 2 * error * fine == 2 * (error * fine);
  }

  lemma ErrorProducts(n: int, q: int, fine: int, c: int, k: int)
    ensures 2 * (c - k * fine) * q == 2 * (c * q) - 2 * (k * fine * q)
    ensures (k * q - n) * fine == k * fine * q - n * fine
    ensures fine * q == q * fine
  {}

  lemma LinearErrors(nf: int, cq: int, kfq: int, q: int, fq: int)
    requires -q <= 2 * (nf - cq) <= q
    requires -fq <= 2 * cq - 2 * kfq <= fq
    ensures 2 * Abs(kfq - nf) <= fq + q
  {}

  lemma ErrorAtCoarserScale(error: nat, q: int, fine: int, coarse: int)
    requires 0 < coarse <= fine && q > 0 && 2 * error * fine <= q * fine + q
    ensures 2 * error * coarse <= q * coarse + q
  {
    if 2 * error > q {
      MulMono(coarse, fine, 2 * error - q);
      assert (2 * error - q) * fine == 2 * error * fine - q * fine;
      assert (2 * error - q) * coarse == 2 * error * coarse - q * coarse;
    } else {
      MulMono(2 * error, q, coarse);
    }
  }

  lemma TwiceRoundedFits(n: int, q: int, fine: int, c: int, k: int, bound: int)
    requires q > 0 && fine > 0 && IsNearest(n * fine, q, c) && IsNearest(c, fine, k)
    requires Abs(n) < bound * q && bound > 0
    ensures Abs(k) <= bound
  {
    AbsTimes(n, fine);
    StrictTimes(Abs(n), bound * q, fine);
    assert bound * q * fine == (bound * fine) * q;
    NearestBounded(n * fine, q, c, bound * fine);
    NearestToMultiple(c, fine, k, bound);
  }

  lemma StrictTimes(a: int, b: int, f: int)
    requires a < b && f > 0
    ensures a * f < b * f
  {
    MulMono(a + 1, b, f);
    assert (a + 1) * f == a * f + f;
  }

  lemma NearestToMultiple(c: int, fine: int, k: int, bound: int)
    requires fine > 0 && IsNearest(c, fine, k) && Abs(c) <= bound * fine
    ensures Abs(k) <= bound
  {
    assert (bound + 1) * fine == bound * fine + fine && (-bound - 1) * fine == -(bound * fine) - fine;
    if k > bound {
      MulMono(bound + 1, k, fine);
    } else if k < -bound {
      MulMono(k, -bound - 1, fine);
    }
  }

  // ------------------------------------------------ where it stops holding

  /** The place found is the only one with 60 significant digits. */
  lemma ScaleIs(p: int, q: int, e: nat, place: nat)
    requires p > 0 && q > 0 && e <= place
    requires p * Pow10(e) < Pow10(PRECISION) * q
    requires Pow10(PRECISION - 1) * q <= p * Pow10(place) < Pow10(PRECISION) * q
    ensures Scale(p, q, e) == place
  {
    var r := Scale(p, q, e);
    if r < place {
      PlacesApart(p, q, r, place);
    } else if place < r {
      PlacesApart(p, q, place, r);
    }
  }

  lemma PlacesApart(p: int, q: int, low: nat, high: nat)
    requires p > 0 && q > 0 && low < high
    requires Pow10(PRECISION - 1) * q <= p * Pow10(low)
    ensures Pow10(PRECISION) * q <= p * Pow10(high)
  {
    Pow10Mono(low, high);
    var small, large, limit := Pow10(low), Pow10(high), Pow10(PRECISION - 1);
    assert Pow10(PRECISION) == 10 * limit;
    hide Pow10;
    ThreeFactors(10, limit, q);
    ThreeFactors(10, small, p);
    MulMono(10 * small, large, p);
    assert p * large == large * p && p * small == small * p;
  }

  /** The exact value rounded once, half to even, to 10 places. */
  function RoundOnce(p: int, q: int): Rounded
    requires q > 0
  {
    var units := RoundHalfEven(p * Pow10(PLACES), q);
    if Abs(units) >= Pow10(PRECISION) then InvalidOperation else Quantised(units)
  }

  /** The value has a quotient of 60 digits. */
  predicate Divides(p: int, q: int)
    requires q > 0
  {
    p != 0 && Abs(p) * Pow10(PLACES) < Pow10(PRECISION) * q
  }

  /** How many times finer than the unit the 60 digits of the quotient reach. */
  function Finer(p: int, q: int): (fine: int)
    requires q > 0 && Divides(p, q)
    ensures fine >= 1
  {
    Pow10(Scale(p, q, PLACES) - PLACES)
  }

  /** The 60 digits of the quotient end half-way between two units, they are not exact, and the tie goes to the unit on
      the other side of the exact value. */
  predicate LosesATie(p: int, q: int)
    requires q > 0
  {
    Divides(p, q) && TieLost(p * Pow10(PLACES), q, Finer(p, q))
  }

  /** `_round` is one half-even rounding of the exact value, raising included, exactly when no tie is lost. */
  lemma RoundIsOneRoundingIffNoTieIsLost(p: int, q: int)
    requires q > 0
    ensures Round(p, q) == RoundOnce(p, q) <==> !LosesATie(p, q)
  {
    RaisesIffTooLong(p, q);
    if Divides(p, q) {
      var e := Scale(p, q, PLACES);
      SplitPower(p, e);
      if e > PLACES {
        FinerScaleFits(p, q, e);
        EvenPower(e - PLACES);
        hide Pow10, RoundHalfEven, TieLost;
        TwoRoundingsAreOneIffNoTieIsLost(p * Pow10(PLACES), q, Pow10(e - PLACES));
      } else {
        WholeUnits(RoundHalfEven(p * Pow10(PLACES), q));
        hide RoundHalfEven;
      }
    } else {
      RoundsUndivided(p, q);
      hide Round, RoundOnce;
    }
  }

  lemma RoundsUndivided(p: int, q: int)
    requires q > 0 && !Divides(p, q)
    requires Round(p, q).InvalidOperation? <==> Abs(RoundHalfEven(p * Pow10(PLACES), q)) >= Pow10(PRECISION)
    ensures Round(p, q) == RoundOnce(p, q)
  {
    hide Pow10;
    if p == 0 { ZeroRounds(q); }
    hide RoundHalfEven;
  }

  /** A denominator no larger than the 60 digits are fine is enough. */
  lemma SmallDenominatorsRoundOnce(p: int, q: int)
    requires q > 0 && (Divides(p, q) ==> q <= Finer(p, q))
    ensures Round(p, q) == RoundOnce(p, q)
  {
    hide Round, RoundOnce, TieLost, Divides, Finer, Pow10;
    RoundIsOneRoundingIffNoTieIsLost(p, q);
    if LosesATie(p, q) { LostTieNeedsALargeDenominator(p * Pow10(PLACES), q, Finer(p, q)); }
  }

  /** The guard is sharp, and `_round` does round twice: p / (2 * 10^10 * p - 1) is just above half a unit, so one
      rounding gives one unit; `_round` gives that exactly as long as the denominator is below 10^60, how fine the 60
      digits are, and gives zero from there on. */
  lemma LargeDenominatorRoundsTwice(p: int)
    requires p > 0
    ensures var q := 2 * Pow10(10) * p - 1;
            && q > 0 && RoundOnce(p, q) == Quantised(1)
            && Round(p, q) == Quantised(if q < Pow10(60) then 1 else 0)
            && Divides(p, q) && Finer(p, q) == Pow10(60)
  {
    hide *;
    HalfUnitFacts(p);
    JustAboveHalfUnit(p, 2 * Pow10(10) * p - 1);
  }

  lemma HalfUnitFacts(p: int)
    requires p > 0
    ensures 2 * (p * Pow10(PLACES)) == 2 * Pow10(10) * p && 2 * Pow10(10) * p > 2
    ensures p * Pow10(70) == p * Pow10(PLACES) * Pow10(60)
    ensures Pow10(60) == 10 * Pow10(59) && Pow10(59) % 2 == 0
  {
    SplitPower(p, 70);
    Pow10Step(59);
    Pow10Step(9);
    EvenPower(59);
    hide Pow10;
    TwiceTimes(p, Pow10(10));
    MulMono(1, p, 2 * Pow10(10));
  }

  /** A value just above half a unit, n / q with 2n = q + 1, on a grid `fine` times finer. */
  lemma HalfUnitOnAGrid(n: int, q: int, fine: int)
    requires q > 1 && 2 * n == q + 1 && fine > 0 && fine % 4 == 0
    ensures IsNearest(n, q, 1)
    ensures n < fine * q && fine * q < 2 * (n * fine) < 2 * (fine * q)
    ensures q >= fine ==> IsNearest(n * fine, q, fine / 2)
  {
    HalfUnitTerms(n, q, fine);
    MulMono(2, q, fine);
    MulMono(1, fine, q);
    NearHalf(n * fine, q, fine, fine / 2, (fine / 2) * q, fine * q);
  }

  lemma HalfUnitTerms(n: int, q: int, fine: int)
    requires 2 * n == q + 1 && fine > 0 && fine % 4 == 0
    ensures 2 * (n * fine) == q * fine + fine && q * fine == fine * q
    ensures 2 * ((fine / 2) * q) == fine * q
  {
    assert 2 * (n * fine) == (2 * n) * fine;
    var half := fine / 2;
    assert fine == 2 * half;
    assert 2 * (half * q) == (2 * half) * q;
  }

  lemma NearHalf(nf: int, q: int, fine: int, half: int, hq: int, fq: int)
    requires 2 * nf == fq + fine && 2 * hq == fq && hq == half * q && fine > 0 && half % 2 == 0
    ensures q >= fine ==> IsNearest(nf, q, half)
  {}

  lemma JustAboveHalfUnit(p: int, q: int)
    requires p > 0 && q > 1 && 2 * (p * Pow10(PLACES)) == q + 1
    requires p * Pow10(70) == p * Pow10(PLACES) * Pow10(60)
    requires Pow10(60) == 10 * Pow10(59) && Pow10(59) % 2 == 0
    ensures RoundOnce(p, q) == Quantised(1)
    ensures Round(p, q) == Quantised(if q < Pow10(60) then 1 else 0)
    ensures Divides(p, q) && Finer(p, q) == Pow10(60)
  {
    hide Pow10, IsNearest, RoundHalfEven, DivideThenQuantise;
    var n, fine := p * Pow10(PLACES), Pow10(60);
    HalfUnitOnAGrid(n, q, fine);
    NearestIs(n, q, 1);
    ThreeFactors(10, Pow10(59), q);
    ScaleIs(p, q, PLACES, 70);
    HalfUnitRounds(p, q);
  }

  lemma HalfUnitRounds(p: int, q: int)
    requires q > 0 && p * Pow10(70) == p * Pow10(PLACES) * Pow10(60)
    requires Pow10(60) == 10 * Pow10(59) && Pow10(59) % 2 == 0
    requires RoundHalfEven(p * Pow10(PLACES), q) == 1
    requires q >= Pow10(60) ==> IsNearest(p * Pow10(70), q, Pow10(60) / 2)
    ensures DivideThenQuantise(p, q, 70) == if q < Pow10(60) then 1 else 0
  {
    hide Pow10;
    if q < Pow10(60) {
      FinerFirstIsHarmless(p * Pow10(PLACES), q, Pow10(60));
    } else {
      NearestIs(p * Pow10(70), q, Pow10(60) / 2);
      NearestIs(Pow10(60) / 2, Pow10(60), 0);
    }
  }

  /** `quantize` raises exactly when the value, rounded once to 10 places, needs more than 60 digits. */
  lemma RaisesIffTooLong(p: int, q: int)
    requires q > 0
    ensures Round(p, q).InvalidOperation? <==> Abs(RoundHalfEven(p * Pow10(PLACES), q)) >= Pow10(PRECISION)
  {
    var n := p * Pow10(PLACES);
    AbsTimes(p, Pow10(PLACES));
    RoundsToNearest(n, q);
    if p == 0 {
      ZeroRounds(q);
    } else if Abs(p) * Pow10(PLACES) >= Pow10(PRECISION) * q {
      NearestReaches(n, q, RoundHalfEven(n, q), Pow10(PRECISION));
    } else {
      var e := Scale(p, q, PLACES);
      if e == PLACES {
        WholeUnits(RoundHalfEven(n, q));
      } else {
        FinerScaleFits(p, q, e);
      }
    }
  }

  /** The same, told of the value itself: from half a unit below 10^50 on, where the tie rounds up to the even 10^60
      units. */
  lemma RaisesIffTooLarge(p: int, q: int)
    requires q > 0
    ensures Round(p, q).InvalidOperation? <==> (2 * Pow10(PLACES)) * Abs(p) >= (2 * Pow10(PRECISION) - 1) * q
  {
    hide *;
    var ten, limit := Pow10(PLACES), Pow10(PRECISION);
    RaisesIffTooLong(p, q);
    AbsTimes(p, ten);
    RoundsToNearest(p * ten, q);
    EvenLimit();
    NearestReachesIff(p * ten, q, RoundHalfEven(p * ten, q), limit);
    TwiceTimes(Abs(p), ten);
  }

  lemma EvenPower(n: nat)
    requires n > 0
    ensures Pow10(n) % 2 == 0
  {
    assert Pow10(n) == 2 * (5 * Pow10(n - 1));
  }

  lemma EvenLimit()
    ensures Pow10(PRECISION) % 2 == 0
  {
    hide Pow10;
    EvenPower(PRECISION);
  }

  lemma TwiceTimes(a: int, b: int)
    ensures 2 * (a * b) == (2 * b) * a
  {}

  lemma NearestReachesIff(n: int, q: int, k: int, bound: int)
    requires q > 0 && IsNearest(n, q, k) && bound > 0 && bound % 2 == 0
    ensures Abs(k) >= bound <==> 2 * Abs(n) >= (2 * bound - 1) * q
  {
    NearestReachesAbove(n, q, k, bound);
    assert (-k) * q == -(k * q);
    NearestReachesAbove(-n, q, -k, bound);
    var b := (2 * bound - 1) * q;
    assert b > 0 by { StrictTimes(0, 2 * bound - 1, q); }
  }

  lemma NearestReachesAbove(n: int, q: int, k: int, bound: int)
    requires q > 0 && IsNearest(n, q, k) && bound % 2 == 0
    ensures k >= bound <==> 2 * n >= (2 * bound - 1) * q
  {
    assert (2 * bound - 1) * q == 2 * (bound * q) - q;
    assert (bound - 1) * q == bound * q - q && (bound - 2) * q == bound * q - 2 * q;
    if k >= bound { MulMono(bound, k, q); }
    if k <= bound - 2 { MulMono(k, bound - 2, q); }
  }

  lemma WholeUnits(c: int)
    ensures RoundHalfEven(c, Pow10(0)) == c
  {
    RoundsToNearest(c, 1);
    NearestIsUnique(c, 1, RoundHalfEven(c, 1), c);
  }

  lemma NearestReaches(n: int, q: int, k: int, bound: int)
    requires q > 0 && IsNearest(n, q, k) && Abs(n) >= bound * q && bound > 0
    ensures Abs(k) >= bound
  {
    assert (bound - 1) * q == bound * q - q && (1 - bound) * q == q - bound * q;
    if 0 <= k < bound || (k < 0 && n > 0) {
      MulMono(k, bound - 1, q);
    }
    if -bound < k <= 0 || (k > 0 && n < 0) {
      MulMono(1 - bound, k, q);
    }
    assert bound * q > 0 by { StrictTimes(0, bound, q); }
  }

  lemma FinerScaleFits(p: int, q: int, e: nat)
    requires q > 0 && e > PLACES && Abs(p) * Pow10(e) < Pow10(PRECISION) * q
    ensures Abs(DivideThenQuantise(p, q, e)) < Pow10(PRECISION)
    ensures Abs(RoundHalfEven(p * Pow10(PLACES), q)) < Pow10(PRECISION)
  {
    BelowAtPlaces(p, q, e);
    SplitPower(p, e);
    assert Pow10(PRECISION) == 10 * Pow10(PRECISION - 1);
    hide Pow10;
    var n, fine, limit := p * Pow10(PLACES), Pow10(e - PLACES), Pow10(PRECISION - 1);
    RoundsToNearest(n, q);
    NearestBounded(n, q, RoundHalfEven(n, q), limit);
    var c := RoundHalfEven(n * fine, q);
    RoundsToNearest(n * fine, q);
    RoundsToNearest(c, fine);
    hide RoundHalfEven;
    TwiceRoundedFits(n, q, fine, c, RoundHalfEven(c, fine), limit);
  }

  lemma BelowAtPlaces(p: int, q: int, e: nat)
    requires q > 0 && e > PLACES && Abs(p) * Pow10(e) < Pow10(PRECISION) * q
    ensures Abs(p * Pow10(PLACES)) < Pow10(PRECISION - 1) * q
  {
    assert Pow10(PRECISION) == 10 * Pow10(PRECISION - 1);
    Pow10Mono(PLACES, e);
    AbsTimes(p, Pow10(PLACES));
    var a, small, large, limit := Abs(p), Pow10(PLACES), Pow10(e), Pow10(PRECISION - 1);
    hide Pow10, Abs;
    ThreeFactors(10, limit, q);
    ThreeFactors(10, small, a);
    MulMono(10 * small, large, a);
    Commute(a, large);
    Commute(a, small);
  }

  lemma Commute(a: int, b: int)
    ensures a * b == b * a
  {}
}
