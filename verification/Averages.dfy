/** The average duration that the registry reports (apps/api/src/common/metrics/metrics.service.ts:43-44). */
module Averages {
  import opened Doubles

  /** `Math.round`: the nearest integer, the larger one of two. */
  function MathRound(x: real): int {
    (x + 0.5).Floor
  }

  /** `Math.round((sum / count) * 100)` in doubles; `fl` rounds the quotient and the product. */
  function MeanHundredths(fl: real -> real, sum: int, count: nat): int
    requires count >= 1
  {
    MathRound(fl(fl(sum as real / count as real) * 100.0))
  }

  function InHundredths(fl: real -> real, h: int): real {
    fl(h as real / 100.0)
  }

  /** `Math.round((sum / count) * 100) / 100` */
  function AverageMs(fl: real -> real, sum: int, count: nat): real
    requires count >= 1
  {
    InHundredths(fl, MeanHundredths(fl, sum, count))
  }

  /** No hundredth is nearer to `sum / count` than `h`; of two equally near ones it may be either. */
  predicate IsNearestHundredth(h: int, sum: int, count: int) {
    -count <= 2 * (100 * sum - h * count) <= count
  }

  const MAX_SUM := 22_000_000_000_000
  const MAX_COUNT := 9007199254740992

  predicate SmallEnough(sum: int, count: int) {
    -MAX_SUM <= sum <= MAX_SUM && 1 <= count <= MAX_COUNT
  }

  lemma ProductError(q: real, x: real, r: real)
    requires Abs(q - x) * TWO_TO_53 <= Abs(x)
    requires Abs(r - q * 100.0) * TWO_TO_53 <= Abs(q * 100.0)
    ensures Abs(r - x * 100.0) * TWO_TO_53 <= 201.0 * Abs(x)
  {
  }

  lemma ProductInRange(q: real, x: real)
    requires Abs(q - x) * TWO_TO_53 <= Abs(x)
    requires x == 0.0 || (1.0 <= Abs(x) * TWO_TO_53 && Abs(x) <= MAX_SUM as real)
    ensures InRange(q * 100.0)
  {
  }

  lemma Grows(x: real, a: real, b: real)
    requires x >= 0.0 && a <= b
    ensures x * a <= x * b
  {
  }

  lemma AbsTimes(x: real, c: real)
    requires c >= 0.0
    ensures Abs(x * c) == Abs(x) * c
  {
  }

  lemma FactorBounds(a: real, c: real, product: real, t: real)
    requires a >= 0.0 && a * c == product && 1.0 <= c <= t && (product == 0.0 || product >= 1.0)
    ensures a <= product && (a == 0.0 || a * t >= 1.0)
  {
    Grows(a, 1.0, c);
    Grows(a, c, t);
  }

  lemma IntegerSize(size: int)
    ensures Abs(size as real) == 0.0 || Abs(size as real) >= 1.0
  {
  }

  /** `x` is an integer `size` divided by `c`. */
  lemma QuotientBounds(x: real, c: real, size: int, t: real)
    requires x * c == size as real && 1.0 <= c <= t
    ensures Abs(x) * c == Abs(size as real) && Abs(x) <= Abs(size as real)
    ensures x == 0.0 || Abs(x) * t >= 1.0
  {
    AbsTimes(x, c);
    IntegerSize(size);
    FactorBounds(Abs(x), c, Abs(size as real), t);
  }

  lemma ErrorTimesCount(y: real, x: real, c: real)
    requires Abs(y) * TWO_TO_53 <= 201.0 * Abs(x) && c >= 0.0
    ensures Abs(y * c) * TWO_TO_53 <= 201.0 * (Abs(x) * c)
  {
    Grows(c, Abs(y) * TWO_TO_53, 201.0 * Abs(x));
    AbsTimes(y, c);
    assert c * (Abs(y) * TWO_TO_53) == (Abs(y) * c) * TWO_TO_53;
    assert c * (201.0 * Abs(x)) == 201.0 * (Abs(x) * c);
  }

  lemma HalfTimesCount(d: real, c: real) returns (product: real)
    requires -0.5 <= d <= 0.5 && c >= 0.0
    ensures product == d * c && -c <= 2.0 * product <= c
  {
    var above, below := 0.5 - d, 0.5 + d;
    product := d * c;
    Grows(c, 0.0, above);
    Grows(c, 0.0, below);
    assert c * above == c / 2.0 - product && c * below == c / 2.0 + product;
  }

  /** `missed` is what the roundings to doubles change, `rest` what the rounding to an integer does. */
  lemma NearestByErrors(sum: int, count: nat, h: int, missed: real, rest: real)
    requires SmallEnough(sum, count)
    requires rest - missed == (100 * sum - h * count) as real
    requires Abs(missed) * TWO_TO_53 <= 201.0 * Abs(sum as real) && -(count as real) <= 2.0 * rest <= count as real
    ensures IsNearestHundredth(h, sum, count)
  {
    var d := 100 * sum - h * count;
    assert Abs(missed) < 0.5;
    assert -(count as real) - 1.0 < 2.0 * d as real < count as real + 1.0;
  }

  lemma MissedBound(sum: int, count: nat, x: real, r: real) returns (missed: real)
    requires x * count as real == sum as real && Abs(x) * count as real == Abs(sum as real)
    requires Abs(r - x * 100.0) * TWO_TO_53 <= 201.0 * Abs(x)
    ensures missed == r * count as real - 100.0 * sum as real
    ensures Abs(missed) * TWO_TO_53 <= 201.0 * Abs(sum as real)
  {
    var c := count as real;
    missed := (r - x * 100.0) * c;
    ErrorTimesCount(r - x * 100.0, x, c);
    assert missed == r * c - 100.0 * (x * c);
  }

  lemma RestBound(count: nat, r: real) returns (rest: real)
    ensures rest == r * count as real - (MathRound(r) * count) as real
    ensures -(count as real) <= 2.0 * rest <= count as real
  {
    var c, h := count as real, MathRound(r);
    rest := HalfTimesCount(r - h as real, c);
    assert rest == r * c - h as real * c;
    assert h as real * c == (h * count) as real;
  }

  lemma RoundedIsNearest(sum: int, count: nat, x: real, r: real)
    requires SmallEnough(sum, count)
    requires x * count as real == sum as real && Abs(x) * count as real == Abs(sum as real)
    requires Abs(r - x * 100.0) * TWO_TO_53 <= 201.0 * Abs(x)
    ensures IsNearestHundredth(MathRound(r), sum, count)
  {
    var missed := MissedBound(sum, count, x, r);
    var rest := RestBound(count, r);
    NearestByErrors(sum, count, MathRound(r), missed, rest);
  }

  lemma TwoRoundings(fl: real -> real, x: real)
    requires RoundsToDoubles(fl)
    requires x == 0.0 || (1.0 <= Abs(x) * TWO_TO_53 && Abs(x) <= MAX_SUM as real)
    ensures Abs(fl(fl(x) * 100.0) - x * 100.0) * TWO_TO_53 <= 201.0 * Abs(x)
  {
    ErrorInRange(fl, x);
    ProductInRange(fl(x), x);
    ErrorInRange(fl, fl(x) * 100.0);
    ProductError(fl(x), x, fl(fl(x) * 100.0));
  }

  /** For sums up to 22 million million the two roundings never miss the nearest hundredth. */
  lemma MeanIsNearest(fl: real -> real, sum: int, count: nat)
    requires RoundsToDoubles(fl) && SmallEnough(sum, count)
    ensures IsNearestHundredth(MeanHundredths(fl, sum, count), sum, count)
  {
    var x := sum as real / count as real;
    QuotientBounds(x, count as real, sum, TWO_TO_53);
    TwoRoundings(fl, x);
    RoundedIsNearest(sum, count, x, fl(fl(x) * 100.0));
  }

  lemma HalfUnitApart(d: real, unit: real, t: real)
    requires Abs(d) <= unit / 2.0 && t > 0.0 && unit * t == 1.0
    ensures -0.5 <= d * t <= 0.5
  {
    var above, below := unit / 2.0 - d, unit / 2.0 + d;
    Grows(t, 0.0, above);
    Grows(t, 0.0, below);
    assert t * above == unit * t / 2.0 - d * t && t * below == unit * t / 2.0 + d * t;
  }

  lemma Cancel(n: real, unit: real, t: real)
    requires unit * t == 1.0
    ensures n * unit * t == n
  {
    var one := unit * t;
    assert n * unit * t == n * one;
  }

  lemma MultipleInUnits(y: real, x: real, unit: real, t: real, n: int, k: int)
    requires y == Times(n, unit) && Abs(y - x) <= unit / 2.0
    requires t > 0.0 && unit * t == 1.0 && -0.5 < x * t - k as real < 0.5
    ensures y * t == k as real
  {
    HalfUnitApart(y - x, unit, t);
    Cancel(n as real, unit, t);
    assert (y - x) * t == n as real - x * t;
    assert -1.0 < (n - k) as real < 1.0;
  }

  lemma UnitsOfNearest(fl: real -> real, x: real, e: int) returns (n: int)
    requires RoundsToDoubles(fl) && -1022 <= e < 1023 && Scale(e) <= Abs(x) < Scale(e + 1)
    ensures fl(x) == Times(n, Scale(e - 52)) && Abs(fl(x) - x) <= Scale(e - 52) / 2.0
  {
    assert IsNearestDouble(fl(x), x, e);
    n :| fl(x) == Times(n, Scale(e - 52));
  }

  /** The double nearest to `x`, in units of which `t` make one. */
  lemma NearestDouble(fl: real -> real, x: real, e: int, t: real, k: int)
    requires RoundsToDoubles(fl) && -1022 <= e < 1023 && Scale(e) <= x < Scale(e + 1)
    requires t > 0.0 && Scale(e - 52) * t == 1.0 && -0.5 < x * t - k as real < 0.5
    ensures fl(x) * t == k as real
  {
    var n := UnitsOfNearest(fl, x, e);
    MultipleInUnits(fl(x), x, Scale(e - 52), t, n, k);
  }

  lemma TieScales(e: int, f: int)
    requires e == -1 && f == 5
    ensures Scale(e) == 0.5 && Scale(e + 1) == 1.0 && Scale(f) == 32.0 && Scale(f + 1) == 64.0
  {
    ScaleUp(e);
    ScaleUp4(0);
    ScaleUp(f - 1);
    ScaleUp(f);
  }

  lemma TieUnits(e: int, f: int)
    requires e == -1 && f == 5
    ensures Scale(e - 52) * TWO_TO_53 == 1.0 && Scale(f - 52) * (TWO_TO_53 / 64.0) == 1.0
  {
    TieScales(e, f);
    UnitBelow(e);
    UnitBelow(f);
  }

  lemma TieSteps(fl: real -> real, e: int, f: int)
    requires RoundsToDoubles(fl) && e == -1 && f == 5
    ensures MeanHundredths(fl, 23, 40) == 57
  {
    TieScales(e, f);
    TieUnits(e, f);
    var x := 23.0 / 40.0;
    NearestDouble(fl, x, e, TWO_TO_53, 5179139571476070);
    NearestDouble(fl, fl(x) * 100.0, f, TWO_TO_53 / 64.0, 8092405580431359);
  }

  /**
   A tie that goes down: 23 ms over 40 requests are 57.5 hundredths, but the nearest double to
   23/40 is a little less than 23/40, and the nearest double to a hundred times that is still
   less than 57.5.
   */
  lemma TieCanGoDown(fl: real -> real)
    requires RoundsToDoubles(fl)
    ensures 2 * (100 * 23 - 57 * 40) == 40 && MeanHundredths(fl, 23, 40) == 57
  {
    TieSteps(fl, -1, 5);
  }

  // ---------------------------------------------------------------- the number reported

  lemma HalfOfCount(d: real, c: real, product: int, count: int)
    requires c == count as real && count >= 1 && d * c == product as real && -count <= 2 * product <= count
    ensures -0.5 <= d <= 0.5
  {
    var above, below := 2.0 * d - 1.0, -2.0 * d - 1.0;
    assert above * c == 2.0 * product as real - c && below * c == -2.0 * product as real - c;
    Signs(above, c);
    Signs(below, c);
  }

  lemma Signs(a: real, c: real)
    requires c > 0.0 && a * c <= 0.0
    ensures a <= 0.0
  {
  }

  lemma DistanceTimesCount(h: int, sum: int, count: nat, x: real)
    requires x * count as real == sum as real
    ensures (100.0 * x - h as real) * count as real == (100 * sum - h * count) as real
  {
    var c := count as real;
    assert (100.0 * x - h as real) * c == 100.0 * (x * c) - h as real * c;
    assert h as real * c == (h * count) as real;
  }

  lemma NearestIsNear(h: int, sum: int, count: nat, x: real)
    requires count >= 1 && x * count as real == sum as real && IsNearestHundredth(h, sum, count)
    ensures -0.5 <= 100.0 * x - h as real <= 0.5
  {
    DistanceTimesCount(h, sum, count, x);
    HalfOfCount(100.0 * x - h as real, count as real, 100 * sum - h * count, count);
  }

  /** `average` is `h / 100` up to one rounding. */
  predicate IsDoubleOfHundredths(average: real, h: int) {
    Abs(average - h as real / 100.0) * TWO_TO_53 <= Abs(h as real / 100.0)
  }

  /** Half a hundredth from the exact mean, and one rounding more. */
  predicate IsNearMean(average: real, x: real) {
    (Abs(average - x) - 0.005) * TWO_TO_53 <= Abs(x) + 0.005
  }

  lemma NearTheMean(average: real, h: int, x: real)
    requires IsDoubleOfHundredths(average, h) && -0.5 <= 100.0 * x - h as real <= 0.5
    ensures IsNearMean(average, x)
  {
    var y := h as real / 100.0;
    assert Abs(y - x) <= 0.005;
    assert Abs(average - x) <= Abs(average - y) + 0.005;
  }

  lemma HundredthsInRange(fl: real -> real, h: int, x: real)
    requires RoundsToDoubles(fl) && Abs(x) <= MAX_SUM as real && -0.5 <= 100.0 * x - h as real <= 0.5
    ensures IsDoubleOfHundredths(fl(h as real / 100.0), h)
  {
    var y := h as real / 100.0;
    assert h == 0 || h >= 1 || h <= -1;
    assert y == 0.0 || Abs(y) >= 0.01;
    assert Abs(y) <= Abs(x) + 0.005;
    ErrorInRange(fl, y);
  }

  /** The average is the double of `h` hundredths, which for sums up to the bound are nearest ones. */
  predicate Reports(fl: real -> real, average: real, h: int, sum: int, count: int) {
    && average == fl(h as real / 100.0)
    && (SmallEnough(sum, count) ==> IsNearestHundredth(h, sum, count) && IsDoubleOfHundredths(average, h))
  }

  /** And for sums up to the bound it is close to the exact mean. */
  ghost predicate IsMean(fl: real -> real, average: real, sum: int, count: int) {
    && (exists h :: Reports(fl, average, h, sum, count))
    && (SmallEnough(sum, count) ==> IsNearMean(average, sum as real / count as real))
  }

  lemma AverageIsMean(fl: real -> real, sum: int, count: nat)
    requires RoundsToDoubles(fl) && count >= 1
    ensures IsMean(fl, AverageMs(fl, sum, count), sum, count)
  {
    var h, x := MeanHundredths(fl, sum, count), sum as real / count as real;
    if SmallEnough(sum, count) {
      MeanIsNearest(fl, sum, count);
      QuotientBounds(x, count as real, sum, TWO_TO_53);
      NearestIsNear(h, sum, count, x);
      HundredthsInRange(fl, h, x);
      NearTheMean(AverageMs(fl, sum, count), h, x);
    }
    assert Reports(fl, AverageMs(fl, sum, count), h, sum, count);
  }

  /** The same with its numbers: up to 22 million million ms, half a hundredth and a 2^53rd. */
  lemma AverageIsNear(fl: real -> real, sum: int, count: nat)
    requires RoundsToDoubles(fl) && 1 <= count <= 9007199254740992
    requires -22_000_000_000_000 <= sum <= 22_000_000_000_000
    ensures var mean := sum as real / count as real;
      (Abs(AverageMs(fl, sum, count) - mean) - 0.005) * 9007199254740992.0 <= Abs(mean) + 0.005
  {
    AverageIsMean(fl, sum, count);
  }
}
