/**
 Arithmetic in doubles (binary64 of IEEE 754) as far as averages need it: a rounding function that
 takes the exact result of an operation to a nearest double, with ties left open.
 */
module Doubles {

  function Abs(x: real): real {
    if x < 0.0 then -x else x
  }

  /** Two to the power `e`. */
  function Scale(e: int): (s: real)
    ensures s > 0.0
    decreases if e < 0 then -e else e
  {
    if e == 0 then 1.0 else if e > 0 then 2.0 * Scale(e - 1) else Scale(e + 1) / 2.0
  }

  lemma ScaleUp(e: int)
    ensures Scale(e + 1) == 2.0 * Scale(e)
  {
  }

  function Times(k: int, unit: real): real {
    k as real * unit
  }

  /** `y` is a multiple of the unit, and none lies nearer to `x`. */
  ghost predicate IsNearestMultiple(y: real, x: real, unit: real) {
    (exists k: int :: y == Times(k, unit)) && Abs(y - x) <= unit / 2.0
  }

  /** From `Scale(e)` to the next power of two the doubles are the multiples of `Scale(e - 52)`. */
  ghost predicate IsNearestDouble(y: real, x: real, e: int) {
    Scale(e) <= Abs(x) < Scale(e + 1) ==> IsNearestMultiple(y, x, Scale(e - 52))
  }

  ghost predicate RoundsToDoubles(fl: real -> real) {
    fl(0.0) == 0.0 && forall x: real, e: int :: -1022 <= e < 1023 ==> IsNearestDouble(fl(x), x, e)
  }

  lemma {:induction false} ExponentBetween(x: real, low: int, high: int) returns (e: int)
    requires low < high && Scale(low) <= x < Scale(high)
    ensures low <= e < high && Scale(e) <= x < Scale(e + 1)
    decreases high - low
  {
    if low + 1 == high || x < Scale(low + 1) {
      e := low;
    } else {
      e := ExponentBetween(x, low + 1, high);
    }
  }

  const TWO_TO_53 := 9007199254740992.0

  lemma ScaleUp4(e: int)
    ensures Scale(e + 4) == 16.0 * Scale(e)
  {
    ScaleUp(e);
    ScaleUp(e + 1);
    ScaleUp(e + 2);
    ScaleUp(e + 3);
  }

  lemma ScaleUp16(e: int)
    ensures Scale(e + 16) == 65536.0 * Scale(e)
  {
    ScaleUp4(e);
    ScaleUp4(e + 4);
    ScaleUp4(e + 8);
    ScaleUp4(e + 12);
  }

  /** The unit of the doubles from `Scale(e)` on. */
  lemma UnitBelow(e: int)
    ensures Scale(e) == Scale(e - 52) * (TWO_TO_53 / 2.0)
  {
    ScaleUp16(e - 52);
    ScaleUp16(e - 36);
    ScaleUp16(e - 20);
    ScaleUp4(e - 4);
  }

  lemma RangeValues()
    ensures Scale(53) == TWO_TO_53 && Scale(-53) * TWO_TO_53 == 1.0
  {
    UnitBelow(52);
    ScaleUp(52);
    UnitBelow(-1);
  }

  lemma HalfUnit(error: real, unit: real, size: real)
    requires error <= unit / 2.0 && unit * (TWO_TO_53 / 2.0) <= size
    ensures error * TWO_TO_53 <= size
  {
  }

  /** Within the range of the exponents one operation errs by at most a 2^53rd. */
  lemma RelativeError(fl: real -> real, x: real, low: int, high: int)
    requires RoundsToDoubles(fl) && -1022 <= low < high <= 1023
    requires x == 0.0 || Scale(low) <= Abs(x) < Scale(high)
    ensures Abs(fl(x) - x) * TWO_TO_53 <= Abs(x)
  {
    if x != 0.0 {
      var e := ExponentBetween(Abs(x), low, high);
      assert IsNearestDouble(fl(x), x, e);
      UnitBelow(e);
      HalfUnit(Abs(fl(x) - x), Scale(e - 52), Abs(x));
    }
  }

  predicate InRange(x: real) {
    x == 0.0 || (1.0 <= Abs(x) * TWO_TO_53 && Abs(x) < TWO_TO_53)
  }

  lemma ErrorInRange(fl: real -> real, x: real)
    requires RoundsToDoubles(fl) && InRange(x)
    ensures Abs(fl(x) - x) * TWO_TO_53 <= Abs(x)
  {
    RangeValues();
    RelativeError(fl, x, -53, 53);
  }

  // ---------------------------------------------------------------- such a rounding exists

  ghost predicate InBinade(x: real, e: int) {
    -1022 <= e < 1023 && Scale(e) <= Abs(x) < Scale(e + 1)
  }

  function RoundTo(x: real, unit: real): real
    requires unit > 0.0
  {
    Times((x / unit + 0.5).Floor, unit)
  }

  /** Rounds to the nearest double, halves up. */
  ghost function Nearest(x: real): real {
    if e: int :| InBinade(x, e) then RoundTo(x, Scale(e - 52)) else 0.0
  }

  lemma RoundToIsNearest(x: real, unit: real)
    requires unit > 0.0
    ensures IsNearestMultiple(RoundTo(x, unit), x, unit)
  {
    var q := x / unit;
    var n := (q + 0.5).Floor;
    var d := n as real - q;
    assert q * unit == x;
    assert d * unit == Times(n, unit) - x;
    var above, below := 0.5 - d, 0.5 + d;
    assert above * unit >= 0.0 && below * unit >= 0.0;
    assert above * unit == unit / 2.0 - d * unit && below * unit == unit / 2.0 + d * unit;
  }

  lemma {:induction false} ScaleGrows(a: int, b: int)
    requires a <= b
    ensures Scale(a) <= Scale(b)
    decreases b - a
  {
    if a < b {
      ScaleGrows(a, b - 1);
      ScaleUp(b - 1);
    }
  }

  lemma NearestIsNearest(x: real, e: int)
    requires -1022 <= e < 1023
    ensures IsNearestDouble(Nearest(x), x, e)
  {
    if InBinade(x, e) {
      var d: int :| InBinade(x, d) && Nearest(x) == RoundTo(x, Scale(d - 52));
      if d < e {
        ScaleGrows(d + 1, e);
      } else if e < d {
        ScaleGrows(e + 1, d);
      }
      RoundToIsNearest(x, Scale(d - 52));
    }
  }

  lemma RoundingExists()
    ensures RoundsToDoubles(Nearest)
  {
    forall x: real, e: int | -1022 <= e < 1023 ensures IsNearestDouble(Nearest(x), x, e) {
      NearestIsNearest(x, e);
    }
  }
}
