/**
 Money strings: the accepted grammar (apps/api/src/common/validators/decimal.validator.ts), the exact
 conversion to minor units (apps/api/src/common/utils/money.util.ts) and the clean-up of typed
 amounts (apps/admin/src/pages/products/ProductFormPage.tsx).
 */
module Money {
  import opened JsStrings
  import opened Decimals
  import opened Sequences

  /** `^\d{1,whole}(\.\d{1,places})?$` */
  ghost predicate MatchesDecimal(s: string, whole: nat, places: nat) {
    exists i, f :: AllDigits(i) && 1 <= |i| <= whole && AllDigits(f) && |f| <= places && s == Written(i, f)
  }

  /** An integer part and a fraction part as they are written; no fraction, no point. */
  function Written(i: string, f: string): string {
    if f == "" then i else i + "." + f
  }

  ghost predicate IsMoneyString(s: string) {
    MatchesDecimal(s, 10, 2)
  }

  function WholeLength(s: string): (n: nat)
    ensures n <= |s|
    ensures forall i :: 0 <= i < n ==> IsDigit(s[i])
    ensures n < |s| ==> !IsDigit(s[n])
  {
    if s != "" && IsDigit(s[0]) then 1 + WholeLength(s[1..]) else 0
  }

  function WholePart(s: string): (i: string)
    ensures AllDigits(i)
  {
    s[..WholeLength(s)]
  }

  function FractionPart(s: string): string {
    var n := WholeLength(s);
    if n < |s| then s[n + 1..] else ""
  }

  lemma {:induction false} WholeLengthOf(i: string, rest: string)
    requires AllDigits(i) && (rest == "" || !IsDigit(rest[0]))
    ensures WholeLength(i + rest) == |i|
  {
    if i == "" {
      assert i + rest == rest;
    } else {
      WholeLengthOf(i[1..], rest);
      assert (i + rest)[1..] == i[1..] + rest;
    }
  }

  /** The two parts of an accepted string are determined by it. */
  lemma PartsOf(i: string, f: string)
    requires AllDigits(i) && AllDigits(f)
    ensures WholePart(Written(i, f)) == i && FractionPart(Written(i, f)) == f
  {
    if f == "" {
      WholeLengthOf(i, "");
      assert i + "" == i;
    } else {
      WholeLengthOf(i, "." + f);
      assert i + "." + f == i + ("." + f);
    }
  }

  /** An exact decimal, as Prisma.Decimal holds it: `digits` divided by ten to the `scale`. */
  datatype Dec = Dec(digits: int, scale: nat)

  function Times(d: Dec, k: nat): Dec {
    Dec(d.digits * k, d.scale)
  }

  /** The number a decimal stands for, if it is an integer. */
  predicate IsInteger(d: Dec, n: int) {
    d.digits == n * Pow10(d.scale)
  }

  function ToNumber(d: Dec): int
    requires Pow10(d.scale) > 0
  {
    d.digits / Pow10(d.scale)
  }

  /** `new Prisma.Decimal(amount).times(100).toNumber()` of a decimal with at most two places. */
  function MinorUnitsOf(amount: Dec): int
    requires amount.scale <= 2
  {
    Pow10Positive(amount.scale);
    ToNumber(Times(amount, 100))
  }

  function ParseDecimal(s: string): Dec
    requires AllDigits(FractionPart(s))
  {
    Dec(Value(WholePart(s)) * Pow10(|FractionPart(s)|) + Value(FractionPart(s)), |FractionPart(s)|)
  }

  /** The same of an accepted string. */
  function ToMinorUnits(amount: string): int
    requires IsMoneyString(amount)
  {
    MoneyParts(amount);
    MinorUnitsOf(ParseDecimal(amount))
  }

  lemma {:induction false} Pow10Positive(k: nat)
    ensures Pow10(k) > 0
  {
    if k > 0 {
      Pow10Positive(k - 1);
    }
  }

  lemma SmallPowers()
    ensures Pow10(0) == 1 && Pow10(1) == 10 && Pow10(2) == 100
  {
    assert Pow10(1) == 10 * Pow10(0) && Pow10(2) == 10 * Pow10(1);
  }

  lemma MoneyParts(s: string)
    requires IsMoneyString(s)
    ensures var i, f := WholePart(s), FractionPart(s);
      AllDigits(i) && 1 <= |i| <= 10 && AllDigits(f) && |f| <= 2 && s == Written(i, f)
  {
    var i, f :| AllDigits(i) && 1 <= |i| <= 10 && AllDigits(f) && |f| <= 2 && s == Written(i, f);
    PartsOf(i, f);
  }

  // ---------------------------------------------------------------- converting a decimal

  /** `a` is less than `b` as decimals. */
  predicate DecLess(a: Dec, b: Dec) {
    a.digits * Pow10(b.scale) < b.digits * Pow10(a.scale)
  }

  predicate DecEqual(a: Dec, b: Dec) {
    a.digits * Pow10(b.scale) == b.digits * Pow10(a.scale)
  }

  /** `h` is a hundred times `d / p`, for the powers of ten that occur. */
  predicate IsHundredfold(d: int, p: nat, h: int) {
    (p == 1 && h == 100 * d) || (p == 10 && h == 10 * d) || (p == 100 && h == d)
  }

  lemma MinorUnitsAreHundredfold(d: Dec)
    requires d.scale <= 2
    ensures IsHundredfold(d.digits, Pow10(d.scale), MinorUnitsOf(d))
  {
    SmallPowers();
    HundredfoldIsExact(d.digits, Pow10(d.scale));
  }

  lemma HundredfoldIsExact(d: int, p: nat)
    requires p == 1 || p == 10 || p == 100
    ensures IsHundredfold(d, p, d * 100 / p)
  {
  }

  /** The conversion is exact for every decimal with two places at most, the negative ones included. */
  lemma MinorUnitsAreExact(d: Dec)
    requires d.scale <= 2
    ensures IsInteger(Times(d, 100), MinorUnitsOf(d))
  {
    SmallPowers();
    MinorUnitsAreHundredfold(d);
  }

  const TEN_POW_12 := 1_000_000_000_000

  /** What a column of twelve digits with two places holds: less than ten to the ten, either sign. */
  predicate FitsColumn(d: Dec) {
    d.scale <= 2 && -(Pow10(10 + d.scale) as int) < d.digits < Pow10(10 + d.scale)
  }

  lemma Pow10Of10()
    ensures Pow10(10) == 10_000_000_000
  {
    SmallPowers();
    assert Pow10(3) == 1000 && Pow10(4) == 10000 && Pow10(5) == 100000;
    assert Pow10(6) == 1000000 && Pow10(7) == 10000000 && Pow10(8) == 100000000 && Pow10(9) == 1000000000;
  }

  lemma ColumnPowers()
    ensures Pow10(10) == 10_000_000_000 && Pow10(11) == 100_000_000_000 && Pow10(12) == TEN_POW_12
  {
    Pow10Of10();
    assert Pow10(11) == 10 * Pow10(10) && Pow10(12) == 10 * Pow10(11);
  }

  /** The minor units lie below ten to the twelve exactly if the amount fits its column, so they are exact numbers. */
  lemma MinorUnitsAreSafeIff(d: Dec)
    requires d.scale <= 2
    ensures FitsColumn(d) <==> -TEN_POW_12 < MinorUnitsOf(d) < TEN_POW_12
    ensures TEN_POW_12 < 0x20_0000_0000_0000
  {
    SmallPowers();
    ColumnPowers();
    MinorUnitsAreHundredfold(d);
  }

  lemma HundredfoldsCompare(a: int, p: nat, g: int, b: int, q: nat, h: int)
    requires IsHundredfold(a, p, g) && IsHundredfold(b, q, h)
    ensures (a * q < b * p <==> g < h) && (a * q == b * p <==> g == h)
  {
  }

  /** Order and equality of decimals, whatever their scales, are those of their minor units. */
  lemma MinorUnitsKeepOrder(a: Dec, b: Dec)
    requires a.scale <= 2 && b.scale <= 2
    ensures DecLess(a, b) <==> MinorUnitsOf(a) < MinorUnitsOf(b)
    ensures DecEqual(a, b) <==> MinorUnitsOf(a) == MinorUnitsOf(b)
  {
    MinorUnitsAreHundredfold(a);
    MinorUnitsAreHundredfold(b);
    HundredfoldsCompare(a.digits, Pow10(a.scale), MinorUnitsOf(a), b.digits, Pow10(b.scale), MinorUnitsOf(b));
  }

  // ---------------------------------------------------------------- converting an accepted string

  /** What the amount is in hundredths: the reference for the conversion. */
  function Hundredths(i: string, f: string): nat
    requires AllDigits(i) && AllDigits(f) && |f| <= 2
  {
    100 * Value(i) + Value(f) * (if |f| == 2 then 1 else 10)
  }

  /** The minor units of an accepted string are its hundredths, read off its two parts. */
  lemma ToMinorUnitsIsExact(s: string)
    requires IsMoneyString(s)
    ensures AllDigits(FractionPart(s)) && |FractionPart(s)| <= 2
    ensures IsInteger(Times(ParseDecimal(s), 100), ToMinorUnits(s))
    ensures ToMinorUnits(s) == Hundredths(WholePart(s), FractionPart(s))
  {
    MoneyParts(s);
    SmallPowers();
    MinorUnitsAreExact(ParseDecimal(s));
    MinorUnitsAreHundredfold(ParseDecimal(s));
    assert FractionPart(s) == "" ==> Value(FractionPart(s)) == 0;
  }

  lemma AcceptedFitsColumn(s: string)
    requires IsMoneyString(s)
    ensures AllDigits(FractionPart(s)) && FitsColumn(ParseDecimal(s)) && ParseDecimal(s).digits >= 0
  {
    MoneyParts(s);
    var i, f := WholePart(s), FractionPart(s);
    ValueConcat(i, f);
    ValueBound(i + f);
    Pow10Monotone(|i + f|, 10 + |f|);
  }

  lemma {:induction false} Pow10Monotone(a: nat, b: nat)
    requires a <= b
    ensures Pow10(a) <= Pow10(b)
  {
    if a < b {
      Pow10Monotone(a, b - 1);
      Pow10Positive(b - 1);
    }
  }

  /** Every accepted amount is below ten to the twelve, so the JavaScript number holds it exactly. */
  lemma ToMinorUnitsIsSafe(s: string)
    requires IsMoneyString(s)
    ensures 0 <= ToMinorUnits(s) < TEN_POW_12 < 0x20_0000_0000_0000
  {
    AcceptedFitsColumn(s);
    MinorUnitsAreSafeIff(ParseDecimal(s));
    MinorUnitsAreHundredfold(ParseDecimal(s));
  }

  /** Order and equality of amounts are those of their minor units. */
  lemma ToMinorUnitsKeepsOrder(s: string, t: string)
    requires IsMoneyString(s) && IsMoneyString(t)
    ensures AllDigits(FractionPart(s)) && AllDigits(FractionPart(t))
    ensures DecLess(ParseDecimal(s), ParseDecimal(t)) <==> ToMinorUnits(s) < ToMinorUnits(t)
    ensures DecEqual(ParseDecimal(s), ParseDecimal(t)) <==> ToMinorUnits(s) == ToMinorUnits(t)
  {
    MoneyParts(s);
    MoneyParts(t);
    MinorUnitsKeepOrder(ParseDecimal(s), ParseDecimal(t));
  }

  // ---------------------------------------------------------------- printing an amount

  function TwoDigits(n: nat): (s: string)
    requires n < 100
    ensures |s| == 2 && AllDigits(s)
  {
    [DigitChar(n / 10), DigitChar(n % 10)]
  }

  /** The canonical text of an amount of minor units. */
  function Print(n: nat): string {
    Decimal(n / 100) + "." + TwoDigits(n % 100)
  }

  lemma ValueOfTwoDigits(n: nat)
    requires n < 100
    ensures Value(TwoDigits(n)) == n
  {
    var s := TwoDigits(n);
    assert s[..1][..0] == "" && s[..1][0] == s[0];
    assert Value(s[..1]) == n / 10;
  }

  /** Printing and converting are inverse to each other, up to the way an amount is written. */
  lemma PrintRoundTrip(n: nat)
    requires n < TEN_POW_12
    ensures IsMoneyString(Print(n)) && ToMinorUnits(Print(n)) == n
  {
    var i, f := Decimal(n / 100), TwoDigits(n % 100);
    Pow10Of10();
    DecimalLengthIff(n / 100, 10);
    assert Print(n) == Written(i, f);
    PartsOf(i, f);
    ToMinorUnitsIsExact(Print(n));
    ValueOfDecimal(n / 100);
    ValueOfTwoDigits(n % 100);
  }

  lemma ReprintIsSameAmount(s: string)
    requires IsMoneyString(s)
    ensures 0 <= ToMinorUnits(s) && IsMoneyString(Print(ToMinorUnits(s)))
    ensures AllDigits(FractionPart(s)) && AllDigits(FractionPart(Print(ToMinorUnits(s))))
    ensures DecEqual(ParseDecimal(Print(ToMinorUnits(s))), ParseDecimal(s))
  {
    ToMinorUnitsIsSafe(s);
    PrintRoundTrip(ToMinorUnits(s));
    ToMinorUnitsKeepsOrder(Print(ToMinorUnits(s)), s);
  }

  // ---------------------------------------------------------------- cleaning up typed amounts

  /** `.replace(',', '.')`: the first comma only. */
  function ReplaceFirstComma(s: string): string {
    if s == "" then "" else if s[0] == ',' then "." + s[1..] else [s[0]] + ReplaceFirstComma(s[1..])
  }

  predicate IsDigitOrPoint(c: char) {
    IsDigit(c) || c == '.'
  }

  /** `.replace(/[^\d.]/g, '')` */
  function KeepDigitsAndPoints(s: string): string {
    if s == "" then "" else (if IsDigitOrPoint(s[0]) then [s[0]] else "") + KeepDigitsAndPoints(s[1..])
  }

  function SanitizeDecimalInput(value: string): string {
    KeepDigitsAndPoints(ReplaceFirstComma(Trim(value)))
  }

  predicate Clean(s: string) {
    forall i :: 0 <= i < |s| ==> IsDigitOrPoint(s[i])
  }

  lemma {:induction false} KeptIsClean(s: string)
    ensures Clean(KeepDigitsAndPoints(s))
  {
    if s != "" {
      KeptIsClean(s[1..]);
    }
  }

  lemma CleanIsTrimmed(s: string)
    requires Clean(s)
    ensures Trim(s) == s
  {
    if s != "" {
      assert IsDigitOrPoint(s[0]) && IsDigitOrPoint(s[|s| - 1]);
    }
  }

  lemma {:induction false} CleanIsFixed(s: string)
    requires Clean(s)
    ensures ReplaceFirstComma(s) == s && KeepDigitsAndPoints(s) == s
  {
    if s != "" {
      assert IsDigitOrPoint(s[0]);
      CleanIsFixed(s[1..]);
      assert [s[0]] + s[1..] == s;
    }
  }

  /** A digit or a point as it is, any other character as nothing. */
  function AmountUnit(c: char): string {
    if '0' <= c <= '9' || c == '.' then [c] else ""
  }

  /** The digits and points of a text. */
  function AmountOf(s: string): string {
    FlatMap(s, AmountUnit)
  }

  lemma {:induction false} KeptIsAmount(s: string)
    ensures KeepDigitsAndPoints(s) == AmountOf(s)
  {
    if s != "" {
      KeptIsAmount(s[1..]);
    }
  }

  lemma {:induction false} NoAmount(s: string)
    requires forall c :: c in s ==> !('0' <= c <= '9') && c != '.'
    ensures AmountOf(s) == ""
  {
    if s != "" {
      assert s[0] in s && forall c :: c in s[1..] ==> c in s;
      NoAmount(s[1..]);
    }
  }

  lemma {:induction false} CommaReplaced(a: string, b: string)
    requires ',' !in a
    ensures ReplaceFirstComma(a + "," + b) == a + "." + b
  {
    var s := a + "," + b;
    if a == "" {
      assert s[1..] == b;
    } else {
      CommaReplaced(a[1..], b);
      assert s[0] == a[0] && s[1..] == a[1..] + "," + b;
      assert [a[0]] + (a[1..] + "." + b) == a + "." + b;
    }
  }

  lemma {:induction false} NoCommaStays(s: string)
    requires ',' !in s
    ensures ReplaceFirstComma(s) == s
  {
    if s != "" {
      NoCommaStays(s[1..]);
      assert [s[0]] + s[1..] == s;
    }
  }

  lemma CommaInside(a: string, b: string, pre: string, core: string, post: string)
    requires a + "," + b == pre + core + post && ',' !in a && ',' !in pre && ',' !in post
    ensures |pre| <= |a| && |post| <= |b|
    ensures a == pre + a[|pre|..] && b == b[..|b| - |post|] + post
    ensures core == a[|pre|..] + "," + b[..|b| - |post|]
  {
    var s := a + "," + b;
    assert s[|a|] == ',';
    assert forall i :: 0 <= i < |pre| ==> s[i] == pre[i];
    assert forall i :: |s| - |post| <= i < |s| ==> s[i] == post[i - |s| + |post|];
    assert |pre| <= |a| && |post| <= |b|;
    assert pre == s[..|pre|] && core == s[|pre|..|s| - |post|] && post == s[|s| - |post|..];
  }

  /** Trimming takes spaces only, so of `a,b` it leaves ends of `a` and `b` with the same digits and points. */
  lemma TrimAroundComma(a: string, b: string) returns (a': string, b': string)
    requires ',' !in a
    ensures Trim(a + "," + b) == a' + "," + b' && ',' !in a'
    ensures AmountOf(a') == AmountOf(a) && AmountOf(b') == AmountOf(b)
  {
    var pre, post := TrimParts(a + "," + b);
    assert forall c :: c in pre || c in post ==> c in pre + post;
    CommaInside(a, b, pre, Trim(a + "," + b), post);
    a', b' := a[|pre|..], b[..|b| - |post|];
    NoAmount(pre);
    NoAmount(post);
    FlatMapConcat(pre, a', AmountUnit);
    FlatMapConcat(b', post, AmountUnit);
  }

  /** What is typed with a decimal comma keeps its digits and points on either side of a point. */
  lemma SanitizeTurnsCommaIntoPoint(a: string, b: string)
    requires ',' !in a
    ensures SanitizeDecimalInput(a + "," + b) == AmountOf(a) + "." + AmountOf(b)
  {
    var a', b' := TrimAroundComma(a, b);
    CommaReplaced(a', b');
    KeptIsAmount(a' + "." + b');
    FlatMapConcat(a' + ".", b', AmountUnit);
    FlatMapConcat(a', ".", AmountUnit);
    FlatMapOne('.', AmountUnit);
  }

  /** Without a comma just the digits and points stay. */
  lemma SanitizeWithoutComma(s: string)
    requires ',' !in s
    ensures SanitizeDecimalInput(s) == AmountOf(s)
  {
    var pre, post := TrimParts(s);
    assert forall c :: c in Trim(s) ==> c in pre + Trim(s) + post;
    assert forall c :: c in pre || c in post ==> c in pre + post;
    NoCommaStays(Trim(s));
    KeptIsAmount(Trim(s));
    NoAmount(pre);
    NoAmount(post);
    FlatMapConcat(pre + Trim(s), post, AmountUnit);
    FlatMapConcat(pre, Trim(s), AmountUnit);
  }

  lemma {:induction false} AmountOfDigits(s: string)
    requires AllDigits(s)
    ensures AmountOf(s) == s
  {
    if s != "" {
      AmountOfDigits(s[1..]);
      assert [s[0]] + s[1..] == s;
    }
  }

  lemma AmountAmongOthers(before: string, digits: string, after: string)
    requires AllDigits(digits)
    requires forall c :: c in before || c in after ==> !('0' <= c <= '9') && c != '.'
    ensures AmountOf(before + digits + after) == digits
  {
    NoAmount(before);
    NoAmount(after);
    AmountOfDigits(digits);
    FlatMapConcat(before + digits, after, AmountUnit);
    FlatMapConcat(before, digits, AmountUnit);
  }

  /** An amount with a decimal comma, a currency in front and a unit after it, becomes the decimal string. */
  lemma TypedAmountIsRead(before: string, i: string, f: string, unit: string)
    requires AllDigits(i) && AllDigits(f) && ',' !in before
    requires forall c :: c in before || c in unit ==> !('0' <= c <= '9') && c != '.'
    ensures SanitizeDecimalInput(before + i + "," + (f + unit)) == i + "." + f
  {
    assert ',' !in before + i;
    SanitizeTurnsCommaIntoPoint(before + i, f + unit);
    AmountAmongOthers(before, i, "");
    AmountAmongOthers("", f, unit);
    assert before + i + "" == before + i && "" + f + unit == f + unit;
  }

  /** Cleaning up twice is cleaning up once. */
  lemma SanitizeIsIdempotent(value: string)
    ensures SanitizeDecimalInput(SanitizeDecimalInput(value)) == SanitizeDecimalInput(value)
  {
    KeptIsClean(ReplaceFirstComma(Trim(value)));
    CleanIsTrimmed(SanitizeDecimalInput(value));
    CleanIsFixed(SanitizeDecimalInput(value));
  }

  /** What the API accepts, of any width, is left as it is. */
  lemma SanitizeKeepsAccepted(s: string, whole: nat, places: nat)
    requires MatchesDecimal(s, whole, places)
    ensures SanitizeDecimalInput(s) == s
  {
    var i, f :| AllDigits(i) && 1 <= |i| <= whole && AllDigits(f) && |f| <= places && s == Written(i, f);
    CleanIsTrimmed(s);
    CleanIsFixed(s);
  }
}
