/** Exact decimal arithmetic on strings: comparison, rounded change, chart scaling. */
module Decimals {
  import opened Wrappers
  import opened Quotients
  import opened Digits

  // The groups of /^(-?)(\d+)(?:\.(\d+))?$/
  datatype Parts = Parts(negative: bool, whole: string, fraction: string)

  datatype DecimalError = NotDecimal | BaselineNotPositive | NegativePrecision

  predicate NonEmptyDigits(s: string) {
    s != "" && AllDigits(s)
  }

  function FindDot(s: string): (r: Option<nat>)
    ensures r.Some? ==> r.value < |s| && s[r.value] == '.' && '.' !in s[..r.value]
    ensures r.None? ==> '.' !in s
  {
    if s == "" then None
    else if s[0] == '.' then Some(0)
    else
      var rest := FindDot(s[1..]);
      if rest.Some? then Some(rest.value + 1) else None
  }

  function ParseUnsigned(negative: bool, body: string): Option<Parts> {
    var dot := FindDot(body);
    if dot.None? then
      (if NonEmptyDigits(body) then Some(Parts(negative, body, "")) else None)
    else if NonEmptyDigits(body[..dot.value]) && NonEmptyDigits(body[dot.value + 1..]) then
      Some(Parts(negative, body[..dot.value], body[dot.value + 1..]))
    else None
  }

  function Parse(s: string): Option<Parts> {
    var negative := s != "" && s[0] == '-';
    ParseUnsigned(negative, if negative then s[1..] else s)
  }

  predicate IsDecimal(s: string) {
    Parse(s).Some?
  }

  predicate PartsValid(p: Parts) {
    AllDigits(p.whole) && AllDigits(p.fraction)
  }

  lemma ParsedPartsAreValid(s: string)
    requires IsDecimal(s)
    ensures PartsValid(Parse(s).value)
  {
  }

  function Negated(negative: bool, n: int): int {
    if negative then -n else n
  }

  // decimalInteger: all digits read as one integer at the given scale.
  function IntegerAt(p: Parts, scale: nat): int
    requires PartsValid(p)
  {
    PadEndDigits(p.fraction, scale);
    ValueConcat(p.whole, PadEnd(p.fraction, scale));
    Negated(p.negative, Value(p.whole + PadEnd(p.fraction, scale)))
  }

  function Max(a: nat, b: nat): nat {
    if a >= b then a else b
  }

  function IntegerOf(s: string, scale: nat): int
    requires IsDecimal(s)
  {
    ParsedPartsAreValid(s);
    IntegerAt(Parse(s).value, scale)
  }

  function FractionLength(s: string): nat
    requires IsDecimal(s)
  {
    |Parse(s).value.fraction|
  }

  function CommonScale(a: string, b: string): nat
    requires IsDecimal(a) && IsDecimal(b)
  {
    Max(FractionLength(a), FractionLength(b))
  }

  function CompareDecimals(left: string, right: string): Result<int, DecimalError> {
    if !IsDecimal(left) || !IsDecimal(right) then Err(NotDecimal)
    else
      var scale := CommonScale(left, right);
      var l, r := IntegerOf(left, scale), IntegerOf(right, scale);
      Ok(if l < r then -1 else if l > r then 1 else 0)
  }

  // Rounds n / d to the nearest integer, halves up.
  function RoundRatio(n: nat, d: nat): nat
    requires d > 0
  {
    n / d + if n % d * 2 >= d then 1 else 0
  }

  // slice(0, -n) and slice(-n), where -0 counts from the front.
  function SliceBefore(s: string, n: nat): string
    requires n <= |s|
  {
    if n == 0 then "" else s[..|s| - n]
  }

  function SliceLast(s: string, n: nat): string
    requires n <= |s|
  {
    if n == 0 then s else s[|s| - n..]
  }

  function Format(negative: bool, quotient: nat, fractionDigits: nat): string {
    PadStartDigits(ToText(quotient), fractionDigits + 1);
    var raw := PadStart(ToText(quotient), fractionDigits + 1);
    (if negative && quotient != 0 then "-" else "")
    + (SliceBefore(raw, fractionDigits) + "." + SliceLast(raw, fractionDigits))
  }

  function DecimalChange(current: string, baseline: string, fractionDigits: int): Result<string, DecimalError> {
    if !IsDecimal(current) || !IsDecimal(baseline) then Err(NotDecimal)
    else
      var scale := CommonScale(current, baseline);
      var c, b := IntegerOf(current, scale), IntegerOf(baseline, scale);
      if b <= 0 then Err(BaselineNotPositive)
      else if fractionDigits < 0 then Err(NegativePrecision)
      else
        var numerator := (c - b) * Pow10(fractionDigits);
        var negative := numerator < 0;
        var magnitude := if negative then -numerator else numerator;
        Ok(Format(negative, RoundRatio(magnitude, b), fractionDigits))
  }

  /* ---------- exact values ---------- */

  function Real(p: Parts): real
    requires PartsValid(p)
  {
    IntegerAt(p, |p.fraction|) as real / Pow10(|p.fraction|) as real
  }

  function RealOf(s: string): real
    requires IsDecimal(s)
  {
    ParsedPartsAreValid(s);
    Real(Parse(s).value)
  }

  lemma ScaleUp(p: Parts, scale: nat)
    requires PartsValid(p) && |p.fraction| <= scale
    ensures IntegerAt(p, scale) == IntegerAt(p, |p.fraction|) * Pow10(scale - |p.fraction|)
  {
    hide Value, Pow10, Zeros;
    var zeros := Zeros(scale - |p.fraction|);
    var digits := p.whole + p.fraction;
    assert PadEnd(p.fraction, scale) == p.fraction + zeros;
    assert p.whole + (p.fraction + zeros) == digits + zeros;
    ValueConcat(p.whole, p.fraction);
    ValueConcat(digits, zeros);
    ValueZeros(scale - |p.fraction|);
    NegatedProduct(p.negative, Value(digits), Pow10(scale - |p.fraction|));
  }

  lemma NegatedProduct(negative: bool, a: nat, b: nat)
    ensures Negated(negative, a * b) == Negated(negative, a) * b
  {
  }

  lemma {:induction false} CancelScale(n: int, a: nat, b: nat, scaled: int, unit: nat)
    requires a > 0 && b > 0 && scaled == n * b && unit == a * b
    ensures scaled as real == n as real / a as real * unit as real
  {
    var q, x, y := n as real / a as real, a as real, b as real;
    assert scaled as real == n as real * y;
    assert unit as real == x * y;
    assert q * x == n as real;
    Associates(q, x, y);
  }

  lemma Associates(x: real, y: real, z: real)
    ensures x * y * z == x * (y * z)
  {
  }

  // An integer at a sufficient scale is the exact value times the power of ten.
  lemma {:induction false} IntegerIsScaledReal(p: Parts, scale: nat)
    requires PartsValid(p) && |p.fraction| <= scale
    ensures IntegerAt(p, scale) as real == Real(p) * Pow10(scale) as real
  {
    hide IntegerAt, Pow10;
    var f := |p.fraction|;
    ScaleUp(p, scale);
    Pow10Adds(f, scale - f);
    CancelScale(IntegerAt(p, f), Pow10(f), Pow10(scale - f), IntegerAt(p, scale), Pow10(scale));
  }

  lemma {:induction false} ScaleOrder(x: real, y: real, k: real)
    requires k > 0.0
    ensures x < y <==> x * k < y * k
  {
    if x < y {
      assert (y - x) * k > 0.0;
    } else {
      assert (x - y) * k >= 0.0;
    }
  }

  // compareDecimals is the sign of the exact difference, for any two scales.
  lemma CompareIsExact(left: string, right: string)
    requires IsDecimal(left) && IsDecimal(right)
    ensures CompareDecimals(left, right) ==
            Ok(if RealOf(left) < RealOf(right) then -1 else if RealOf(left) > RealOf(right) then 1 else 0)
  {
    hide Parse, Real, IntegerAt, FindDot;
    ParsedPartsAreValid(left);
    ParsedPartsAreValid(right);
    var scale := CommonScale(left, right);
    IntegerIsScaledReal(Parse(left).value, scale);
    IntegerIsScaledReal(Parse(right).value, scale);
    ScaleOrder(RealOf(left), RealOf(right), Pow10(scale) as real);
    ScaleOrder(RealOf(right), RealOf(left), Pow10(scale) as real);
  }

  /* ---------- rounding ---------- */

  function HalfUp(x: real): int {
    (x + 0.5).Floor
  }

  // Nearest integer, ties away from zero.
  function RoundAway(x: real): int {
    if x < 0.0 then -HalfUp(-x) else HalfUp(x)
  }

  lemma RoundAwayIsNearest(x: real)
    ensures -0.5 <= RoundAway(x) as real - x <= 0.5
    ensures x >= 0.0 ==> RoundAway(x) >= 0 && RoundAway(x) as real - x > -0.5
    ensures x <= 0.0 ==> RoundAway(x) <= 0 && RoundAway(x) as real - x < 0.5
  {
  }

  lemma RoundAwayIsMonotone(x: real, y: real)
    requires x <= y
    ensures RoundAway(x) <= RoundAway(y)
  {
  }

  lemma {:induction false} RatioSplits(n: nat, d: nat)
    requires d > 0
    ensures n as real / d as real == (n / d) as real + (n % d) as real / d as real
    ensures 0.0 <= (n % d) as real / d as real < 1.0
    ensures (n % d) * 2 >= d <==> (n % d) as real / d as real >= 0.5
  {
    var q, r := n / d, n % d;
    assert n == q * d + r;
    assert (q * d) as real == q as real * d as real;
    DivideSum(q as real, d as real, r as real);
    FractionOrder(r as real, d as real);
  }

  lemma {:induction false} DivideSum(q: real, d: real, r: real)
    requires d > 0.0
    ensures (q * d + r) / d == q + r / d
  {
    var x := r / d;
    assert x * d == r;
    assert (q + x) * d == q * d + r;
  }

  lemma {:induction false} FractionOrder(r: real, d: real)
    requires d > 0.0 && 0.0 <= r < d
    ensures 0.0 <= r / d < 1.0 && (r / d >= 0.5 <==> r * 2.0 >= d)
  {
    var x := r / d;
    assert x * d == r;
    ScaleOrder(x, 0.0, d);
    ScaleOrder(x, 1.0, d);
    ScaleOrder(x, 0.5, d);
  }

  lemma {:induction false} RoundRatioIsHalfUp(n: nat, d: nat)
    requires d > 0
    ensures RoundRatio(n, d) == HalfUp(n as real / d as real)
  {
    RatioSplits(n, d);
  }

  /* ---------- the printed change ---------- */

  lemma {:induction false} DotAfterDigits(a: string, b: string)
    requires AllDigits(a)
    ensures FindDot(a + ("." + b)) == Some(|a|)
  {
    if a == "" {
      assert a + ("." + b) == "." + b;
    } else {
      DotAfterDigits(a[1..], b);
      assert (a + ("." + b))[1..] == a[1..] + ("." + b);
    }
  }

  // Text with digits on both sides of the point reads back as its parts.
  lemma ParseOfText(negative: bool, whole: string, fraction: string)
    requires NonEmptyDigits(whole) && AllDigits(fraction)
    ensures Parse((if negative then "-" else "") + (whole + ("." + fraction))) ==
            if fraction == "" then None else Some(Parts(negative, whole, fraction))
  {
    var body := whole + ("." + fraction);
    var s := (if negative then "-" else "") + body;
    DottedTextParses(negative, whole, fraction);
    assert IsDigit(body[0]);
    assert negative ==> s[0] == '-' && s[1..] == body;
    assert !negative ==> s == body;
    hide ParseUnsigned;
  }

  lemma DottedTextParses(negative: bool, whole: string, fraction: string)
    requires NonEmptyDigits(whole) && AllDigits(fraction)
    ensures ParseUnsigned(negative, whole + ("." + fraction)) ==
            if fraction == "" then None else Some(Parts(negative, whole, fraction))
  {
    var body := whole + ("." + fraction);
    DotAfterDigits(whole, fraction);
    assert body[..|whole|] == whole && body[|whole| + 1..] == fraction;
    hide FindDot;
  }

  // The last fractionDigits digits go behind the point, and the value read back is the quotient.
  lemma FormatRoundTrip(negative: bool, quotient: nat, fractionDigits: nat)
    requires fractionDigits >= 1
    ensures var s := Format(negative, quotient, fractionDigits);
            && IsDecimal(s)
            && |Parse(s).value.fraction| == fractionDigits
            && PartsValid(Parse(s).value)
            && IntegerAt(Parse(s).value, fractionDigits) == Negated(negative, quotient)
            && (Parse(s).value.negative <==> negative && quotient != 0)
  {
    hide FindDot, Parse, Value, Format;
    var whole, fraction := FormatShape(negative, quotient, fractionDigits);
    ParseOfText(negative && quotient != 0, whole, fraction);
    assert PadEnd(fraction, fractionDigits) == fraction;
  }

  lemma FormatShape(negative: bool, quotient: nat, fractionDigits: nat) returns (whole: string, fraction: string)
    requires fractionDigits >= 1
    ensures NonEmptyDigits(whole) && AllDigits(fraction) && |fraction| == fractionDigits
    ensures AllDigits(whole + fraction) && Value(whole + fraction) == quotient
    ensures Format(negative, quotient, fractionDigits) ==
            (if negative && quotient != 0 then "-" else "") + (whole + ("." + fraction))
  {
    hide ToText, Value;
    var text := ToText(quotient);
    TextValue(quotient);
    PadStartDigits(text, fractionDigits + 1);
    var raw := PadStart(text, fractionDigits + 1);
    whole, fraction := SliceBefore(raw, fractionDigits), SliceLast(raw, fractionDigits);
    SlicesCut(raw, fractionDigits);
    hide PadStart, SliceBefore, SliceLast;
  }

  lemma SlicesCut(raw: string, n: nat)
    requires 1 <= n < |raw| && AllDigits(raw)
    ensures var whole, fraction := SliceBefore(raw, n), SliceLast(raw, n);
            whole + fraction == raw && NonEmptyDigits(whole) && AllDigits(fraction) && |fraction| == n
  {
  }

  // With no fraction digits both slices are taken at -0: nothing, then everything, so the text starts with a point.
  lemma NoDigitsNoDecimal(negative: bool, quotient: nat)
    ensures !IsDecimal(Format(negative, quotient, 0))
  {
    var text := ToText(quotient);
    var s := Format(negative, quotient, 0);
    var sign := if negative && quotient != 0 then "-" else "";
    assert s == sign + ("." + text);
    var body := "." + text;
    assert s[0] == '-' ==> s[1..] == body;
    assert s[0] != '-' ==> s == body;
    assert FindDot(body) == Some(0);
  }

  // A printed change is a Decimal exactly when at least one fraction digit was asked for.
  lemma ChangeIsDecimalExactly(current: string, baseline: string, fractionDigits: int)
    requires DecimalChange(current, baseline, fractionDigits).Ok?
    ensures IsDecimal(DecimalChange(current, baseline, fractionDigits).value) <==> fractionDigits >= 1
  {
    hide IsDecimal, Format, RoundRatio, IntegerOf;
    var scale := CommonScale(current, baseline);
    var c, b := IntegerOf(current, scale), IntegerOf(baseline, scale);
    var numerator := (c - b) * Pow10(fractionDigits);
    var quotient := RoundRatio(if numerator < 0 then -numerator else numerator, b);
    assert DecimalChange(current, baseline, fractionDigits) == Ok(Format(numerator < 0, quotient, fractionDigits));
    if fractionDigits >= 1 {
      FormatRoundTrip(numerator < 0, quotient, fractionDigits);
    } else {
      NoDigitsNoDecimal(numerator < 0, quotient);
    }
  }

  lemma {:induction false} ScaledChange(c: real, b: real, s: real, t: real, bigC: real, bigB: real)
    requires b > 0.0 && s > 0.0 && bigC == c * s && bigB == b * s && bigB > 0.0
    ensures (bigC - bigB) * t / bigB == (c - b) / b * t
  {
    var x := (c - b) / b;
    assert x * b == c - b;
    Associates(x, b, s);
    assert x * bigB == bigC - bigB;
    CommuteOut(x, bigB, t);
  }

  lemma {:induction false} CommuteOut(x: real, d: real, t: real)
    requires d > 0.0
    ensures x * d * t / d == x * t
  {
    var y := x * t;
    assert x * d * t == y * d;
    assert y * d / d == y;
  }

  // The quotient with its sign is the exact ratio rounded half away from zero.
  lemma RoundedRatio(n: int, d: nat)
    requires d > 0
    ensures Negated(n < 0, RoundRatio(if n < 0 then -n else n, d)) == RoundAway(n as real / d as real)
  {
    var magnitude := if n < 0 then -n else n;
    RoundRatioIsHalfUp(magnitude, d);
    var x := n as real / d as real;
    DivideSign(n as real, d as real);
    hide RoundRatio, HalfUp;
  }

  lemma DivideSign(n: real, d: real)
    requires d > 0.0
    ensures (-n) / d == -(n / d) && (n / d < 0.0 <==> n < 0.0)
  {
    var x := n / d;
    assert x * d == n;
    ScaleOrder(x, 0.0, d);
    assert (-x) * d == -n;
  }

  function ExactChange(current: string, baseline: string): real
    requires IsDecimal(current) && IsDecimal(baseline) && RealOf(baseline) != 0.0
  {
    (RealOf(current) - RealOf(baseline)) / RealOf(baseline)
  }

  // A change is printed exactly for two decimals with a positive baseline and a non-negative precision.
  lemma ChangeIsDefinedExactly(current: string, baseline: string, fractionDigits: int)
    ensures DecimalChange(current, baseline, fractionDigits).Ok? <==>
            (IsDecimal(current) && IsDecimal(baseline) && RealOf(baseline) > 0.0 && fractionDigits >= 0)
  {
    hide Parse, Real, IntegerAt, FindDot, Format, RoundRatio;
    if IsDecimal(current) && IsDecimal(baseline) {
      ParsedPartsAreValid(baseline);
      var scale := CommonScale(current, baseline);
      IntegerIsScaledReal(Parse(baseline).value, scale);
      ScaleOrder(0.0, RealOf(baseline), Pow10(scale) as real);
    }
  }

  lemma {:induction false} ExactNumerator(current: string, baseline: string, fractionDigits: nat, scale: nat)
    requires IsDecimal(current) && IsDecimal(baseline) && RealOf(baseline) > 0.0
    requires scale == CommonScale(current, baseline)
    ensures IntegerOf(baseline, scale) > 0
    ensures ((IntegerOf(current, scale) - IntegerOf(baseline, scale)) * Pow10(fractionDigits)) as real
            / IntegerOf(baseline, scale) as real == InUnits(ExactChange(current, baseline), fractionDigits)
  {
    hide Parse, Real, IntegerAt, FindDot, Format, RoundRatio;
    ParsedPartsAreValid(current);
    ParsedPartsAreValid(baseline);
    IntegerIsScaledReal(Parse(current).value, scale);
    IntegerIsScaledReal(Parse(baseline).value, scale);
    var c, b, s, t := IntegerOf(current, scale), IntegerOf(baseline, scale), Pow10(scale), Pow10(fractionDigits);
    ScaleOrder(0.0, RealOf(baseline), s as real);
    ScaledChange(RealOf(current), RealOf(baseline), s as real, t as real, c as real, b as real);
    CastProduct(c, b, t);
  }

  lemma CastProduct(c: int, b: int, t: int)
    ensures ((c - b) * t) as real == (c as real - b as real) * t as real
  {
  }

  // A value counted in units of the last of n fraction digits.
  function InUnits(x: real, n: nat): real {
    x * Pow10(n) as real
  }

  // The printed change is a Decimal with exactly the asked digits, whose value in units of the last place is
  // (current - baseline) / baseline rounded to nearest, ties away from zero, with a sign only below zero.
  lemma ChangeIsRounded(current: string, baseline: string, fractionDigits: nat)
    requires IsDecimal(current) && IsDecimal(baseline) && RealOf(baseline) > 0.0 && fractionDigits >= 1
    ensures var r := DecimalChange(current, baseline, fractionDigits);
            && r.Ok? && IsDecimal(r.value)
            && |Parse(r.value).value.fraction| == fractionDigits
            && InUnits(RealOf(r.value), fractionDigits) ==
               RoundAway(InUnits(ExactChange(current, baseline), fractionDigits)) as real
            && (Parse(r.value).value.negative <==> RealOf(r.value) < 0.0)
  {
    hide Parse, Real, IntegerAt, FindDot, Format, RoundRatio, ExactChange, RoundAway;
    var scale := CommonScale(current, baseline);
    ExactNumerator(current, baseline, fractionDigits, scale);
    var c, b := IntegerOf(current, scale), IntegerOf(baseline, scale);
    var n := (c - b) * Pow10(fractionDigits);
    RoundedRatio(n, b);
    var q := RoundRatio(if n < 0 then -n else n, b);
    FormatRoundTrip(n < 0, q, fractionDigits);
    var r := DecimalChange(current, baseline, fractionDigits);
    assert r == Ok(Format(n < 0, q, fractionDigits));
    IntegerIsScaledReal(Parse(r.value).value, fractionDigits);
    ScaleOrder(RealOf(r.value), 0.0, Pow10(fractionDigits) as real);
  }

  // Hence the printed value is within half a unit in the last place of the exact change.
  lemma ChangeIsWithinHalfUnit(current: string, baseline: string, fractionDigits: nat)
    requires IsDecimal(current) && IsDecimal(baseline) && RealOf(baseline) > 0.0 && fractionDigits >= 1
    requires DecimalChange(current, baseline, fractionDigits).Ok?
    requires IsDecimal(DecimalChange(current, baseline, fractionDigits).value)
    ensures var printed := RealOf(DecimalChange(current, baseline, fractionDigits).value);
            var unit := 1.0 / Pow10(fractionDigits) as real;
            -0.5 * unit <= printed - ExactChange(current, baseline) <= 0.5 * unit
  {
    hide Parse, Real, IntegerAt, FindDot, DecimalChange, ExactChange, RoundAway;
    ChangeIsRounded(current, baseline, fractionDigits);
    RoundAwayIsNearest(InUnits(ExactChange(current, baseline), fractionDigits));
    WithinUnit(RealOf(DecimalChange(current, baseline, fractionDigits).value), ExactChange(current, baseline),
               Pow10(fractionDigits) as real);
  }

  lemma {:induction false} WithinUnit(x: real, y: real, t: real)
    requires t > 0.0 && -0.5 <= x * t - y * t && x * t - y * t <= 0.5
    ensures -0.5 * (1.0 / t) <= x - y <= 0.5 * (1.0 / t)
  {
    var u, d := 1.0 / t, x - y;
    assert u * t == 1.0;
    assert d * t == x * t - y * t;
    var half := 0.5 * u;
    assert half * t == 0.5 && (-half) * t == -0.5;
    ScaleOrder(d, -half, t);
    ScaleOrder(half, d, t);
  }

  // A larger current value never prints a smaller change.
  lemma ChangeIsMonotone(lower: string, higher: string, baseline: string, fractionDigits: nat)
    requires IsDecimal(lower) && IsDecimal(higher) && IsDecimal(baseline)
    requires RealOf(baseline) > 0.0 && fractionDigits >= 1
    requires CompareDecimals(lower, higher) != Ok(1)
    ensures var l, h := DecimalChange(lower, baseline, fractionDigits), DecimalChange(higher, baseline, fractionDigits);
            l.Ok? && h.Ok? && CompareDecimals(l.value, h.value) in {Ok(-1), Ok(0)}
  {
    hide Parse, Real, IntegerAt, FindDot, DecimalChange, RoundAway, CompareDecimals, InUnits, ExactChange;
    CompareIsExact(lower, higher);
    ChangeIsRounded(lower, baseline, fractionDigits);
    ChangeIsRounded(higher, baseline, fractionDigits);
    var l, h := DecimalChange(lower, baseline, fractionDigits).value, DecimalChange(higher, baseline, fractionDigits).value;
    CompareIsExact(l, h);
    ExactChangeOrder(lower, higher, baseline, fractionDigits);
    RoundAwayIsMonotone(InUnits(ExactChange(lower, baseline), fractionDigits),
                        InUnits(ExactChange(higher, baseline), fractionDigits));
    UnitsOrder(RealOf(h), RealOf(l), fractionDigits);
  }

  lemma ExactChangeOrder(lower: string, higher: string, baseline: string, n: nat)
    requires IsDecimal(lower) && IsDecimal(higher) && IsDecimal(baseline)
    requires RealOf(baseline) > 0.0 && RealOf(lower) <= RealOf(higher)
    ensures InUnits(ExactChange(lower, baseline), n) <= InUnits(ExactChange(higher, baseline), n)
  {
    hide IsDecimal, RealOf;
    ChangeOrder(RealOf(lower), RealOf(higher), RealOf(baseline), Pow10(n) as real);
  }

  lemma UnitsOrder(x: real, y: real, n: nat)
    ensures x < y <==> InUnits(x, n) < InUnits(y, n)
    ensures InUnits(0.0, n) == 0.0
  {
    ScaleOrder(x, y, Pow10(n) as real);
  }

  lemma {:induction false} ChangeOrder(x: real, y: real, b: real, t: real)
    requires x <= y && b > 0.0 && t > 0.0
    ensures (x - b) / b * t <= (y - b) / b * t
  {
    var p, q := (x - b) / b, (y - b) / b;
    assert p * b == x - b && q * b == y - b;
    ScaleOrder(q, p, b);
    ScaleOrder(q, p, t);
  }

  // The printed sign is the comparison's sign, or the change rounds to zero.
  lemma ChangeSignAgrees(current: string, baseline: string, fractionDigits: nat)
    requires IsDecimal(current) && IsDecimal(baseline) && RealOf(baseline) > 0.0 && fractionDigits >= 1
    requires DecimalChange(current, baseline, fractionDigits).Ok?
    requires IsDecimal(DecimalChange(current, baseline, fractionDigits).value)
    ensures var printed := RealOf(DecimalChange(current, baseline, fractionDigits).value);
            && (CompareDecimals(current, baseline) == Ok(0) ==> printed == 0.0)
            && (printed > 0.0 ==> CompareDecimals(current, baseline) == Ok(1))
            && (printed < 0.0 ==> CompareDecimals(current, baseline) == Ok(-1))
            && (printed == 0.0 <==> -0.5 < InUnits(ExactChange(current, baseline), fractionDigits) < 0.5)
  {
    hide Parse, Real, IntegerAt, FindDot, DecimalChange, CompareDecimals, InUnits, ExactChange, RoundAway;
    ChangeIsRounded(current, baseline, fractionDigits);
    CompareIsExact(current, baseline);
    var printed := RealOf(DecimalChange(current, baseline, fractionDigits).value);
    SignOfExactChange(current, baseline, fractionDigits);
    SignOfRounding(InUnits(ExactChange(current, baseline), fractionDigits));
    UnitsOrder(printed, 0.0, fractionDigits);
    UnitsOrder(0.0, printed, fractionDigits);
  }

  lemma SignOfExactChange(current: string, baseline: string, n: nat)
    requires IsDecimal(current) && IsDecimal(baseline) && RealOf(baseline) > 0.0
    ensures InUnits(ExactChange(current, baseline), n) < 0.0 <==> RealOf(current) < RealOf(baseline)
    ensures InUnits(ExactChange(current, baseline), n) > 0.0 <==> RealOf(current) > RealOf(baseline)
  {
    hide IsDecimal, RealOf;
    SignOfChange(RealOf(current), RealOf(baseline), Pow10(n) as real);
  }

  lemma {:induction false} SignOfChange(c: real, b: real, t: real)
    requires b > 0.0 && t > 0.0
    ensures (c - b) / b * t < 0.0 <==> c < b
    ensures (c - b) / b * t > 0.0 <==> c > b
  {
    var x := (c - b) / b;
    assert x * b == c - b;
    ScaleOrder(x, 0.0, b);
    ScaleOrder(0.0, x, b);
    ScaleOrder(x, 0.0, t);
    ScaleOrder(0.0, x, t);
  }

  lemma SignOfRounding(x: real)
    ensures RoundAway(x) > 0 <==> x >= 0.5
    ensures RoundAway(x) < 0 <==> x <= -0.5
  {
  }

  /* ---------- chart scaling ---------- */

  const RATIO_SCALE: int := 1_000_000

  predicate AllDecimal(values: seq<string>) {
    forall i :: 0 <= i < |values| ==> IsDecimal(values[i])
  }

  function SeriesScale(values: seq<string>): (scale: nat)
    requires AllDecimal(values)
    ensures forall i :: 0 <= i < |values| ==> FractionLength(values[i]) <= scale
  {
    hide IsDecimal, FractionLength;
    if values == [] then 0
    else
      var front := values[..|values| - 1];
      assert forall i :: 0 <= i < |front| ==> values[i] == front[i];
      Max(SeriesScale(front), FractionLength(values[|values| - 1]))
  }

  function Low(a: seq<int>): (low: int)
    requires a != []
    ensures low in a && forall i :: 0 <= i < |a| ==> low <= a[i]
  {
    if |a| == 1 then a[0]
    else
      var rest := Low(a[..|a| - 1]);
      if a[|a| - 1] < rest then a[|a| - 1] else rest
  }

  function High(a: seq<int>): (high: int)
    requires a != []
    ensures high in a && forall i :: 0 <= i < |a| ==> a[i] <= high
  {
    if |a| == 1 then a[0]
    else
      var rest := High(a[..|a| - 1]);
      if a[|a| - 1] > rest then a[|a| - 1] else rest
  }

  // Each value's position between the lowest and the highest, in millionths; a flat series is all zeros.
  function NormalizeDecimalSeries(values: seq<string>): (r: Result<seq<int>, DecimalError>)
    ensures r.Ok? <==> AllDecimal(values)
    ensures r.Ok? ==> |r.value| == |values|
  {
    if values == [] then Ok([])
    else if !AllDecimal(values) then Err(NotDecimal)
    else
      var scale := SeriesScale(values);
      var integers := seq(|values|, i requires 0 <= i < |values| => IntegerOf(values[i], scale));
      var low, high := Low(integers), High(integers);
      var spread := high - low;
      assert spread >= 0;
      if spread == 0 then Ok(seq(|values|, i => 0))
      else
        Ok(seq(|values|, i requires 0 <= i < |values| => (integers[i] - low) * RATIO_SCALE / spread))
  }

  lemma {:induction false} PositionInRange(v: int, low: int, high: int)
    requires low <= v <= high && low < high
    ensures 0 <= (v - low) * RATIO_SCALE / (high - low) <= RATIO_SCALE
    ensures v == low ==> (v - low) * RATIO_SCALE / (high - low) == 0
    ensures v == high ==> (v - low) * RATIO_SCALE / (high - low) == RATIO_SCALE
  {
    var n, d := (v - low) * 1_000_000, high - low;
    QuotientOrder(n, d * 1_000_000, d);
    QuotientIs(1_000_000, 0, d);
    QuotientIs(0, 0, d);
    assert v == low ==> n == 0;
  }

  // Heights stay in [0, 10^6] and never invert the exact order of the values; unless all are equal,
  // every least value is drawn at 0 and every greatest at 10^6.
  lemma SeriesIsOrderPreserving(values: seq<string>, i: nat, j: nat)
    requires AllDecimal(values) && i < |values| && j < |values|
    ensures var r := NormalizeDecimalSeries(values).value;
            && 0 <= r[i] <= RATIO_SCALE
            && (CompareDecimals(values[i], values[j]) != Ok(1) ==> r[i] <= r[j])
            && ((forall k :: 0 <= k < |values| ==> CompareDecimals(values[i], values[k]) != Ok(1)) ==> r[i] == 0)
            && ((&& (forall k :: 0 <= k < |values| ==> CompareDecimals(values[i], values[k]) != Ok(-1))
                 && CompareDecimals(values[i], values[j]) == Ok(1)) ==> r[i] == RATIO_SCALE)
  {
    hide IsDecimal, Parse, Real, IntegerAt, IntegerOf, FindDot, CompareDecimals, Low, High, SeriesScale;
    var scale := SeriesScale(values);
    var a := seq(|values|, i requires 0 <= i < |values| => IntegerOf(values[i], scale));
    forall x, y | 0 <= x < |values| && 0 <= y < |values|
      ensures CompareDecimals(values[x], values[y]) == Ok(if a[x] < a[y] then -1 else if a[x] > a[y] then 1 else 0)
    {
      CompareAtScale(values[x], values[y], scale);
    }
    var low, high := Low(a), High(a);
    if low < high {
      PositionInRange(a[i], low, high);
      PositionInRange(a[j], low, high);
      if a[i] <= a[j] {
        QuotientOrder((a[i] - low) * RATIO_SCALE, (a[j] - low) * RATIO_SCALE, high - low);
      }
    }
  }

  // Comparing at any sufficient common scale gives the same answer.
  lemma CompareAtScale(left: string, right: string, scale: nat)
    requires IsDecimal(left) && IsDecimal(right) && CommonScale(left, right) <= scale
    ensures var l, r := IntegerOf(left, scale), IntegerOf(right, scale);
            CompareDecimals(left, right) == Ok(if l < r then -1 else if l > r then 1 else 0)
  {
    hide Parse, Real, IntegerAt, FindDot, CompareDecimals;
    CompareIsExact(left, right);
    ParsedPartsAreValid(left);
    ParsedPartsAreValid(right);
    IntegerIsScaledReal(Parse(left).value, scale);
    IntegerIsScaledReal(Parse(right).value, scale);
    ScaleOrder(RealOf(left), RealOf(right), Pow10(scale) as real);
    ScaleOrder(RealOf(right), RealOf(left), Pow10(scale) as real);
  }

  function RealsOf(values: seq<string>): (x: seq<real>)
    requires AllDecimal(values)
    ensures |x| == |values|
  {
    hide IsDecimal, RealOf;
    seq(|values|, i requires 0 <= i < |values| => RealOf(values[i]))
  }

  function Height(n: int, low: int, high: int): int
    requires low < high
  {
    (n - low) * RATIO_SCALE / (high - low)
  }

  // The exact position of v between low and high, in millionths, cut to the millionth below.
  ghost predicate InProportion(height: int, v: real, low: real, high: real)
    requires low < high
  {
    height as real <= (v - low) / (high - low) * 1_000_000.0 < height as real + 1.0
  }

  // Heights are proportional to the position between the least and the greatest value; equal values are all at zero.
  lemma SeriesIsProportional(values: seq<string>, lo: nat, hi: nat, i: nat)
    requires AllDecimal(values) && lo < |values| && hi < |values| && i < |values|
    requires forall k :: 0 <= k < |values| ==> RealsOf(values)[lo] <= RealsOf(values)[k] <= RealsOf(values)[hi]
    ensures var r := NormalizeDecimalSeries(values).value;
            var (low, high, v) := (RealsOf(values)[lo], RealsOf(values)[hi], RealsOf(values)[i]);
            if low == high then r[i] == 0 else low < high && InProportion(r[i], v, low, high)
  {
    hide IsDecimal, AllDecimal, RealsOf, InProportion;
    var a := Integers(values);
    IntegersAreScaled(values);
    IntegersKeepOrder(values, lo, hi);
    HeightAt(values, i);
    hide Integers, NormalizeDecimalSeries, Low, High, InUnits, Height;
    assert Low(a) == a[lo] && High(a) == a[hi];
    if a[lo] < a[hi] {
      PositionInUnits(RealsOf(values)[lo], RealsOf(values)[hi], RealsOf(values)[i], SeriesScale(values), a[lo], a[hi], a[i]);
    }
  }

  function Integers(values: seq<string>): (a: seq<int>)
    requires AllDecimal(values)
    ensures |a| == |values|
  {
    hide IsDecimal;
    var scale := SeriesScale(values);
    seq(|values|, i requires 0 <= i < |values| => IntegerOf(values[i], scale))
  }

  // The integers at the common scale are the exact values in its unit.
  lemma IntegersAreScaled(values: seq<string>)
    requires AllDecimal(values)
    ensures forall k :: 0 <= k < |values| ==>
              Integers(values)[k] as real == InUnits(RealsOf(values)[k], SeriesScale(values))
  {
    hide IsDecimal, Parse, RealOf, IntegerOf, FractionLength, InUnits;
    forall k | 0 <= k < |values|
      ensures Integers(values)[k] as real == InUnits(RealsOf(values)[k], SeriesScale(values))
    {
      IntegerOfIsScaled(values[k], SeriesScale(values));
    }
  }

  lemma IntegersKeepOrder(values: seq<string>, lo: nat, hi: nat)
    requires AllDecimal(values) && lo < |values| && hi < |values|
    requires forall k :: 0 <= k < |values| ==> RealsOf(values)[lo] <= RealsOf(values)[k] <= RealsOf(values)[hi]
    ensures forall k :: 0 <= k < |values| ==> Integers(values)[lo] <= Integers(values)[k] <= Integers(values)[hi]
    ensures Integers(values)[lo] < Integers(values)[hi] <==> RealsOf(values)[lo] < RealsOf(values)[hi]
  {
    IntegersAreScaled(values);
    hide AllDecimal, RealsOf, Integers, InUnits, SeriesScale;
    var a, x, scale := Integers(values), RealsOf(values), SeriesScale(values);
    UnitsOrder(x[lo], x[hi], scale);
    forall k | 0 <= k < |values|
      ensures a[lo] <= a[k] <= a[hi]
    {
      UnitsOrder(x[k], x[lo], scale);
      UnitsOrder(x[hi], x[k], scale);
    }
  }

  lemma PositionInUnits(low: real, high: real, v: real, scale: nat, l: int, h: int, n: int)
    requires l as real == InUnits(low, scale) && h as real == InUnits(high, scale) && n as real == InUnits(v, scale)
    requires l < h && l <= n && low < high
    ensures InProportion(Height(n, l, h), v, low, high)
  {
    ScaledPosition(low, high, v, Pow10(scale) as real, l, h, n);
  }

  lemma HeightAt(values: seq<string>, i: nat)
    requires AllDecimal(values) && i < |values|
    ensures var a := Integers(values);
            NormalizeDecimalSeries(values).value[i] ==
              if High(a) == Low(a) then 0 else Height(a[i], Low(a), High(a))
  {
    hide IsDecimal, IntegerOf, Low, High, SeriesScale;
  }

  lemma IntegerOfIsScaled(s: string, scale: nat)
    requires IsDecimal(s) && FractionLength(s) <= scale
    ensures IntegerOf(s, scale) as real == InUnits(RealOf(s), scale)
  {
    hide Parse, Real, IntegerAt, FindDot;
    ParsedPartsAreValid(s);
    IntegerIsScaledReal(Parse(s).value, scale);
  }

  lemma {:induction false} ScaledPosition(low: real, high: real, v: real, unit: real, l: int, h: int, n: int)
    requires unit > 0.0 && l as real == low * unit && h as real == high * unit && n as real == v * unit
    requires l < h && l <= n && low < high
    ensures var r := (n - l) * RATIO_SCALE / (h - l);
            r as real <= (v - low) / (high - low) * 1_000_000.0 < r as real + 1.0
  {
    var x := (v - low) / (high - low);
    assert x * (high - low) == v - low;
    var d, m := h - l, (n - l) * 1_000_000;
    assert d as real == (high - low) * unit;
    assert (n - l) as real == (v - low) * unit;
    Associates(x, high - low, unit);
    assert x * d as real == (n - l) as real;
    FloorOfQuotient(m, d, x * 1_000_000.0);
  }

  lemma {:induction false} FloorOfQuotient(m: nat, d: int, x: real)
    requires d > 0 && x * d as real == m as real
    ensures (m / d) as real <= x < (m / d) as real + 1.0
  {
    var q, r := m / d, m % d;
    assert m == q * d + r;
    assert (q * d) as real == q as real * d as real;
    ScaleOrder(x, q as real, d as real);
    ScaleOrder(x, q as real + 1.0, d as real);
    assert (q as real + 1.0) * d as real == q as real * d as real + d as real;
  }

  /* ---------- which texts are decimals, and what they are worth ---------- */

  predicate ProperParts(p: Parts) {
    NonEmptyDigits(p.whole) && AllDigits(p.fraction)
  }

  // An optional sign, digits, and digits behind a point if there are any.
  function TextOf(p: Parts): string {
    (if p.negative then "-" else "") + (p.whole + (if p.fraction == "" then "" else "." + p.fraction))
  }

  lemma {:induction false} NoDotInDigits(s: string)
    requires AllDigits(s)
    ensures FindDot(s) == None
  {
    if s != "" { NoDotInDigits(s[1..]); }
  }

  // The decimals are exactly these texts, and each is read as its parts.
  lemma DecimalTextsAreExact(s: string)
    ensures forall p :: ProperParts(p) && s == TextOf(p) ==> Parse(s) == Some(p)
    ensures IsDecimal(s) ==> ProperParts(Parse(s).value) && s == TextOf(Parse(s).value)
  {
    forall p | ProperParts(p) && s == TextOf(p)
      ensures Parse(s) == Some(p)
    {
      if p.fraction == "" {
        WholeTextParses(p.negative, p.whole);
        assert p.whole + "" == p.whole;
      } else {
        ParseOfText(p.negative, p.whole, p.fraction);
      }
    }
    if IsDecimal(s) {
      ParsedTextIsItsParts(s);
    }
  }

  lemma WholeTextParses(negative: bool, whole: string)
    requires NonEmptyDigits(whole)
    ensures Parse((if negative then "-" else "") + whole) == Some(Parts(negative, whole, ""))
  {
    var s := (if negative then "-" else "") + whole;
    NoDotInDigits(whole);
    assert IsDigit(whole[0]);
    assert negative ==> s[0] == '-' && s[1..] == whole;
    assert !negative ==> s == whole;
  }

  lemma ParsedTextIsItsParts(s: string)
    requires IsDecimal(s)
    ensures ProperParts(Parse(s).value) && s == TextOf(Parse(s).value)
  {
    var negative := s != "" && s[0] == '-';
    var body := if negative then s[1..] else s;
    UnsignedTextIsItsParts(negative, body);
    hide ParseUnsigned, AllDigits;
    assert s == (if negative then "-" else "") + body;
    assert Parse(s) == ParseUnsigned(negative, body);
    hide Parse;
  }

  lemma UnsignedTextIsItsParts(negative: bool, body: string)
    requires ParseUnsigned(negative, body).Some?
    ensures var p := ParseUnsigned(negative, body).value;
            p.negative == negative && ProperParts(p)
            && body == p.whole + (if p.fraction == "" then "" else "." + p.fraction)
  {
    var dot := FindDot(body);
    if dot.Some? {
      assert body == body[..dot.value] + ("." + body[dot.value + 1..]);
    }
    hide FindDot, AllDigits;
  }

  // Its value: the digits before the point, and those behind it in units of their last place, with the sign.
  lemma RealIsPlaceValue(p: Parts)
    requires ProperParts(p)
    ensures IsDecimal(TextOf(p))
    ensures var magnitude := Value(p.whole) as real + Value(p.fraction) as real / Pow10(|p.fraction|) as real;
            RealOf(TextOf(p)) == if p.negative then -magnitude else magnitude
  {
    DecimalTextsAreExact(TextOf(p));
    hide Parse, FindDot, Value, Pow10, TextOf, AllDigits;
    ValueConcat(p.whole, p.fraction);
    assert PadEnd(p.fraction, |p.fraction|) == p.fraction;
    PlaceValue(p.negative, Value(p.whole), Value(p.fraction), Pow10(|p.fraction|));
  }

  lemma {:induction false} PlaceValue(negative: bool, whole: nat, fraction: nat, unit: nat)
    requires unit > 0
    ensures var magnitude := whole as real + fraction as real / unit as real;
            Negated(negative, whole * unit + fraction) as real / unit as real == if negative then -magnitude else magnitude
  {
    var u := unit as real;
    assert (whole * unit + fraction) as real == whole as real * u + fraction as real;
    DivideSum(whole as real, u, fraction as real);
    DivideSign(whole as real * u + fraction as real, u);
  }
}
