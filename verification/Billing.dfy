/**
 * Period billing in Python's default decimal context: 28 significant digits, rounded
 * half to even (src/tatatuya/domain/billing.py).
 */
module Billing {
  import opened Arithmetic
  import opened Common
  import opened Decimals
  import opened Energy
  import opened Numerals

  const PRECISION: nat := 28

  // ------------------------------------------------------------ rounding

  /** `n / 10^drop` rounded to the nearest integer, ties to the even one. */
  function RoundHalfEven(n: nat, drop: nat): nat {
    var unit := Pow10(drop);
    DivisionFacts(n, unit);
    var q, r := n / unit, n % unit;
    if 2 * r > unit || (2 * r == unit && q % 2 == 1) then q + 1 else q
  }

  /** The context's `_fix`: the result of an operation brought to the precision. */
  function Fix(precision: nat, negative: bool, coefficient: nat, exponent: int): Decimal
    requires precision > 0
  {
    var text := Digits(coefficient);
    if |text| <= precision then Decimal(negative, text, exponent)
    else
      var drop := |text| - precision;
      var q := RoundHalfEven(coefficient, drop);
      if q == Pow10(precision) then Decimal(negative, Digits(Pow10(precision - 1)), exponent + drop + 1)
      else Decimal(negative, Digits(q), exponent + drop)
  }

  function Abs(x: int): nat {
    if x < 0 then -x else x
  }

  /** The exact difference at the smaller exponent. */
  function Difference(a: Decimal, b: Decimal): int {
    var k := Min(a.exponent, b.exponent);
    At(a, k) - At(b, k)
  }

  /** `a - b` */
  function Subtract(a: Decimal, b: Decimal): Decimal {
    var x := Difference(a, b);
    Fix(PRECISION, if x == 0 then a.negative && !b.negative else x < 0, Abs(x), Min(a.exponent, b.exponent))
  }

  /** `a * b` */
  function Multiply(a: Decimal, b: Decimal): Decimal {
    Fix(PRECISION, a.negative != b.negative, ToNat(a.digits) * ToNat(b.digits), a.exponent + b.exponent)
  }

  /** `magnitude` stands in for `n`: at most half a unit away, and even in units on a tie. */
  predicate IsNearest(magnitude: nat, n: nat, unit: nat)
    requires unit > 0
  {
    && 2 * Abs(magnitude - n) <= unit
    && (2 * Abs(magnitude - n) == unit ==> (magnitude / unit) % 2 == 0)
  }

  /** What it means for `r` to be `±n * 10^exponent` rounded half to even at `precision` digits. */
  predicate IsRounded(precision: nat, r: Decimal, negative: bool, n: nat, exponent: int) {
    && exponent <= r.exponent
    && |r.digits| <= precision
    && r.negative == negative
    && (n == 0 <==> IsZero(r))
    && var magnitude := Abs(At(r, exponent));
    && At(r, exponent) == Signed(negative, magnitude)
    && if |Digits(n)| <= precision then magnitude == n
       else IsNearest(magnitude, n, Pow10(|Digits(n)| - precision))
  }

  lemma PowerStep(n: nat)
    requires n > 0
    ensures Pow10(n) == 10 * Pow10(n - 1)
  {
  }

  lemma {:induction false} PowersGrow(a: nat, b: nat)
    requires a <= b
    ensures Pow10(a) <= Pow10(b)
  {
    if a < b {
      PowersGrow(a, b - 1);
    }
  }

  lemma DigitCount(n: nat)
    ensures n < Pow10(|Digits(n)|)
    ensures n > 0 ==> Pow10(|Digits(n)| - 1) <= n
  {
    ValueBound(Digits(n));
    if Digits(n)[0] == '0' {
      assert Digits(n) == "0";
      assert Digits(n)[..0] == [];
    }
  }

  lemma FewDigits(n: nat, count: nat)
    requires count > 0
    ensures |Digits(n)| <= count <==> n < Pow10(count)
  {
    DigitCount(n);
    if |Digits(n)| <= count {
      PowersGrow(|Digits(n)|, count);
    } else if n > 0 {
      PowersGrow(count, |Digits(n)| - 1);
    }
  }

  /** The integer core of rounding: error at most half a unit, and an even result on a tie. */
  lemma RoundingCore(n: nat, drop: nat)
    ensures
      var unit, q := Pow10(drop), RoundHalfEven(n, drop);
      && 2 * Abs(q * unit - n) <= unit
      && (2 * Abs(q * unit - n) == unit ==> q % 2 == 0)
      && (forall low: nat, high: nat | low * unit <= n < high * unit :: low <= q <= high)
  {
    var unit := Pow10(drop);
    DivisionFacts(n, unit);
    var q := n / unit;
    Distribute(q, 1, unit);
    assert (q + 1) * unit == q * unit + unit;
    forall low: nat, high: nat | low * unit <= n < high * unit
      ensures low <= RoundHalfEven(n, drop) <= high
    {
      CancelFactor(q + 1, low, unit);
      CancelFactor(high, q, unit);
      assert low < q + 1 && q < high by {
        CancelFactor(low, q + 1, unit);
        CancelFactor(q, high, unit);
      }
    }
  }

  lemma SignedProduct(negative: bool, x: int, p: int)
    ensures Signed(negative, x) * p == Signed(negative, x * p)
  {
    Distribute(x, 0, p);
  }

  /** Rounding is roundTiesToEven at the context's precision (section 4.3.1 of IEEE 754-2008). */
  lemma FixRounds(precision: nat, negative: bool, n: nat, exponent: int)
    requires precision > 0
    ensures IsRounded(precision, Fix(precision, negative, n, exponent), negative, n, exponent)
  {
    if |Digits(n)| <= precision {
      var r := Fix(precision, negative, n, exponent);
      ZeroCoefficient(r);
      assert At(r, exponent) == Signed(negative, n);
    } else {
      RoundLong(precision, negative, n, exponent);
    }
  }

  lemma RoundLong(precision: nat, negative: bool, n: nat, exponent: int)
    requires 0 < precision < |Digits(n)|
    ensures IsRounded(precision, Fix(precision, negative, n, exponent), negative, n, exponent)
  {
    hide Pow10, ToNat, RoundHalfEven, Digits, Fix, At;
    var drop := |Digits(n)| - precision;
    var q := RoundHalfEven(n, drop);
    var unit := Pow10(drop);
    RoundedShape(precision, negative, n, exponent);
    RoundedMagnitude(precision, negative, n, exponent);
    RoundingCore(n, drop);
    PositiveProduct(q, unit);
    Distribute(q, 1, unit);
    QuotientIsUnique(q * unit, unit, q);
  }

  lemma RoundedShape(precision: nat, negative: bool, n: nat, exponent: int)
    requires 0 < precision < |Digits(n)|
    ensures
      var r := Fix(precision, negative, n, exponent);
      exponent <= r.exponent && |r.digits| <= precision && r.negative == negative && !IsZero(r)
    ensures n > 0 && RoundHalfEven(n, |Digits(n)| - precision) > 0
  {
    hide RoundHalfEven, ToNat, Pow10;
    KeptQuotient(precision, n);
    var r := Fix(precision, negative, n, exponent);
    FewDigits(RoundHalfEven(n, |Digits(n)| - precision), precision);
    FewDigits(Pow10(precision - 1), precision);
    PowerStep(precision);
    ZeroCoefficient(r);
  }

  /** The kept quotient has exactly `precision` digits, or is the next power of ten. */
  lemma KeptQuotient(precision: nat, n: nat)
    requires 0 < precision < |Digits(n)|
    ensures n > 0 && Pow10(precision - 1) <= RoundHalfEven(n, |Digits(n)| - precision) <= Pow10(precision)
  {
    var drop := |Digits(n)| - precision;
    DigitCount(n);
    PowersAdd(precision, drop);
    PowersAdd(precision - 1, drop);
    RoundingCore(n, drop);
  }

  lemma RoundedMagnitude(precision: nat, negative: bool, n: nat, exponent: int)
    requires 0 < precision < |Digits(n)|
    ensures
      var r, drop := Fix(precision, negative, n, exponent), |Digits(n)| - precision;
      At(r, exponent) == Signed(negative, RoundHalfEven(n, drop) * Pow10(drop))
  {
    hide RoundHalfEven, ToNat, Pow10, Digits;
    var r, drop := Fix(precision, negative, n, exponent), |Digits(n)| - precision;
    var q := RoundHalfEven(n, drop);
    SignedProduct(negative, ToNat(r.digits), Pow10(r.exponent - exponent));
    if q == Pow10(precision) {
      PowerStep(precision);
      PowerStep(drop + 1);
      Associate(Pow10(precision - 1), 10, Pow10(drop));
    }
  }

  // ------------------------------------------------------------ no closer representable number

  /** An integer multiple of the unit is never closer to `n` than the rounded one. */
  lemma NearestMultiple(m: nat, n: nat, unit: nat, q: nat, t: int)
    requires unit > 0 && m == q * unit && 2 * Abs(m - n) <= unit
    ensures Abs(m - n) <= Abs(t * unit - n)
  {
    if t > q {
      Distribute(q, t, unit);
      PositiveProduct(t - q, unit);
      CancelFactor(1, t - q, unit);
    } else if t < q {
      Distribute(t, q, unit);
      PositiveProduct(q - t, unit);
      CancelFactor(1, q - t, unit);
    }
  }

  lemma ScaledDistance(m: int, n: int, v: int, s: nat)
    requires Abs(m - n) <= Abs(v - n) && s > 0
    ensures Abs(m * s - n * s) <= Abs(v * s - n * s)
  {
    Distribute(n, m, s);
    Distribute(m, n, s);
    Distribute(n, v, s);
    Distribute(v, n, s);
    SignOfProduct(m - n, s);
    SignOfProduct(v - n, s);
    CancelFactor(Abs(v - n), Abs(m - n), s);
  }

  /** Correct rounding of an integer; `NothingIsCloser` moves it to any exponent. */
  lemma NothingIsCloserToInteger(precision: nat, negative: bool, n: nat, candidate: Decimal)
    requires precision > 0 && |candidate.digits| <= precision
    ensures
      var r, exact := Fix(precision, negative, n, 0), Decimal(negative, Digits(n), 0);
      var k := Min(0, candidate.exponent);
      && 0 <= r.exponent
      && Abs(At(r, k) - At(exact, k)) <= Abs(At(candidate, k) - At(exact, k))
  {
    var r, exact := Fix(precision, negative, n, 0), DecimalParts.Decimal(negative, Digits(n), 0);
    var k := Min(0, candidate.exponent);
    FixRounds(precision, negative, n, 0);
    if |Digits(n)| <= precision {
      assert At(r, 0) == At(exact, 0);
      Rescale(r, 0, k);
    } else {
      LongResultIsClosest(precision, negative, n, candidate);
    }
  }

  lemma SmallCandidate(precision: nat, drop: nat, e: nat, j: nat)
    requires precision > 0 && e + 1 <= drop + j
    ensures Pow10(precision) * Pow10(e) <= Pow10(precision - 1) * Pow10(drop) * Pow10(j)
  {
    PowersAdd(precision, e);
    PowersAdd(precision - 1, drop);
    PowersAdd(precision - 1 + drop, j);
    PowersGrow(precision + e, precision - 1 + drop + j);
  }

  /** The magnitude of a candidate, and the two shapes it can have beside a long result. */
  lemma CandidateShape(precision: nat, drop: nat, candidate: Decimal) returns (t: int)
    requires precision > 0 && drop > 0 && |candidate.digits| <= precision
    ensures
      var k := Min(0, candidate.exponent);
      var v := ToNat(candidate.digits) * Pow10(candidate.exponent - k);
      && At(candidate, k) == Signed(candidate.negative, v)
      && (v == t * Pow10(drop) * Pow10(-k) || v <= Pow10(precision - 1) * Pow10(drop) * Pow10(-k))
  {
    var k := Min(0, candidate.exponent);
    var c := ToNat(candidate.digits);
    SignedProduct(candidate.negative, c, Pow10(candidate.exponent - k));
    if candidate.exponent >= drop {
      t := c * Pow10(candidate.exponent - drop);
      PowersAdd(candidate.exponent - drop, drop);
      Associate(c, Pow10(candidate.exponent - drop), Pow10(drop));
    } else {
      t := 0;
      ValueBound(candidate.digits);
      PowersGrow(|candidate.digits|, precision);
      var e := candidate.exponent - k;
      CancelFactor(c, Pow10(precision), Pow10(e));
      SmallCandidate(precision, drop, e, -k);
    }
  }

  /** A value that is a multiple of the unit, or that stays below the smallest kept quotient, is no closer. */
  lemma RoundedIsClosest(m: nat, n: nat, unit: nat, q: nat, low: nat, s: nat, t: int, v: nat)
    requires unit > 0 && s > 0 && m == q * unit && 2 * Abs(m - n) <= unit && low * unit <= n
    requires v == t * unit * s || v <= low * unit * s
    ensures Abs(m * s - n * s) <= Abs(v - n * s)
  {
    if v == t * unit * s {
      NearestMultiple(m, n, unit, q, t);
      ScaledDistance(m, n, t * unit, s);
    } else {
      NearestMultiple(m, n, unit, q, low);
      ScaledDistance(m, n, low * unit, s);
      CancelFactor(n, low * unit, s);
    }
  }

  function NatProduct(a: nat, b: nat): (p: nat)
    ensures p == a * b
  {
    if a > 0 && b > 0 then
      PositiveProduct(a, b);
      a * b
    else
      0
  }

  lemma SignsOnlyWiden(negative: bool, m: nat, n: nat, candidateNegative: bool, v: nat)
    requires Abs(m - n) <= Abs(v - n)
    ensures Abs(Signed(negative, m) - Signed(negative, n)) <= Abs(Signed(candidateNegative, v) - Signed(negative, n))
  {
  }

  lemma LongResultIsClosest(precision: nat, negative: bool, n: nat, candidate: Decimal)
    requires 0 < precision < |Digits(n)| && |candidate.digits| <= precision
    ensures
      var r, exact := Fix(precision, negative, n, 0), Decimal(negative, Digits(n), 0);
      var k := Min(0, candidate.exponent);
      && 0 <= r.exponent
      && Abs(At(r, k) - At(exact, k)) <= Abs(At(candidate, k) - At(exact, k))
  {
    hide Pow10, ToNat, RoundHalfEven, Digits, Fix, At, NatProduct, Coefficient;
    var r, exact := Fix(precision, negative, n, 0), DecimalParts.Decimal(negative, Digits(n), 0);
    var k := Min(0, candidate.exponent);
    var drop := |Digits(n)| - precision;
    var unit, s := Pow10(drop), Pow10(-k);
    var q := RoundHalfEven(n, drop);
    var m := NatProduct(q, unit);
    var ms, ns := NatProduct(m, s), NatProduct(n, s);
    RoundedShape(precision, negative, n, 0);
    RoundedMagnitude(precision, negative, n, 0);
    RoundingCore(n, drop);
    ExactAt(negative, n, k);
    Rescale(r, 0, k);
    SignedProduct(negative, m, s);
    var t := CandidateShape(precision, drop, candidate);
    var v := Abs(At(candidate, k));
    DigitCount(n);
    PowersAdd(precision - 1, drop);
    RoundedIsClosest(m, n, unit, q, Pow10(precision - 1), s, t, v);
    SignsOnlyWiden(negative, ms, ns, candidate.negative, v);
  }

  lemma ExactAt(negative: bool, n: nat, k: int)
    requires k <= 0
    ensures At(Decimal(negative, Digits(n), 0), k) == Signed(negative, n * Pow10(-k))
  {
    SignedProduct(negative, n, Pow10(-k));
  }

  /**
   * Correct rounding: among all Decimals of at most `precision` digits, whatever their sign and exponent,
   * none is closer to the exact result, whatever its exponent, than the rounded one.
   */
  lemma NothingIsCloser(precision: nat, negative: bool, n: nat, exponent: int, candidate: Decimal)
    requires precision > 0 && |candidate.digits| <= precision
    ensures
      var r, exact := Fix(precision, negative, n, exponent), Decimal(negative, Digits(n), exponent);
      var k := Min(exponent, candidate.exponent);
      && exponent <= r.exponent
      && Abs(At(r, k) - At(exact, k)) <= Abs(At(candidate, k) - At(exact, k))
  {
    hide RoundHalfEven, Digits, Pow10, ToNat, Coefficient;
    var r, exact := Fix(precision, negative, n, 0), DecimalParts.Decimal(negative, Digits(n), 0);
    var moved := candidate.(exponent := candidate.exponent - exponent);
    var k := Min(0, moved.exponent);
    NothingIsCloserToInteger(precision, negative, n, moved);
    ShiftIsExact(r, -exponent, k);
    ShiftIsExact(exact, -exponent, k);
    ShiftIsExact(moved, -exponent, k);
    assert ShiftDecimal(moved, -exponent) == candidate;
    assert ShiftDecimal(r, -exponent) == Fix(precision, negative, n, exponent);
  }

  /** No Decimal of 28 digits is closer to the exact difference than the one `-` returns. */
  lemma DifferenceIsNearest(a: Decimal, b: Decimal, candidate: Decimal)
    requires |candidate.digits| <= 28
    ensures
      var k := Min(Min(a.exponent, b.exponent), candidate.exponent);
      var exact := At(a, k) - At(b, k);
      && k <= Subtract(a, b).exponent
      && Abs(At(Subtract(a, b), k) - exact) <= Abs(At(candidate, k) - exact)
  {
    hide Fix, Digits, Pow10, ToNat, Coefficient;
    var m, x := Min(a.exponent, b.exponent), Difference(a, b);
    var k := Min(m, candidate.exponent);
    var negative := if x == 0 then a.negative && !b.negative else x < 0;
    NothingIsCloser(PRECISION, negative, Abs(x), m, candidate);
    Rescale(a, m, k);
    Rescale(b, m, k);
    Distribute(At(b, m), At(a, m), Pow10(m - k));
    ExactMagnitude(negative, Abs(x), m, k);
    assert Signed(negative, Abs(x)) == x;
  }

  lemma ExactMagnitude(negative: bool, n: nat, exponent: int, k: int)
    requires k <= exponent
    ensures At(Decimal(negative, Digits(n), exponent), k) == Signed(negative, n) * Pow10(exponent - k)
  {
  }

  /** No Decimal of 28 digits is closer to the exact product than the one `*` returns. */
  lemma ProductIsNearest(a: Decimal, b: Decimal, candidate: Decimal)
    requires |candidate.digits| <= 28
    ensures
      var k := Min(a.exponent + b.exponent, candidate.exponent);
      var exact := Coefficient(a) * Coefficient(b) * Pow10(a.exponent + b.exponent - k);
      && k <= Multiply(a, b).exponent
      && Abs(At(Multiply(a, b), k) - exact) <= Abs(At(candidate, k) - exact)
  {
    hide Fix, Digits, Pow10, ToNat, At;
    var negative, n, e := a.negative != b.negative, NatProduct(ToNat(a.digits), ToNat(b.digits)), a.exponent + b.exponent;
    NothingIsCloser(PRECISION, negative, n, e, candidate);
    ExactMagnitude(negative, n, e, Min(e, candidate.exponent));
    SignsMultiply(a.negative, ToNat(a.digits), b.negative, ToNat(b.digits));
  }

  lemma SignsMultiply(negative: bool, x: nat, other: bool, y: nat)
    ensures Signed(negative, x) * Signed(other, y) == Signed(negative != other, x * y)
  {
    SignedProduct(negative, x, y);
    SignedProduct(other, y, x);
  }

  // ------------------------------------------------------------ readings and periods

  datatype BillingError =
    | NotPersisted
    | DifferentDevices
    | SameReading
    | NotLater
    | UnsupportedUnit
    | Decreased
    | InvalidPrice
    | MissingPrice

  datatype BilledReading = BilledReading(
    id: Option<int>,
    deviceId: string,
    recordedAt: int,
    sourceUnit: string,
    valueKwh: Decimal)

  datatype Calculation = Calculation(startId: int, endId: int, consumption: Decimal, unitPrice: Decimal, total: Decimal)

  /** `d < 0` */
  predicate IsBelowZero(d: Decimal) {
    d.negative && !IsZero(d)
  }

  /** `n.is_finite() and n > 0` */
  predicate IsPositivePrice(n: Number) {
    n.Finite? && !n.value.negative && !IsZero(n.value)
  }

  /** `(end.recorded_at_utc, end.id) <= (start.recorded_at_utc, start.id)`, as tuples compare. */
  predicate IsNotLater(start: BilledReading, end: BilledReading)
    requires start.id.Some? && end.id.Some?
  {
    || end.recordedAt < start.recordedAt
    || (end.recordedAt == start.recordedAt && end.id.value <= start.id.value)
  }

  function CalculateConsumption(start: BilledReading, end: BilledReading): Result<Decimal, BillingError> {
    if start.id.None? || end.id.None? then Err(NotPersisted)
    else if start.deviceId != end.deviceId then Err(DifferentDevices)
    else if start.id == end.id then Err(SameReading)
    else if IsNotLater(start, end) then Err(NotLater)
    else if CanonicalEnergyUnit(start.sourceUnit).None? || CanonicalEnergyUnit(end.sourceUnit).None? then
      Err(UnsupportedUnit)
    else
      var consumption := Subtract(end.valueKwh, start.valueKwh);
      if IsBelowZero(consumption) then Err(Decreased) else Ok(consumption)
  }

  function CalculatePeriod(start: BilledReading, end: BilledReading, unitPrice: Number): Result<Calculation, BillingError> {
    var consumption :- CalculateConsumption(start, end);
    if !IsPositivePrice(unitPrice) then Err(InvalidPrice)
    else
      Ok(Calculation(start.id.value, end.id.value, consumption, unitPrice.value,
                     Multiply(consumption, unitPrice.value)))
  }

  /** The rounded difference keeps the sign of the exact one, so rounding never flips the comparison. */
  lemma SubtractionKeepsOrder(a: Decimal, b: Decimal)
    ensures IsBelowZero(Subtract(a, b)) <==> Less(a, b)
    ensures IsZero(Subtract(a, b)) <==> NumEq(a, b)
  {
    var x := Difference(a, b);
    FixRounds(PRECISION, if x == 0 then a.negative && !b.negative else x < 0, Abs(x), Min(a.exponent, b.exponent));
  }

  /**
   * The checks accept a pair exactly when both are stored, of one device, different, the end later in time or at
   * the same time with the greater id, both units are spelled kWh or Wh, and the end is not below the start in an
   * exact comparison.
   */
  lemma ConsumptionIsAcceptedExactly(start: BilledReading, end: BilledReading)
    ensures
      var from, to := Remove(Remove(Lower(Strip(start.sourceUnit)), ' '), '\U{B7}'),
                      Remove(Remove(Lower(Strip(end.sourceUnit)), ' '), '\U{B7}');
      var sound :=
        && start.id.Some? && end.id.Some? && start.deviceId == end.deviceId && start.id != end.id
        && (start.recordedAt < end.recordedAt || (start.recordedAt == end.recordedAt && start.id.value < end.id.value))
        && from in {"kwh", "wh"} && to in {"kwh", "wh"};
      && (CalculateConsumption(start, end).Ok? <==> sound && !Less(end.valueKwh, start.valueKwh))
      && (CalculateConsumption(start, end) == Err(Decreased) <==> sound && Less(end.valueKwh, start.valueKwh))
  {
    hide Subtract, Less, Remove, Lower, Strip;
    SubtractionKeepsOrder(end.valueKwh, start.valueKwh);
  }

  /** What is refused, in the order of the checks. */
  lemma PeriodIsRefusedInOrder(start: BilledReading, end: BilledReading, unitPrice: Number)
    ensures
      var r := CalculatePeriod(start, end, unitPrice);
      var stored, alike := start.id.Some? && end.id.Some?, start.deviceId == end.deviceId;
      && (r == Err(NotPersisted) <==> !stored)
      && (r == Err(DifferentDevices) <==> stored && !alike)
      && (r == Err(SameReading) <==> stored && alike && start.id == end.id)
      && (r == Err(NotLater) <==>
            && stored && alike && start.id != end.id
            && (end.recordedAt < start.recordedAt
                || (end.recordedAt == start.recordedAt && end.id.value < start.id.value)))
      && (r == Err(InvalidPrice) <==>
            && CalculateConsumption(start, end).Ok?
            && (unitPrice.Special? || unitPrice.value.negative || unitPrice.value.digits == "0"))
      && r != Err(MissingPrice)
  {
    hide CanonicalEnergyUnit, Subtract, Multiply;
  }

  /** For two readings at most one of the two orders can be billed. */
  lemma OneOrderOnly(a: BilledReading, b: BilledReading)
    ensures CalculateConsumption(a, b).Err? || CalculateConsumption(b, a).Err?
  {
    hide CanonicalEnergyUnit, Subtract;
  }

  lemma AcceptedIsNotBelow(start: BilledReading, end: BilledReading)
    requires CalculateConsumption(start, end).Ok?
    ensures !Less(end.valueKwh, start.valueKwh)
  {
    hide CanonicalEnergyUnit, Subtract, Less;
    SubtractionKeepsOrder(end.valueKwh, start.valueKwh);
  }

  /** An accepted consumption is the exact difference, rounded half to even at 28 digits and never negative. */
  lemma ConsumptionIsRounded(start: BilledReading, end: BilledReading)
    requires CalculateConsumption(start, end).Ok?
    ensures
      var x := Difference(end.valueKwh, start.valueKwh);
      var r := CalculateConsumption(start, end).value;
      && x >= 0
      && IsRounded(28, r, r.negative, x, Min(start.valueKwh.exponent, end.valueKwh.exponent))
      && (r.negative ==> x == 0)
  {
    hide CanonicalEnergyUnit, IsRounded, Fix, Digits, ToNat, Pow10;
    AcceptedIsNotBelow(start, end);
    var a, b := end.valueKwh, start.valueKwh;
    var x := Difference(a, b);
    FixRounds(PRECISION, if x == 0 then a.negative && !b.negative else x < 0, Abs(x), Min(a.exponent, b.exponent));
    assert Min(a.exponent, b.exponent) == Min(b.exponent, a.exponent);
    ResultSign(a, b);
  }

  lemma ResultSign(a: Decimal, b: Decimal)
    ensures var x := Difference(a, b);
      Subtract(a, b).negative == if x == 0 then a.negative && !b.negative else x < 0
  {
  }

  lemma AcceptedAreStored(start: BilledReading, end: BilledReading)
    requires CalculateConsumption(start, end).Ok?
    ensures start.id.Some? && end.id.Some?
  {
    hide CanonicalEnergyUnit, Subtract;
  }

  /** The billed total is the exact product of consumption and price, rounded the same way. */
  lemma TotalIsRounded(start: BilledReading, end: BilledReading, unitPrice: Number)
    requires CalculatePeriod(start, end, unitPrice).Ok?
    ensures
      var c := CalculatePeriod(start, end, unitPrice).value;
      && CalculateConsumption(start, end) == Ok(c.consumption)
      && Some(c.startId) == start.id && Some(c.endId) == end.id
      && c.unitPrice == unitPrice.value && !IsZero(c.unitPrice) && !c.unitPrice.negative
      && IsRounded(28, c.total, c.consumption.negative,
                   ToNat(c.consumption.digits) * ToNat(c.unitPrice.digits),
                   c.consumption.exponent + c.unitPrice.exponent)
  {
    hide CalculateConsumption, IsRounded, Fix;
    AcceptedAreStored(start, end);
    var c := CalculatePeriod(start, end, unitPrice).value;
    FixRounds(PRECISION, c.consumption.negative, ToNat(c.consumption.digits) * ToNat(c.unitPrice.digits),
              c.consumption.exponent + c.unitPrice.exponent);
  }

  /** No rounding happens when the exact difference has at most 28 digits. */
  predicate IsExactDifference(a: Decimal, b: Decimal) {
    |Digits(Abs(Difference(a, b)))| <= PRECISION
  }

  lemma ExactDifferenceAt(a: Decimal, b: Decimal, k: int)
    requires IsExactDifference(a, b) && k <= a.exponent && k <= b.exponent
    ensures k <= Subtract(a, b).exponent && At(Subtract(a, b), k) == At(a, k) - At(b, k)
  {
    var m := Min(a.exponent, b.exponent);
    var r := Subtract(a, b);
    assert r.exponent == m && At(r, m) == Difference(a, b);
    Rescale(r, m, k);
    Rescale(a, m, k);
    Rescale(b, m, k);
    Distribute(At(b, m), At(a, m), Pow10(m - k));
  }

  /** Consumption over two adjacent periods adds up to the consumption over both, when nothing is rounded. */
  lemma AdjacentPeriodsAddUp(a: BilledReading, b: BilledReading, c: BilledReading, k: int)
    requires CalculateConsumption(a, b).Ok? && CalculateConsumption(b, c).Ok? && CalculateConsumption(a, c).Ok?
    requires IsExactDifference(b.valueKwh, a.valueKwh)
    requires IsExactDifference(c.valueKwh, b.valueKwh)
    requires IsExactDifference(c.valueKwh, a.valueKwh)
    requires k <= a.valueKwh.exponent && k <= b.valueKwh.exponent && k <= c.valueKwh.exponent
    ensures
      var x, y := CalculateConsumption(a, b).value, CalculateConsumption(b, c).value;
      var z := CalculateConsumption(a, c).value;
      && k <= x.exponent && k <= y.exponent && k <= z.exponent
      && At(x, k) + At(y, k) == At(z, k)
  {
    hide CanonicalEnergyUnit, Subtract, IsExactDifference, At;
    ExactDifferenceAt(b.valueKwh, a.valueKwh, k);
    ExactDifferenceAt(c.valueKwh, b.valueKwh, k);
    ExactDifferenceAt(c.valueKwh, a.valueKwh, k);
  }

  // ------------------------------------------------------------ prices typed by a person

  /** `s.replace(from, to)` for single characters. */
  function ReplaceChar(s: string, from: char, to: char): (r: string)
    ensures |r| == |s|
  {
    seq(|s|, i requires 0 <= i < |s| => if s[i] == from then to else s[i])
  }

  /** What the text is turned into before Python reads it: a comma makes every dot a grouping dot. */
  function NormalizedInput(text: string): string {
    var compact := Remove(Remove(Strip(text), ' '), '\U{A0}');
    if ',' in compact then ReplaceChar(Remove(compact, '.'), ',', '.') else compact
  }

  function ParseDecimalInput(text: string): Result<Decimal, BillingError> {
    var normalized := NormalizedInput(text);
    if normalized == "" then Err(InvalidPrice)
    else
      match ReadDecimal(normalized)
      case None => Err(InvalidPrice)
      case Some(d) => Ok(d)
  }

  function ResolveUnitPrice(entered: string, remembered: Option<Number>): Result<Decimal, BillingError> {
    if Strip(entered) != "" then
      var price :- ParseDecimalInput(entered);
      if IsPositivePrice(Finite(price)) then Ok(price) else Err(InvalidPrice)
    else if remembered.Some? then
      if IsPositivePrice(remembered.value) then Ok(remembered.value.value) else Err(InvalidPrice)
    else Err(MissingPrice)
  }

  predicate IsBlank(s: string) {
    forall i | 0 <= i < |s| :: IsSpace(s[i])
  }

  lemma BlankMeansStripped(s: string)
    ensures IsBlank(s) <==> Strip(s) == ""
  {
    hide StripStart, StripEnd, IsSpace;
    var start := StripStart(s);
    if Strip(s) == "" {
      assert start == "";
    } else {
      assert s[|s| - |start|] == start[0];
    }
  }

  /** A price: greater than zero. */
  predicate IsPrice(d: Decimal) {
    !d.negative && d.digits != "0"
  }

  /**
   * A text that is not blank decides alone: the price is what it says, if that is positive, whatever is
   * remembered. A blank text leaves the remembered price, if positive; and with neither the price is missing.
   */
  lemma TypedTextDecides(entered: string, remembered: Option<Number>, d: Decimal)
    ensures
      var r := ResolveUnitPrice(entered, remembered);
      && (!IsBlank(entered) ==>
            && (r == Ok(d) <==> IsPrice(d) && ParseDecimalInput(entered) == Ok(d))
            && (r.Err? ==> r == Err(InvalidPrice))
            && forall other :: ResolveUnitPrice(entered, other) == r)
      && (IsBlank(entered) ==>
            && (r == Ok(d) <==> IsPrice(d) && remembered == Some(Finite(d)))
            && (r == Err(MissingPrice) <==> remembered.None?))
      && (r.Err? ==> r.error in {InvalidPrice, MissingPrice})
  {
    hide ParseDecimalInput, Strip;
    BlankMeansStripped(entered);
    ParseRefusal(entered);
  }

  lemma ParseRefusal(text: string)
    ensures ParseDecimalInput(text).Err? ==> ParseDecimalInput(text) == Err(InvalidPrice)
  {
    hide NormalizedInput, ReadDecimal;
  }

  predicate HasNoBlanks(s: string) {
    forall i | 0 <= i < |s| :: !IsSpace(s[i])
  }

  lemma UnblankedStays(s: string)
    requires HasNoBlanks(s)
    ensures Strip(s) == s && Remove(Remove(s, ' '), '\U{A0}') == s
  {
    hide Strip, Remove, StripStart, StripEnd;
    if s == "" {
      NothingStripped();
    } else {
      NothingToStrip(s);
    }
    assert ' ' !in s && '\U{A0}' !in s;
  }

  lemma NothingStripped()
    ensures Strip("") == ""
  {
  }

  /** Without a comma the text is a number as it stands, its dot being the decimal point. */
  lemma PriceWithoutComma(text: string, d: Decimal)
    requires HasNoBlanks(text) && text != "" && ',' !in text
    ensures ParseDecimalInput(text) == Ok(d) <==> IsWrittenAs(Remove(text, '_'), d)
  {
    hide Strip, Remove, ReadDecimal, IsWrittenAs;
    UnblankedStays(text);
    ReadingIsTheGrammar(text, d);
  }

  /** With one comma every dot is dropped and the comma is the decimal point. */
  lemma PriceWithComma(whole: string, fraction: string, d: Decimal)
    requires HasNoBlanks(whole) && HasNoBlanks(fraction) && ',' !in whole && ',' !in fraction
    ensures ParseDecimalInput(whole + "," + fraction) == Ok(d) <==>
      IsWrittenAs(Remove(Remove(whole, '.') + "." + Remove(fraction, '.'), '_'), d)
  {
    hide Strip, Remove, ReadDecimal, IsWrittenAs, ReplaceChar, IsSpace;
    var text := whole + "," + fraction;
    assert HasNoBlanks(",") by { CommaIsNoBlank(); }
    UnblankedStays(text);
    assert text[|whole|] == ',';
    RemoveDistributes(whole + ",", fraction, '.');
    RemoveDistributes(whole, ",", '.');
    var a, b := Remove(whole, '.'), Remove(fraction, '.');
    FewerCharacters(whole, '.');
    FewerCharacters(fraction, '.');
    OneReplaced(a, b);
    assert NormalizedInput(text) == a + "." + b;
    CommaIsNoBlank();
    UnblankedStays(a + "." + b);
    ReadingIsTheGrammar(a + "." + b, d);
  }

  lemma CommaIsNoBlank()
    ensures HasNoBlanks(",") && HasNoBlanks(".")
  {
  }

  lemma {:induction false} FewerCharacters(s: string, c: char)
    ensures forall x | x in Remove(s, c) :: x in s
    ensures HasNoBlanks(s) ==> HasNoBlanks(Remove(s, c))
  {
    hide IsSpace;
    if s != "" {
      FewerCharacters(s[1..], c);
    }
  }

  lemma {:induction false} RemoveKeepsEnds(s: string, c: char)
    requires s != "" && s[|s| - 1] != c
    ensures var r := Remove(s, c); r != "" && r[|r| - 1] == s[|s| - 1] && (s[0] != c ==> r[0] == s[0])
    decreases |s|
  {
    if |s| > 1 {
      RemoveKeepsEnds(s[1..], c);
    }
  }

  lemma StrippedEnds(text: string)
    ensures var s := Strip(text); s != "" ==> !IsSpace(s[0]) && !IsSpace(s[|s| - 1])
  {
    hide StripStart, StripEnd, IsSpace;
  }

  /** Blanks around the text, and spaces and no-break spaces inside it, make no difference. */
  lemma SpacesAreIgnored(text: string)
    ensures ParseDecimalInput(text) == ParseDecimalInput(Remove(Remove(Strip(text), ' '), '\U{A0}'))
  {
    hide Strip, Remove, ReadDecimal, ReplaceChar;
    var s := Strip(text);
    var once := Remove(s, ' ');
    var compact := Remove(once, '\U{A0}');
    FewerCharacters(once, '\U{A0}');
    assert ' ' !in compact;
    StrippedEnds(text);
    if s != "" {
      RemoveKeepsEnds(s, ' ');
      RemoveKeepsEnds(once, '\U{A0}');
      NothingToStrip(compact);
    } else {
      assert once == "" && compact == "";
      NothingStripped();
    }
    assert Strip(compact) == compact;
  }

  lemma OneReplaced(a: string, b: string)
    requires ',' !in a && ',' !in b
    ensures ReplaceChar(a + "," + b, ',', '.') == a + "." + b
  {
    assert forall i | 0 <= i < |a| :: a[i] in a;
    assert forall i | 0 <= i < |b| :: b[i] in b;
  }

  /** A resolved price is always accepted by the period calculation: nothing billed needs a second check. */
  lemma ResolvedPriceIsBillable(entered: string, remembered: Option<Number>, start: BilledReading, end: BilledReading)
    requires ResolveUnitPrice(entered, remembered).Ok? && CalculateConsumption(start, end).Ok?
    ensures CalculatePeriod(start, end, Finite(ResolveUnitPrice(entered, remembered).value)).Ok?
    ensures
      var c := CalculatePeriod(start, end, Finite(ResolveUnitPrice(entered, remembered).value)).value;
      IsZero(c.total) <==> NumEq(start.valueKwh, end.valueKwh)
  {
    hide ParseDecimalInput, CalculateConsumption, Fix, Multiply;
    var price := ResolveUnitPrice(entered, remembered).value;
    ZeroTotal(start, end, price);
  }

  lemma ZeroTotal(start: BilledReading, end: BilledReading, price: Decimal)
    requires CalculateConsumption(start, end).Ok? && IsPositivePrice(Finite(price))
    ensures IsZero(Multiply(CalculateConsumption(start, end).value, price)) <==> NumEq(start.valueKwh, end.valueKwh)
  {
    hide CanonicalEnergyUnit, Fix, NumEq;
    var c := CalculateConsumption(start, end).value;
    SubtractionKeepsOrder(end.valueKwh, start.valueKwh);
    NumEqSymmetric(start.valueKwh, end.valueKwh);
    FixRounds(PRECISION, c.negative != price.negative, ToNat(c.digits) * ToNat(price.digits), c.exponent + price.exponent);
    ZeroCoefficient(c);
    ZeroCoefficient(price);
    SignOfProduct(ToNat(c.digits), ToNat(price.digits));
  }

  lemma NumEqSymmetric(a: Decimal, b: Decimal)
    ensures NumEq(a, b) <==> NumEq(b, a)
  {
  }
}
