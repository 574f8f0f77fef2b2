/**
 * Canonical text of a Decimal, the length computed without rendering it, and energy
 * normalization by exponent shift (src/tatatuya/domain/energy.py).
 */
module Energy {
  import Arithmetic
  import opened Common
  import opened Decimals
  import opened Numerals

  const MAX_CANONICAL_DECIMAL_CHARACTERS := 128
  const MAX_ENERGY_SCALE := MAX_CANONICAL_DECIMAL_CHARACTERS - 5

  datatype EnergyError = NotFinite | InvalidScale | InvalidValue | Oversized | UnknownUnit

  /** Any Decimal, infinities and NaNs included. */
  datatype Number = Finite(value: Decimal) | Special

  // ------------------------------------------------------------ canonical text

  /** `s.rstrip(c)` */
  function TrimEnd(s: string, c: char): (r: string)
    ensures r <= s
    ensures r == [] || r[|r| - 1] != c
  {
    if s != [] && s[|s| - 1] == c then TrimEnd(s[..|s| - 1], c) else s
  }

  /** Trailing zeros and a trailing point go, but only from a text that has a point. */
  function Trimmed(rendered: string): string {
    if '.' in rendered then TrimEnd(TrimEnd(rendered, '0'), '.') else rendered
  }

  /** `canonical_decimal` without its length check. */
  function CanonicalText(d: Decimal): string {
    if IsZero(d) then "0"
    else
      var text := Trimmed(FixedText(d));
      if text == "" then "0" else text
  }

  function CanonicalDecimal(n: Number): Result<string, EnergyError> {
    if n.Special? then Err(NotFinite)
    else if |CanonicalText(n.value)| > MAX_CANONICAL_DECIMAL_CHARACTERS then Err(Oversized)
    else Ok(CanonicalText(n.value))
  }

  lemma {:induction false} TrimZeros(s: string, n: nat)
    requires s == [] || s[|s| - 1] != '0'
    ensures TrimEnd(s + Zeros(n), '0') == s
  {
    if n == 0 {
      assert s + Zeros(0) == s;
    } else {
      assert (s + Zeros(n))[..|s| + n - 1] == s + Zeros(n - 1);
      TrimZeros(s, n - 1);
    }
  }

  lemma TrimPoint(s: string)
    requires s != [] && s[|s| - 1] != '.'
    ensures TrimEnd(s, '.') == s
    ensures TrimEnd(s + ".", '.') == s
  {
    assert (s + ".")[..|s|] == s;
  }

  lemma ReducedWholeText(d: Decimal)
    requires !IsZero(d) && d.exponent >= 0
    ensures FixedText(d) == FixedText(Reduced(d)) && '.' !in FixedText(d)
  {
    var r := Reduced(d);
    var n := |d.digits| - |r.digits|;
    assert d.digits + Zeros(d.exponent) == r.digits + Zeros(n + d.exponent);
  }

  /** All fraction digits are zeros. */
  lemma EmptyFractionText(d: Decimal)
    requires !IsZero(d) && d.exponent < 0 <= Reduced(d).exponent
    ensures FixedText(d) == FixedText(Reduced(d)) + "." + Zeros(-d.exponent)
  {
    var r := Reduced(d);
    var point := |d.digits| + d.exponent;
    assert d.digits[..point] == r.digits + Zeros(r.exponent);
    assert d.digits[point..] == Zeros(-d.exponent);
    assert UnsignedFixedText(d) == UnsignedFixedText(r) + "." + Zeros(-d.exponent);
  }

  /** Some fraction digit is not zero. */
  lemma ShorterFractionText(d: Decimal)
    requires !IsZero(d) && Reduced(d).exponent < 0
    ensures FixedText(d) == FixedText(Reduced(d)) + Zeros(|d.digits| - |Reduced(d).digits|)
  {
    hide IsZero, ToNat, Pow10;
    var r := Reduced(d);
    var n := |d.digits| - |r.digits|;
    var point := |d.digits| + d.exponent;
    if point > 0 {
      assert d.digits[..point] == r.digits[..point];
      assert d.digits[point..] == r.digits[point..] + Zeros(n);
    } else {
      assert "0." + Zeros(-point) + d.digits == "0." + Zeros(-point) + r.digits + Zeros(n);
    }
    assert UnsignedFixedText(d) == UnsignedFixedText(r) + Zeros(n);
  }

  /** The last character of the text of a reduced number is a digit, and its last digit when it has a fraction. */
  lemma TextEnds(r: Decimal)
    ensures var text := FixedText(r);
      && text != "" && IsDigit(text[|text| - 1])
      && (!IsZero(r) && r.exponent < 0 ==> text[|text| - 1] == r.digits[|r.digits| - 1])
  {
    var u := UnsignedFixedText(r);
    assert u != "" && FixedText(r)[|FixedText(r)| - 1] == u[|u| - 1];
    if !IsZero(r) && r.exponent < 0 {
      assert u[|u| - 1] == r.digits[|r.digits| - 1];
    }
  }

  lemma TrimDroppedFraction(text: string, n: nat)
    requires text != "" && IsDigit(text[|text| - 1])
    ensures Trimmed(text + "." + Zeros(n)) == text
  {
    TrimZeros(text + ".", n);
    TrimPoint(text);
    assert (text + "." + Zeros(n))[|text|] == '.';
  }

  lemma TrimShorterFraction(text: string, n: nat)
    requires text != "" && IsDigit(text[|text| - 1]) && text[|text| - 1] != '0' && '.' in text
    ensures Trimmed(text + Zeros(n)) == text
  {
    TrimZeros(text, n);
    TrimPoint(text);
    var i :| 0 <= i < |text| && text[i] == '.';
    assert (text + Zeros(n))[i] == '.';
  }

  lemma PointInFraction(d: Decimal)
    requires d.exponent < 0
    ensures '.' in FixedText(d)
  {
    FixedTextParts(d);
    assert FixedText(d)[|SignText(d.negative)| + |WholePart(d)|] == '.';
  }

  lemma CanonicalWithFraction(d: Decimal)
    requires !IsZero(d) && d.exponent < 0
    ensures Trimmed(FixedText(d)) == FixedText(Reduced(d))
  {
    hide *;
    var r := Reduced(d);
    TextEnds(r);
    if r.exponent >= 0 {
      EmptyFractionText(d);
      TrimDroppedFraction(FixedText(r), -d.exponent);
    } else {
      ShorterFractionText(d);
      PointInFraction(r);
      TrimShorterFraction(FixedText(r), |d.digits| - |r.digits|);
    }
  }

  /** Trimming the text is the same as trimming the coefficient first. */
  lemma CanonicalIsReducedText(d: Decimal)
    requires !IsZero(d)
    ensures CanonicalText(d) == FixedText(Reduced(d))
  {
    TextEnds(Reduced(d));
    if d.exponent < 0 {
      CanonicalWithFraction(d);
    } else {
      ReducedWholeText(d);
    }
  }

  // ------------------------------------------------------------ the length without rendering

  lemma FixedTextLength(r: Decimal)
    requires !IsZero(r)
    ensures |FixedText(r)| == (if r.negative then 1 else 0) +
      (if r.exponent >= 0 then |r.digits| + r.exponent
       else if |r.digits| + r.exponent > 0 then |r.digits| + 1
       else 2 - r.exponent)
  {
  }

  /** `canonical_decimal_length`: tuple arithmetic that agrees with the rendered text. */
  method CanonicalDecimalLength(d: Decimal) returns (length: nat)
    ensures length == |CanonicalText(d)|
  {
    if d.digits == "0" {
      return 1;
    }
    var trailingZeros := 0;
    while trailingZeros < |d.digits| && d.digits[|d.digits| - 1 - trailingZeros] == '0'
      invariant 0 <= trailingZeros <= |d.digits|
      invariant forall i | |d.digits| - trailingZeros <= i < |d.digits| :: d.digits[i] == '0'
    {
      trailingZeros := trailingZeros + 1;
    }
    CanonicalIsReducedText(d);
    FixedTextLength(Reduced(d));
    assert trailingZeros == |d.digits| - |Reduced(d).digits| by {
      var r := Reduced(d);
      assert d.digits[|r.digits| - 1] != '0';
      assert trailingZeros < |d.digits| && d.digits[|d.digits| - 1 - trailingZeros] != '0';
      assert forall i | |r.digits| <= i < |d.digits| :: d.digits[i] == Zeros(|d.digits| - |r.digits|)[i - |r.digits|];
    }
    var sign := if d.negative then 1 else 0;
    var significantCount := |d.digits| - trailingZeros;
    var canonicalExponent := d.exponent + trailingZeros;
    if canonicalExponent >= 0 {
      return sign + significantCount + canonicalExponent;
    }
    if significantCount + canonicalExponent > 0 {
      return sign + significantCount + 1;
    }
    return sign + 2 - canonicalExponent;
  }

  // ------------------------------------------------------------ text identifies the number

  lemma CanonicalTextReadsBack(d: Decimal)
    ensures ReadDecimal(CanonicalText(d)).Some?
    ensures NumEq(ReadDecimal(CanonicalText(d)).value, d)
  {
    if IsZero(d) {
      var zero := DecimalParts.Decimal(false, "0", 0);
      FixedTextReadsBack(zero);
      assert FixedText(zero) == "0";
      ZerosAreEqual(zero, d);
      NumEqTransitive(ReadDecimal("0").value, zero, d);
    } else {
      CanonicalIsReducedText(d);
      ReducedKeepsValue(d);
      FixedTextReadsBack(Reduced(d));
      assert NumEq(Reduced(d), d);
      NumEqTransitive(ReadDecimal(CanonicalText(d)).value, Reduced(d), d);
    }
  }

  lemma ZerosAreEqual(a: Decimal, b: Decimal)
    requires IsZero(a)
    ensures NumEq(a, b) <==> IsZero(b)
  {
    ZeroCoefficient(a);
    ZeroCoefficient(b);
    var k := Min(a.exponent, b.exponent);
    Arithmetic.SignOfProduct(Coefficient(b), Pow10(b.exponent - k));
  }

  /** Two Decimals have the same canonical text exactly when they are numerically equal. */
  lemma TextIdentifiesNumber(a: Decimal, b: Decimal)
    ensures CanonicalText(a) == CanonicalText(b) <==> NumEq(a, b)
  {
    if NumEq(a, b) {
      EqualNumbersShareText(a, b);
    }
    if CanonicalText(a) == CanonicalText(b) {
      SharedTextMeansEqual(a, b);
    }
  }

  lemma EqualNumbersShareText(a: Decimal, b: Decimal)
    requires NumEq(a, b)
    ensures CanonicalText(a) == CanonicalText(b)
  {
    assert NumEq(b, a);
    if IsZero(a) {
      ZerosAreEqual(a, b);
    } else if IsZero(b) {
      ZerosAreEqual(b, a);
    } else {
      ReducedIsUnique(a, b);
      CanonicalIsReducedText(a);
      CanonicalIsReducedText(b);
    }
  }

  lemma SharedTextMeansEqual(a: Decimal, b: Decimal)
    requires CanonicalText(a) == CanonicalText(b)
    ensures NumEq(a, b)
  {
    CanonicalTextReadsBack(a);
    CanonicalTextReadsBack(b);
    NumEqTransitive(a, ReadDecimal(CanonicalText(a)).value, b);
  }

  // ------------------------------------------------------------ normalization

  datatype EnergyUnit = KWh | Wh

  /** What a status report or a specification can hold as a raw value. */
  datatype RawValue = Boolean(b: bool) | Numeric(n: Number) | Integer(i: int) | Text(s: string)

  /** `str.lower` where it can produce the letters of a supported unit: A-Z and the Kelvin sign. */
  function LowerChar(c: char): char {
    if 'A' <= c <= 'Z' then c - 'A' + 'a' else if c == '\U{212A}' then 'k' else c
  }

  function Lower(s: string): string {
    seq(|s|, i requires 0 <= i < |s| => LowerChar(s[i]))
  }

  function CanonicalEnergyUnit(unit: string): Option<EnergyUnit> {
    var normalized := Remove(Remove(Lower(Strip(unit)), ' '), '\U{B7}');
    if normalized == "kwh" then Some(KWh)
    else if normalized == "wh" then Some(Wh)
    else None
  }

  /** `Decimal(i)` */
  function FromInteger(i: int): Decimal {
    Decimal(i < 0, Digits(if i < 0 then -i else i), 0)
  }

  /** The Decimal a raw value denotes; anything but a finite number is an invalid value. */
  function RawDecimal(raw: RawValue): Option<Decimal> {
    match raw
    case Boolean(_) => None
    case Numeric(n) => if n.Finite? then Some(n.value) else None
    case Integer(i) => Some(FromInteger(i))
    case Text(s) => ReadDecimal(Strip(s))
  }

  /** `_shift_decimal`: division by a power of ten that only changes the exponent. */
  function ShiftDecimal(d: Decimal, places: int): Decimal {
    d.(exponent := d.exponent - places)
  }

  predicate Fits(d: Decimal) {
    |CanonicalText(d)| <= MAX_CANONICAL_DECIMAL_CHARACTERS
  }

  function Places(scale: int, unit: EnergyUnit): int {
    if unit.KWh? then scale else scale + 3
  }

  function NormalizeEnergy(raw: RawValue, scale: int, unit: string): Result<Decimal, EnergyError> {
    if scale < 0 || scale > MAX_ENERGY_SCALE then Err(InvalidScale)
    else
      var d := RawDecimal(raw);
      if d.None? then Err(InvalidValue)
      else if !Fits(d.value) then Err(Oversized)
      else
        var u := CanonicalEnergyUnit(unit);
        if u.None? then Err(UnknownUnit)
        else
          var normalized := ShiftDecimal(d.value, Places(scale, u.value));
          if Fits(normalized) then Ok(normalized) else Err(Oversized)
  }

  lemma ShiftIsExact(d: Decimal, places: int, k: int)
    requires k <= d.exponent
    ensures At(ShiftDecimal(d, places), k - places) == At(d, k)
  {
  }

  /** What a raw value says: a finite number, an integer, or a text that writes a number down between its spaces. */
  ghost predicate IsRawNumber(raw: RawValue, d: Decimal) {
    match raw
    case Boolean(_) => false
    case Numeric(n) => n == Finite(d)
    case Integer(i) => IsInteger(d, i)
    case Text(s) => IsWrittenAs(Remove(Strip(s), '_'), d)
  }

  /** The Decimal of an integer: no places, its digits, its sign. */
  predicate IsInteger(d: Decimal, i: int) {
    d.exponent == 0 && ToNat(d.digits) == (if i < 0 then -i else i) && d.negative == (i < 0)
  }

  lemma IntegerIsItsDecimal(i: int, d: Decimal)
    ensures FromInteger(i) == d <==> IsInteger(d, i)
  {
    hide ToNat, Digits;
    var n := if i < 0 then -i else i;
    if ToNat(d.digits) == n {
      DigitsAreUnique(Digits(n), d.digits);
    }
  }

  lemma RawNumberIsReadExactly(raw: RawValue, d: Decimal)
    ensures RawDecimal(raw) == Some(d) <==> IsRawNumber(raw, d)
  {
    hide ReadDecimal, IsWrittenAs, Strip, Remove, FromInteger, IsInteger;
    match raw {
      case Integer(i) => IntegerIsItsDecimal(i, d);
      case Text(s) =>
        StripTwice(s);
        ReadingIsTheGrammar(s, d);
      case _ =>
    }
  }

  /**
   * A raw value is accepted as `n` exactly when the scale is from 0 to 123, the unit is spelled kWh or Wh, and the
   * raw value is `n` times ten to the scale, or to the scale and three for Wh, both within 128 characters.
   */
  lemma EnergyIsAcceptedExactly(raw: RawValue, scale: int, unit: string, n: Decimal)
    ensures NormalizeEnergy(raw, scale, unit) == Ok(n) <==>
      var spelling := Remove(Remove(Lower(Strip(unit)), ' '), '\U{B7}');
      var asKWh, asWh := n.(exponent := n.exponent + scale), n.(exponent := n.exponent + (scale + 3));
      && 0 <= scale <= 123 && |CanonicalText(n)| <= 128
      && ((spelling == "kwh" && IsRawNumber(raw, asKWh) && |CanonicalText(asKWh)| <= 128)
          || (spelling == "wh" && IsRawNumber(raw, asWh) && |CanonicalText(asWh)| <= 128))
  {
    hide RawDecimal, IsRawNumber, CanonicalText, Remove, Strip, Lower;
    RawNumberIsReadExactly(raw, n.(exponent := n.exponent + scale));
    RawNumberIsReadExactly(raw, n.(exponent := n.exponent + (scale + 3)));
  }

  /** What is refused, in the order of the checks: the scale, the value, its length, the unit, the result's length. */
  lemma EnergyIsRefusedInOrder(raw: RawValue, scale: int, unit: string)
    ensures
      var r := NormalizeEnergy(raw, scale, unit);
      var spelling := Remove(Remove(Lower(Strip(unit)), ' '), '\U{B7}');
      && (r == Err(InvalidScale) <==> scale < 0 || scale > 123)
      && (r == Err(InvalidValue) <==> 0 <= scale <= 123 && forall d :: !IsRawNumber(raw, d))
      && (r == Err(UnknownUnit) <==>
            && 0 <= scale <= 123 && spelling != "kwh" && spelling != "wh"
            && exists d :: IsRawNumber(raw, d) && |CanonicalText(d)| <= 128)
      && r != Err(NotFinite)
  {
    hide RawDecimal, IsRawNumber, CanonicalText, Remove, Strip, Lower;
    forall d ensures RawDecimal(raw) == Some(d) <==> IsRawNumber(raw, d) {
      RawNumberIsReadExactly(raw, d);
    }
    if RawDecimal(raw).Some? {
      assert IsRawNumber(raw, RawDecimal(raw).value);
    }
  }

  /** The same raw value and scale in the two units: one thousandth apart. */
  lemma UnitSamples()
    ensures NormalizeEnergy(Integer(12345), 2, " kWh ") == Ok(DecimalParts.Decimal(false, "12345", -2))
    ensures NormalizeEnergy(Integer(12345), 2, "Wh") == Ok(DecimalParts.Decimal(false, "12345", -5))
    ensures NormalizeEnergy(Integer(12345), 2, "\U{212A}\U{B7}Wh") == Ok(DecimalParts.Decimal(false, "12345", -2))
    ensures NormalizeEnergy(Integer(12345), 2, "MWh") == Err(UnknownUnit)
  {
    hide CanonicalText, Fits, ToNat, Digits, Remove, Strip, Lower;
    var raw: Decimal := DecimalParts.Decimal(false, "12345", 0);
    FiveDigits();
    SampleSpellings();
    FiveDigitsFit(raw);
    FiveDigitsFit(raw.(exponent := -2));
    FiveDigitsFit(raw.(exponent := -5));
  }

  lemma FiveDigits()
    ensures FromInteger(12345) == Decimal(false, "12345", 0)
  {
    assert "12345"[..4] == "1234" && "1234"[..3] == "123" && "123"[..2] == "12" && "12"[..1] == "1" && "1"[..0] == "";
    assert ToNat("12345") == 12345;
    IntegerIsItsDecimal(12345, Decimal(false, "12345", 0));
  }

  lemma FiveDigitsFit(d: Decimal)
    requires d.digits == "12345" && -5 <= d.exponent <= 0 && !d.negative
    ensures Fits(d)
  {
    assert Reduced(d) == d;
    CanonicalIsReducedText(d);
    FixedTextLength(d);
  }

  lemma SampleSpellings()
    ensures Remove(Remove(Lower(Strip(" kWh ")), ' '), '\U{B7}') == "kwh"
    ensures Remove(Remove(Lower(Strip("Wh")), ' '), '\U{B7}') == "wh"
    ensures Remove(Remove(Lower(Strip("\U{212A}\U{B7}Wh")), ' '), '\U{B7}') == "kwh"
    ensures Remove(Remove(Lower(Strip("MWh")), ' '), '\U{B7}') == "mwh"
  {
    hide Remove, Strip;
    assert " " + "kWh" + " " == " kWh ";
    Unspaced("kWh");
    Unspaced("Wh");
    Unspaced("MWh");
    Unspaced("\U{212A}\U{B7}Wh");
    var spaced := "k" + "\U{B7}" + "wh";
    assert Lower("\U{212A}\U{B7}Wh") == spaced;
    RemoveDistributes("k" + "\U{B7}", "wh", '\U{B7}');
    RemoveDistributes("k", "\U{B7}", '\U{B7}');
    NothingLeft('\U{B7}');
    assert Lower("kWh") == "kwh" && Lower("Wh") == "wh" && Lower("MWh") == "mwh";
  }

  lemma NothingLeft(c: char)
    ensures Remove([c], c) == ""
  {
  }

  lemma Unspaced(s: string)
    requires s != "" && !IsSpace(s[0]) && !IsSpace(s[|s| - 1])
    ensures Strip(" " + s + " ") == s && Strip(s) == s
  {
    assert (" " + s + " ")[1..] == s + " ";
    assert (s + " ")[..|s|] == s;
  }

  /**
   * An accepted result times ten to the places is the raw value, at every scale the raw value reaches. The places
   * are the scale for kWh and three more for Wh.
   */
  lemma NormalizationIsExact(raw: RawValue, scale: int, unit: string, k: int)
    requires NormalizeEnergy(raw, scale, unit).Ok?
    requires k <= RawDecimal(raw).value.exponent
    ensures
      var d, n := RawDecimal(raw).value, NormalizeEnergy(raw, scale, unit).value;
      var spelling := Remove(Remove(Lower(Strip(unit)), ' '), '\U{B7}');
      var places := if spelling == "kwh" then scale else scale + 3;
      && (spelling == "kwh" || spelling == "wh")
      && places >= 0 && n.exponent == d.exponent - places && n.negative == d.negative && n.digits == d.digits
      && At(n, k - places) == At(d, k)
      && At(n, k - places) * Pow10(places) == At(d, k - places)
      && |CanonicalText(n)| <= 128 && |CanonicalText(d)| <= 128
      && 0 <= scale <= 123
  {
    hide RawDecimal, CanonicalText, Pow10, ToNat, Remove, Strip, Lower;
    var d := RawDecimal(raw).value;
    var places := Places(scale, CanonicalEnergyUnit(unit).value);
    assert NormalizeEnergy(raw, scale, unit).value == ShiftDecimal(d, places);
    ShiftIsExact(d, places, k);
    Rescale(d, k, k - places);
  }

  /** Normalization preserves the order of raw values, strictly and both ways. */
  lemma NormalizationIsMonotone(a: RawValue, b: RawValue, scale: int, unit: string)
    requires NormalizeEnergy(a, scale, unit).Ok? && NormalizeEnergy(b, scale, unit).Ok?
    ensures
      var x, y := NormalizeEnergy(a, scale, unit).value, NormalizeEnergy(b, scale, unit).value;
      && (Less(x, y) <==> Less(RawDecimal(a).value, RawDecimal(b).value))
      && (NumEq(x, y) <==> NumEq(RawDecimal(a).value, RawDecimal(b).value))
  {
    hide RawDecimal, CanonicalText, Pow10, ToNat, Remove, Strip, Lower;
    var d, e := RawDecimal(a).value, RawDecimal(b).value;
    var k := Min(d.exponent, e.exponent);
    NormalizationIsExact(a, scale, unit, k);
    NormalizationIsExact(b, scale, unit, k);
    var places := Places(scale, CanonicalEnergyUnit(unit).value);
    CompareAt(NormalizeEnergy(a, scale, unit).value, NormalizeEnergy(b, scale, unit).value, k - places);
  }

  /** The scale limit is exactly where the smallest positive raw value stops fitting in one of the units. */
  lemma MaxScaleIsTight(scale: nat)
    ensures
      var one := DecimalParts.Decimal(false, "1", 0);
      (scale <= 123) <==>
      (Fits(ShiftDecimal(one, Places(scale, KWh))) && Fits(ShiftDecimal(one, Places(scale, Wh))))
  {
    hide CanonicalText, FixedText, ToNat, Pow10;
    var one := DecimalParts.Decimal(false, "1", 0);
    forall unit: EnergyUnit
      ensures var places := Places(scale, unit);
        |CanonicalText(ShiftDecimal(one, places))| == if places == 0 then 1 else places + 2
    {
      var d := ShiftDecimal(one, Places(scale, unit));
      assert Reduced(d) == d;
      CanonicalIsReducedText(d);
      FixedTextLength(d);
    }
  }
}
