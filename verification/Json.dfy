/** Typed JSON values as Python's `json` module delivers them, and the checks made on them. */
module Json {
  import opened Arithmetic
  import opened Common
  import opened Decimals
  import opened Energy
  import opened Numerals

  /** `Float` stands for the literals NaN and Infinity, the only ones read as binary floats. */
  datatype Value =
    | Null
    | Bool(b: bool)
    | Int(i: int)
    | Num(d: Decimal)
    | Float
    | Str(s: string)
    | Arr(items: seq<Value>)
    | Obj(fields: map<string, Value>)

  datatype Refusal = Invalid | Limit

  const MAX_REPORT_INTEGER: nat := 9_223_372_036_854_775_807

  function Field(fields: map<string, Value>, name: string): Value {
    if name in fields then fields[name] else Null
  }

  /** The number a boolean, an integer or a Decimal is equal to under Python's `==`. */
  function NumericValue(v: Value): Option<Decimal> {
    match v
    case Bool(b) => Some(FromInteger(if b then 1 else 0))
    case Int(i) => Some(FromInteger(i))
    case Num(d) => Some(d)
    case _ => None
  }

  /** Python's `==`: numbers and booleans compare by value, everything else by structure. */
  predicate PythonEqual(a: Value, b: Value) {
    var x, y := NumericValue(a), NumericValue(b);
    if x.Some? && y.Some? then NumEq(x.value, y.value) else a == b
  }

  /** `_aliased_page_field` for a field with up to two names: contradicting aliases are refused. */
  function AliasedField(page: map<string, Value>, name: string, alias: string): Result<Option<Value>, Refusal> {
    if name in page then
      if alias in page && !PythonEqual(page[alias], page[name]) then Err(Invalid) else Ok(Some(page[name]))
    else if alias in page then Ok(Some(page[alias]))
    else Ok(None)
  }

  /** The integer a Decimal equals, if it is integral. */
  function IntegralValue(d: Decimal): Option<int> {
    if d.exponent >= 0 then Some(Coefficient(d) * Pow10(d.exponent))
    else if Coefficient(d) % Pow10(-d.exponent) == 0 then Some(Coefficient(d) / Pow10(-d.exponent))
    else None
  }

  function NonNegativeInteger(v: Value): Result<nat, Refusal> {
    match v
    case Num(d) =>
      var i := IntegralValue(d);
      if d.negative || i.None? || i.value < 0 || i.value > MAX_REPORT_INTEGER then Err(Invalid) else Ok(i.value)
    case Int(i) => if 0 <= i <= MAX_REPORT_INTEGER then Ok(i) else Err(Invalid)
    case _ => Err(Invalid)
  }

  /** The exponent mark of `str(d)`: none for zero. */
  function ExponentText(shift: int): string {
    if shift == 0 then ""
    else if shift > 0 then "E+" + Digits(shift)
    else "E-" + Digits(-shift)
  }

  /** `str(d)`: to-scientific-string. */
  function ScientificText(d: Decimal): string {
    var left := d.exponent + |d.digits|;
    var point := if d.exponent <= 0 && left > -6 then left else 1;
    var mantissa :=
      if point <= 0 then "0." + Zeros(-point) + d.digits
      else if point >= |d.digits| then d.digits + Zeros(point - |d.digits|)
      else d.digits[..point] + "." + d.digits[point..];
    SignText(d.negative) + (mantissa + ExponentText(left - point))
  }

  /** `(?:0|[1-9][0-9]*)(?:\.[0-9]+)?(?:[eE][+-]?[0-9]+)?` */
  predicate MatchesDecimalText(s: string) {
    var e := IndexOf(s, 'e', 'E');
    var mantissa := s[..e];
    var point := IndexOf(mantissa, '.', '.');
    var whole := mantissa[..point];
    && whole != "" && AllDigits(whole) && (whole[0] == '0' ==> |whole| == 1)
    && (point < |mantissa| ==> mantissa[point + 1..] != "" && AllDigits(mantissa[point + 1..]))
    && (e < |s| ==> Unsigned(s[e + 1..]) != "" && AllDigits(Unsigned(s[e + 1..])))
  }

  /** The Decimal and the text that `parse_report_decimal` goes on to check. */
  function ReportNumber(v: Value): Option<(Decimal, string)> {
    match v
    case Num(d) => if IsZero(d) && d.negative then None else Some((d, ScientificText(d)))
    case Int(i) => Some((FromInteger(i), SignText(i < 0) + FromInteger(i).digits))
    case Str(s) =>
      if |s| > 128 || !MatchesDecimalText(s) || ReadDecimal(s).None? then None else Some((ReadDecimal(s).value, s))
    case _ => None
  }

  function ParseReportDecimal(v: Value): Result<Decimal, Refusal> {
    var n := ReportNumber(v);
    if n.None? then Err(Invalid)
    else
      var (d, text) := n.value;
      if |text| > 128 || (d.negative && !IsZero(d)) || |d.digits| > 64 || !Fits(d) then Err(Invalid) else Ok(d)
  }

  /** `_diagnostic_json` renders the row: every Decimal inside it must fit the canonical bound. */
  predicate DiagnosticFits(v: Value) {
    match v
    case Num(d) => Fits(d)
    case Arr(items) => forall i | 0 <= i < |items| :: DiagnosticFits(items[i])
    case Obj(fields) => forall k | k in fields :: DiagnosticFits(fields[k])
    case _ => true
  }

  // ------------------------------------------------------------ what a passed check means

  /** The value is the integer `n`, in range, written as an integer or as an equal non-negative decimal. */
  predicate IsWholeNumber(v: Value, n: int) {
    && 0 <= n <= 9_223_372_036_854_775_807
    && (v == Int(n) || (v.Num? && !v.d.negative && NumEq(v.d, FromInteger(n))))
  }

  /** Exactly the integers in range are accepted, whether written as integers or as equal non-negative decimals. */
  lemma IntegersAreExact(v: Value, n: nat)
    ensures NonNegativeInteger(v) == Ok(n) <==> IsWholeNumber(v, n)
  {
    if v.Num? && !v.d.negative {
      var d, p := v.d, Pow10(if v.d.exponent < 0 then -v.d.exponent else 0);
      assert FromInteger(n).exponent == 0 && At(FromInteger(n), 0) == n;
      DivisionFacts(Coefficient(d), p);
      if d.exponent >= 0 {
        SignOfProduct(Coefficient(d), Pow10(d.exponent));
      } else {
        assert NumEq(d, FromInteger(n)) <==> Coefficient(d) == n * p;
        CancelFactor(n, Coefficient(d) / p, p);
        if Coefficient(d) == n * p {
          Distribute(n, 1, p);
          QuotientIsUnique(Coefficient(d), p, n);
        }
      }
    }
  }

  lemma ReadExponentText(shift: int)
    requires shift != 0
    ensures ExponentText(shift) != ""
    ensures ReadExponent(ExponentText(shift)[1..]) == Some(shift)
    ensures ExponentText(shift)[0] == 'E'
    ensures forall i | 0 <= i < |ExponentText(shift)| :: IsNumberChar(ExponentText(shift)[i])
  {
    hide ToNat, Digits;
    var digits := Digits(if shift > 0 then shift else -shift);
    assert ExponentText(shift)[1..][1..] == digits;
  }

  lemma ExponentPosition(mantissa: string, mark: string)
    requires forall i | 0 <= i < |mantissa| :: IsPlain(mantissa[i])
    requires mark != "" && mark[0] == 'E'
    ensures IndexOf(mantissa, 'e', 'E') == |mantissa| && mantissa[..|mantissa|] == mantissa
    ensures IndexOf(mantissa + mark, 'e', 'E') == |mantissa| < |mantissa + mark|
    ensures (mantissa + mark)[..|mantissa|] == mantissa && (mantissa + mark)[|mantissa| + 1..] == mark[1..]
  {
    assert (mantissa + mark)[|mantissa|] == 'E';
    assert forall i | 0 <= i < |mantissa| :: (mantissa + mark)[i] == mantissa[i];
  }

  /** An exponent mark moves the exponent of what its mantissa reads as. */
  lemma ReadWithExponent(negative: bool, mantissa: string, shift: int)
    requires forall i | 0 <= i < |mantissa| :: IsPlain(mantissa[i])
    requires ReadUnsigned(mantissa, negative).Some?
    ensures ReadUnsigned(mantissa + ExponentText(shift), negative)
         == Some(ReadUnsigned(mantissa, negative).value.(
                   exponent := ReadUnsigned(mantissa, negative).value.exponent + shift))
  {
    hide IndexOf, ExponentText, ReadExponent, WithoutLeadingZeros, ToNat;
    if shift == 0 {
      assert ExponentText(0) == "" by { NoExponent(); }
      assert mantissa + ExponentText(shift) == mantissa;
    } else {
      ReadExponentText(shift);
      ExponentPosition(mantissa, ExponentText(shift));
    }
  }

  lemma NoExponent()
    ensures ExponentText(0) == ""
  {
  }

  /** `Decimal(str(d))` is `d`. */
  lemma ScientificTextReadsBack(d: Decimal)
    ensures ReadDecimal(ScientificText(d)) == Some(d)
  {
    hide ReadUnsigned, ReadDecimal, ToNat, ExponentText;
    var left := d.exponent + |d.digits|;
    var point := if d.exponent <= 0 && left > -6 then left else 1;
    var mantissa := MantissaReads(d, point);
    ScientificRead(d, mantissa, left - point);
  }

  /** The digits with a point put in front of, inside or behind them. */
  lemma MantissaReads(d: Decimal, point: int) returns (mantissa: string)
    requires point <= |d.digits|
    ensures mantissa ==
      if point <= 0 then "0." + Zeros(-point) + d.digits
      else if point >= |d.digits| then d.digits + Zeros(point - |d.digits|)
      else d.digits[..point] + "." + d.digits[point..]
    ensures mantissa != "" && IsDigit(mantissa[0]) && forall i | 0 <= i < |mantissa| :: IsPlain(mantissa[i])
    ensures ReadUnsigned(mantissa, d.negative) == Some(d.(exponent := point - |d.digits|))
  {
    hide ReadUnsigned, ToNat, WithoutLeadingZeros;
    if point <= 0 {
      mantissa := "0." + Zeros(-point) + d.digits;
      assert mantissa == "0" + "." + (Zeros(-point) + d.digits);
      ReadWithFraction(d.negative, "0", Zeros(-point) + d.digits);
      PaddingIsDropped(-point + 1, d.digits);
      assert "0" + (Zeros(-point) + d.digits) == Zeros(-point + 1) + d.digits;
    } else if point >= |d.digits| {
      mantissa := d.digits;
      assert d.digits + Zeros(point - |d.digits|) == d.digits;
      ReadWhole(d.negative, d.digits);
      PaddingIsDropped(0, d.digits);
      assert Zeros(0) + d.digits == d.digits;
    } else {
      mantissa := d.digits[..point] + "." + d.digits[point..];
      ReadWithFraction(d.negative, d.digits[..point], d.digits[point..]);
      assert d.digits[..point] + d.digits[point..] == d.digits;
      PaddingIsDropped(0, d.digits);
      assert Zeros(0) + d.digits == d.digits;
    }
  }

  /**
   * `str(d)` is the fixed-point text of a Decimal without trailing places and not below 1E-6; of any other it is
   * one digit, the others after a point, and the signed exponent of the first digit.
   */
  lemma ScientificTextShape(d: Decimal)
    ensures
      var adjusted := d.exponent + |d.digits| - 1;
      if d.exponent <= 0 && adjusted >= -6 then ScientificText(d) == FixedText(d)
      else
        && adjusted != 0
        && ScientificText(d) == SignText(d.negative) + d.digits[..1] + (if |d.digits| > 1 then "." + d.digits[1..] else "")
                                + (if adjusted > 0 then "E+" + Digits(adjusted) else "E-" + Digits(-adjusted))
  {
    hide ScientificText, FixedText, ExponentText, Digits;
    if d.exponent <= 0 && d.exponent + |d.digits| > -6 {
      PlainShape(d);
    } else {
      MarkedShape(d);
    }
  }

  lemma PlainShape(d: Decimal)
    requires d.exponent <= 0 && d.exponent + |d.digits| > -6
    ensures ScientificText(d) == FixedText(d)
  {
    hide Digits;
    NoExponent();
    var left := d.exponent + |d.digits|;
    assert left == |d.digits| ==> d.digits + Zeros(0) == d.digits;
  }

  lemma MarkedShape(d: Decimal)
    requires !(d.exponent <= 0 && d.exponent + |d.digits| > -6)
    ensures
      var adjusted := d.exponent + |d.digits| - 1;
      && adjusted != 0
      && ScientificText(d) == SignText(d.negative) + d.digits[..1] + (if |d.digits| > 1 then "." + d.digits[1..] else "")
                              + (if adjusted > 0 then "E+" + Digits(adjusted) else "E-" + Digits(-adjusted))
  {
    hide Digits, SignText, ExponentText;
    var shift := d.exponent + |d.digits| - 1;
    var rest := if |d.digits| > 1 then "." + d.digits[1..] else "";
    assert |d.digits| == 1 ==> d.digits == d.digits[..1] && d.digits + Zeros(0) == d.digits;
    assert ScientificText(d) == SignText(d.negative) + ((d.digits[..1] + rest) + ExponentText(shift));
    MarkShape(shift);
    JoinFour(SignText(d.negative), d.digits[..1], rest, ExponentText(shift));
  }

  lemma MarkShape(shift: int)
    requires shift != 0
    ensures ExponentText(shift) == if shift > 0 then "E+" + Digits(shift) else "E-" + Digits(-shift)
  {
    hide Digits;
  }

  lemma JoinFour(a: string, b: string, c: string, d: string)
    ensures a + ((b + c) + d) == a + b + c + d
  {
  }

  lemma ScientificRead(d: Decimal, mantissa: string, shift: int)
    requires mantissa != "" && IsDigit(mantissa[0]) && forall i | 0 <= i < |mantissa| :: IsPlain(mantissa[i])
    requires ReadUnsigned(mantissa, d.negative) == Some(d.(exponent := d.exponent - shift))
    ensures ReadDecimal(SignText(d.negative) + (mantissa + ExponentText(shift))) == Some(d)
  {
    hide ReadUnsigned, ReadDecimal, ExponentText;
    ReadWithExponent(d.negative, mantissa, shift);
    var body := mantissa + ExponentText(shift);
    forall i | 0 <= i < |body| ensures IsNumberChar(body[i]) {
      if i < |mantissa| {
        assert body[i] == mantissa[i];
      } else {
        ExponentCharacters(shift, i - |mantissa|);
      }
    }
    ReadSigned(d.negative, body);
  }

  lemma ExponentCharacters(shift: int, i: nat)
    requires i < |ExponentText(shift)|
    ensures IsNumberChar(ExponentText(shift)[i])
  {
    if shift != 0 {
      ReadExponentText(shift);
    }
  }

  /** Every text the pattern admits is a number, and not a negative one: the constructor never raises after the match. */
  lemma MatchedTextIsANumber(s: string)
    requires MatchesDecimalText(s)
    ensures ReadDecimal(s).Some? && !ReadDecimal(s).value.negative
  {
    hide ReadDecimal;
    MatchedTextReads(s);
    var e := IndexOf(s, 'e', 'E');
    var point := IndexOf(s[..e], '.', '.');
    assert IsDigit(s[0]) by {
      assert s[..e][..point][0] == s[0];
    }
    hide MatchesDecimalText, ReadUnsigned;
    forall i | 0 <= i < |s| ensures IsNumberChar(s[i]) {
      MatchedCharacters(s, i);
    }
    ReadSigned(false, s);
    assert SignText(false) + s == s;
  }

  lemma MatchedTextReads(s: string)
    requires MatchesDecimalText(s)
    ensures ReadUnsigned(s, false).Some? && !ReadUnsigned(s, false).value.negative
  {
    hide ToNat, WithoutLeadingZeros, IndexOf;
  }

  lemma MatchedCharacters(s: string, i: nat)
    requires MatchesDecimalText(s) && i < |s|
    ensures IsNumberChar(s[i])
  {
    var e := IndexOf(s, 'e', 'E');
    var mantissa := s[..e];
    var point := IndexOf(mantissa, '.', '.');
    if i < point {
      assert mantissa[..point][i] == s[i];
    } else if i < e {
      if i > point { assert mantissa[point + 1..][i - point - 1] == s[i]; }
    } else if i > e {
      var tail := s[e + 1..];
      assert tail[i - e - 1] == s[i];
      if StartsWithSign(tail) {
        if i > e + 1 { assert Unsigned(tail)[i - e - 2] == s[i]; }
      }
    }
  }

  /** The pattern's numerals: no sign, a whole part without leading zeros, and digits after a point. */
  predicate IsReportNumeral(n: Numeral) {
    && IsNumeral(n) && n.sign == "" && n.whole != "" && (n.whole[0] == '0' ==> |n.whole| == 1)
    && (n.fraction.Some? ==> n.fraction.value != "")
  }

  /** The text writes `d` down as one of the pattern's numerals. */
  ghost predicate IsReportText(s: string, d: Decimal) {
    exists n :: IsReportNumeral(n) && Render(n) == s && Denotes(n, d)
  }

  lemma MatchMeans(s: string, e: nat, point: nat)
    requires e == IndexOf(s, 'e', 'E') && point == IndexOf(s[..e], '.', '.')
    ensures MatchesDecimalText(s) <==>
      var whole, fraction := s[..e][..point], if point == e then "" else s[..e][point + 1..];
      && whole != "" && AllDigits(whole) && (whole[0] == '0' ==> |whole| == 1)
      && (point < e ==> fraction != "" && AllDigits(fraction))
      && (e < |s| ==> Unsigned(s[e + 1..]) != "" && AllDigits(Unsigned(s[e + 1..])))
  {
    hide IndexOf, AllDigits, Unsigned;
  }

  lemma RenderedMatches(n: Numeral)
    requires IsReportNumeral(n)
    ensures MatchesDecimalText(Render(n))
  {
    hide IndexOf, ToNat, AllDigits, MatchesDecimalText, Mantissa, MarkText, Unsigned;
    MarkPosition(n);
    PointPosition(n);
    assert Render(n) == Mantissa(n) + MarkText(n.mark);
    MatchMeans(Render(n), |Mantissa(n)|, |n.whole|);
    if n.mark.Some? {
      MarkDigits(n.mark.value);
    }
  }

  lemma MarkDigits(m: Mark)
    requires IsMark(m)
    ensures Unsigned(m.sign + m.digits) == m.digits
  {
    hide ToNat;
    assert !StartsWithSign(m.digits) by { assert IsDigit(m.digits[0]); }
    AfterSign(m.sign, m.digits);
  }

  lemma NoDigits()
    ensures AllDigits("")
  {
  }

  lemma MatchedMark(s: string) returns (mark: Option<Mark>)
    requires MatchesDecimalText(s)
    ensures mark.Some? ==> IsMark(mark.value)
    ensures MarkText(mark) == s[IndexOf(s, 'e', 'E')..]
  {
    hide IndexOf, ToNat, AllDigits, Unsigned, SignOf, MatchesDecimalText;
    var e := IndexOf(s, 'e', 'E');
    MatchMeans(s, e, IndexOf(s[..e], '.', '.'));
    mark := None;
    if e < |s| {
      SplitSign(s[e + 1..]);
      mark := Some(Mark(s[e], SignOf(s[e + 1..]), Unsigned(s[e + 1..])));
    }
  }

  lemma MatchedMantissa(s: string) returns (whole: string, fraction: Option<string>)
    requires MatchesDecimalText(s)
    ensures s[..IndexOf(s, 'e', 'E')] == whole + if fraction.Some? then "." + fraction.value else ""
    ensures whole != "" && AllDigits(whole) && (whole[0] == '0' ==> |whole| == 1)
    ensures fraction.Some? ==> fraction.value != "" && AllDigits(fraction.value)
  {
    hide IndexOf, AllDigits, MatchesDecimalText;
    var e := IndexOf(s, 'e', 'E');
    MatchMeans(s, e, IndexOf(s[..e], '.', '.'));
    whole, fraction := SplitMantissa(s[..e]);
  }

  lemma MatchedIsNumeral(s: string) returns (n: Numeral)
    requires MatchesDecimalText(s)
    ensures IsReportNumeral(n) && Render(n) == s
  {
    hide IndexOf, AllDigits, MatchesDecimalText, MarkText, IsMark;
    NoDigits();
    var whole, fraction := MatchedMantissa(s);
    var mark := MatchedMark(s);
    n := Numeral("", whole, fraction, mark);
    var e := IndexOf(s, 'e', 'E');
    assert Mantissa(n) == s[..e] && s == s[..e] + s[e..];
  }

  lemma NumberTextIsPlain(s: string)
    requires MatchesDecimalText(s)
    ensures Remove(Strip(s), '_') == s
  {
    hide MatchesDecimalText, Strip;
    forall i | 0 <= i < |s| ensures IsNumberChar(s[i]) {
      MatchedCharacters(s, i);
    }
    assert s != "" by { MatchedTextIsNotEmpty(s); }
    NothingToStrip(s);
  }

  lemma MatchedTextIsNotEmpty(s: string)
    requires MatchesDecimalText(s)
    ensures s != ""
  {
  }

  /** The pattern and the constructor together accept as `d` exactly the report numerals that denote `d`. */
  lemma PatternIsTheGrammar(s: string, d: Decimal)
    ensures MatchesDecimalText(s) && ReadDecimal(s) == Some(d) <==> IsReportText(s, d)
  {
    hide MatchesDecimalText, ReadDecimal, Render, Denotes, IsNumeral, Strip, Remove;
    if MatchesDecimalText(s) && ReadDecimal(s) == Some(d) {
      var n := MatchedIsNumeral(s);
      NumberTextIsPlain(s);
      var m := Denoted(n);
      NumeralIsRead(n, s, m);
    }
    if IsReportText(s, d) {
      var n :| IsReportNumeral(n) && Render(n) == s && Denotes(n, d);
      RenderedMatches(n);
      NumberTextIsPlain(s);
      NumeralIsRead(n, s, d);
    }
  }

  /** What a report's value field may say for `d`: the Decimal itself, that integer, or a text writing it down. */
  ghost predicate IsReportValue(v: Value, d: Decimal) {
    match v
    case Num(x) => x == d && |ScientificText(d)| <= 128
    case Int(i) => i >= 0 && IsInteger(d, i)
    case Str(s) => |s| <= 128 && IsReportText(s, d)
    case _ => false
  }

  /**
   * A value is accepted as `d` exactly when it says `d` and `d` keeps the limits: no sign, at most 64 digits,
   * and at most 128 characters of canonical text.
   */
  lemma ReportValueIsAcceptedExactly(v: Value, d: Decimal)
    ensures ParseReportDecimal(v) == Ok(d) <==>
      IsReportValue(v, d) && !d.negative && |d.digits| <= 64 && |CanonicalText(d)| <= 128
  {
    hide MatchesDecimalText, IsReportText, CanonicalText, ScientificText, ReadDecimal, FromInteger, ToNat;
    match v {
      case Int(i) => 
        IntegerIsItsDecimal(i, d);
        IntegerTextIsShort(i);
      case Str(s) =>
        PatternIsTheGrammar(s, d);
        if MatchesDecimalText(s) {
          MatchedTextIsANumber(s);
          PatternIsTheGrammar(s, ReadDecimal(s).value);
        }
      case _ =>
    }
  }

  lemma IntegerTextIsShort(i: int)
    ensures FromInteger(i).negative == (i < 0) && (i < 0 ==> !IsZero(FromInteger(i)))
  {
    hide ToNat, Digits;
    if i < 0 {
      ZeroCoefficient(FromInteger(i));
    }
  }

  /** The number occurs somewhere inside the value. */
  ghost predicate OccursIn(d: Decimal, v: Value) {
    match v
    case Num(x) => x == d
    case Arr(items) => exists i | 0 <= i < |items| :: OccursIn(d, items[i])
    case Obj(fields) => exists k | k in fields :: OccursIn(d, fields[k])
    case _ => false
  }

  /** A row can be kept for diagnosis exactly when every Decimal inside it has a canonical text of at most 128 characters. */
  lemma {:induction false} EveryNumberFits(v: Value)
    ensures DiagnosticFits(v) <==> forall d | OccursIn(d, v) :: |CanonicalText(d)| <= 128
  {
    hide CanonicalText;
    match v {
      case Arr(items) =>
        forall i | 0 <= i < |items|
          ensures DiagnosticFits(items[i]) <==> forall d | OccursIn(d, items[i]) :: |CanonicalText(d)| <= 128
        {
          EveryNumberFits(items[i]);
        }
        assert forall d, i | 0 <= i < |items| && OccursIn(d, items[i]) :: OccursIn(d, v);
      case Obj(fields) =>
        forall k | k in fields
          ensures DiagnosticFits(fields[k]) <==> forall d | OccursIn(d, fields[k]) :: |CanonicalText(d)| <= 128
        {
          EveryNumberFits(fields[k]);
        }
        assert forall d, k | k in fields && OccursIn(d, fields[k]) :: OccursIn(d, v);
      case _ =>
    }
  }

  /** An accepted value is a non-negative number whose canonical text fits, so rendering it cannot fail later. */
  lemma AcceptedValueIsRenderable(v: Value)
    requires ParseReportDecimal(v).Ok?
    ensures
      var d := ParseReportDecimal(v).value;
      && CanonicalDecimal(Finite(d)) == Ok(CanonicalText(d))
      && (IsZero(d) || !d.negative) && |d.digits| <= 64
  {
  }
}
