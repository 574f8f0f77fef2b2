/**
 * The Romanian rendering of a Decimal: grouping dots and a decimal comma
 * (src/tatatuya/ui/formatters.py), and exactly when the price parser undoes it.
 */
module Formatters {
  import opened Arithmetic
  import opened Billing
  import opened Common
  import opened Decimals
  import Energy

  /** Digits in groups of three from the right, joined by dots. */
  function Grouped(digits: string): (s: string)
    ensures digits != "" ==> s != ""
  {
    if |digits| <= 3 then digits
    else Grouped(digits[..|digits| - 3]) + "." + digits[|digits| - 3..]
  }

  /** `".".join(reversed(groups))` */
  function JoinReversed(groups: seq<string>): string {
    if groups == [] then ""
    else if |groups| == 1 then groups[0]
    else groups[|groups| - 1] + "." + JoinReversed(groups[..|groups| - 1])
  }

  /** The text of `format_decimal` without a fixed number of places. */
  function FormattedText(d: Decimal): string {
    SignText(d.negative) +
    (if d.exponent < 0 then Grouped(WholePart(d)) + "," + FractionPart(d) else Grouped(UnsignedFixedText(d)))
  }

  lemma PartitionedText(d: Decimal)
    ensures
      var rendered := FixedText(d);
      var point := IndexOf(rendered, '.', '.');
      && (d.exponent < 0 ==>
            point < |rendered| && rendered[..point] == SignText(d.negative) + WholePart(d)
            && rendered[point + 1..] == FractionPart(d))
      && (d.exponent >= 0 ==>
            point == |rendered| && rendered == SignText(d.negative) + UnsignedFixedText(d)
            && AllDigits(UnsignedFixedText(d)) && UnsignedFixedText(d) != "")
  {
    hide IndexOf, WholePart, FractionPart;
    if d.exponent < 0 {
      FixedTextParts(d);
      var whole := SignText(d.negative) + WholePart(d);
      assert FixedText(d) == whole + "." + FractionPart(d);
      FirstPoint(whole, FractionPart(d));
    }
  }

  lemma FirstPoint(front: string, back: string)
    requires '.' !in front
    ensures
      var text := front + "." + back;
      && IndexOf(text, '.', '.') == |front| < |text|
      && text[..|front|] == front && text[|front| + 1..] == back
  {
    hide IndexOf;
    var text := front + "." + back;
    assert text[|front|] == '.';
    assert forall i | 0 <= i < |front| :: text[i] == front[i];
  }

  /** The loop of `format_decimal`: three digits at a time are taken off the right into a list. */
  method GroupThousands(whole: string) returns (grouped: string)
    ensures grouped == if whole == "" then "0" else Grouped(whole)
  {
    var digits := whole;
    var groups: seq<string> := [];
    while digits != ""
      invariant groups == [] ==> digits == whole
      invariant groups != [] ==>
        whole != "" &&
        Grouped(whole) == if digits == "" then JoinReversed(groups) else Grouped(digits) + "." + JoinReversed(groups)
      decreases |digits|
    {
      var cut := if |digits| <= 3 then 0 else |digits| - 3;
      JoinOneMore(groups, digits[cut..]);
      GroupStep(digits, cut, if groups == [] then "" else "." + JoinReversed(groups));
      groups := groups + [digits[cut..]];
      digits := digits[..cut];
    }
    grouped := JoinReversed(groups);
    if grouped == "" {
      grouped := "0";
    }
  }

  lemma JoinOneMore(groups: seq<string>, group: string)
    ensures JoinReversed(groups + [group]) == group + if groups == [] then "" else "." + JoinReversed(groups)
  {
    assert (groups + [group])[..|groups|] == groups;
  }

  method FormatDecimal(d: Decimal) returns (text: string)
    ensures text == FormattedText(d)
  {
    hide FixedText, UnsignedFixedText, WholePart, FractionPart, Grouped, IndexOf;
    var rendered := FixedText(d);
    var point := IndexOf(rendered, '.', '.');
    PartitionedText(d);
    var whole := rendered[..point];
    var sign := "";
    if whole != "" && whole[0] == '-' {
      sign, whole := "-", whole[1..];
    }
    assert sign == SignText(d.negative) && whole == if d.exponent < 0 then WholePart(d) else UnsignedFixedText(d);
    var grouped := GroupThousands(whole);
    text := sign + grouped + (if point < |rendered| then "," + rendered[point + 1..] else "");
  }

  /** Taking three digits off the right and putting them in front of the text built so far. */
  lemma GroupStep(digits: string, cut: nat, tail: string)
    requires digits != "" && cut == if |digits| <= 3 then 0 else |digits| - 3
    ensures Grouped(digits) + tail
         == if cut == 0 then digits[cut..] + tail else Grouped(digits[..cut]) + "." + (digits[cut..] + tail)
  {
    if cut > 0 {
      Reassociate(Grouped(digits[..cut]), digits[cut..], tail);
    }
  }

  lemma Reassociate(front: string, group: string, tail: string)
    ensures front + "." + group + tail == front + "." + (group + tail)
  {
  }

  // ------------------------------------------------------------ when the parser undoes it

  lemma RemoveJoiningDot(a: string, b: string)
    requires '.' !in b
    ensures Remove(a + "." + b, '.') == Remove(a, '.') + b
  {
    RemoveDistributes(a + ".", b, '.');
    RemoveDistributes(a, ".", '.');
  }

  lemma {:induction false} DotsGroup(digits: string)
    requires AllDigits(digits)
    ensures Remove(Grouped(digits), '.') == digits
    decreases |digits|
  {
    if |digits| > 3 {
      var front, back := digits[..|digits| - 3], digits[|digits| - 3..];
      DotsGroup(front);
      RemoveJoiningDot(Grouped(front), back);
      assert digits == front + back;
    }
  }

  predicate IsFormatted(c: char) {
    IsDigit(c) || c == '.' || c == ',' || c == '-'
  }

  predicate AllFormatted(s: string) {
    forall i | 0 <= i < |s| :: IsFormatted(s[i])
  }

  lemma {:induction false} GroupedIsFormatted(digits: string)
    requires AllDigits(digits)
    ensures AllFormatted(Grouped(digits)) && ',' !in Grouped(digits) && '-' !in Grouped(digits)
    decreases |digits|
  {
    if |digits| > 3 {
      GroupedIsFormatted(digits[..|digits| - 3]);
    }
  }

  /** Formatted text passes the parser's clean-up unchanged. */
  lemma FormattedIsCompact(text: string)
    requires AllFormatted(text) && text != ""
    ensures Strip(text) == text && Remove(Remove(text, ' '), '\U{A0}') == text
  {
    hide Strip, Remove;
    NothingToStrip(text);
  }

  lemma FractionNormalizes(d: Decimal)
    requires d.exponent < 0
    ensures NormalizedInput(FormattedText(d)) == FixedText(d)
  {
    hide NormalizedInput, Grouped, WholePart, FractionPart, UnsignedFixedText;
    var sign, whole, fraction := SignText(d.negative), WholePart(d), FractionPart(d);
    FixedTextParts(d);
    assert FormattedText(d) == sign + Grouped(whole) + "," + fraction;
    assert FixedText(d) == sign + whole + "." + fraction;
    PartsNormalize(d.negative, whole, fraction);
  }

  lemma PartsNormalize(negative: bool, whole: string, fraction: string)
    requires AllDigits(whole) && AllDigits(fraction)
    ensures NormalizedInput(SignText(negative) + Grouped(whole) + "," + fraction)
         == SignText(negative) + whole + "." + fraction
  {
    hide Strip, Remove, ReplaceChar, Grouped;
    var sign, grouped := SignText(negative), Grouped(whole);
    var text := sign + grouped + "," + fraction;
    GroupedIsFormatted(whole);
    FormattedIsCompact(text);
    assert text[|sign| + |grouped|] == ',';
    DotsGroup(whole);
    RemoveDots(sign, grouped, fraction);
    OneReplaced(sign + whole, fraction);
  }

  lemma RemoveDots(sign: string, grouped: string, fraction: string)
    requires '.' !in sign && AllDigits(fraction)
    ensures Remove(sign + grouped + "," + fraction, '.') == sign + Remove(grouped, '.') + "," + fraction
  {
    RemoveDistributes(sign + grouped + ",", fraction, '.');
    RemoveDistributes(sign + grouped, ",", '.');
    RemoveDistributes(sign, grouped, '.');
  }

  /** A number with a fraction is read back as the very same Decimal, whatever its grouping. */
  lemma FractionRoundTrips(d: Decimal)
    requires d.exponent < 0
    ensures ParseDecimalInput(FormattedText(d)) == Ok(d)
  {
    hide FormattedText, NormalizedInput, ReadDecimal;
    FractionNormalizes(d);
    FixedTextReadsBack(d);
    FixedTextParts(d);
  }

  /** A price typed as it is printed, with a fraction, is the price, whatever is remembered. */
  lemma PrintedPriceIsTaken(p: Decimal, remembered: Option<Energy.Number>)
    requires p.exponent < 0 && IsPrice(p)
    ensures ResolveUnitPrice(FormattedText(p), remembered) == Ok(p)
  {
    hide FormattedText, ParseDecimalInput, ResolveUnitPrice, IsBlank;
    FractionRoundTrips(p);
    PrintedIsNotBlank(p);
    TypedTextDecides(FormattedText(p), remembered, p);
  }

  lemma PrintedIsNotBlank(p: Decimal)
    requires p.exponent < 0
    ensures !IsBlank(FormattedText(p))
  {
    hide Grouped, WholePart, FractionPart, IsSpace;
    var front := SignText(p.negative) + Grouped(WholePart(p));
    assert FormattedText(p) == front + "," + FractionPart(p);
    assert FormattedText(p)[|front|] == ',';
    assert !IsSpace(',') by { CommaIsNoBlank(); }
  }

  lemma WholeNormalizes(d: Decimal)
    requires d.exponent >= 0
    ensures NormalizedInput(FormattedText(d)) == FormattedText(d)
  {
    PartitionedText(d);
    GroupedIsFormatted(UnsignedFixedText(d));
    FormattedIsCompact(FormattedText(d));
  }

  /** Four to six digits: the grouping dot is taken for a decimal point. */
  lemma OneDotMisreads(d: Decimal)
    requires d.exponent >= 0 && 4 <= |UnsignedFixedText(d)| <= 6
    ensures ReadDecimal(FormattedText(d)).Some? && !NumEq(ReadDecimal(FormattedText(d)).value, d)
  {
    hide FixedText, UnsignedFixedText, Grouped, ReadDecimal, NumEq, WithoutLeadingZeros;
    PartitionedText(d);
    var digits := UnsignedFixedText(d);
    var front, back := digits[..|digits| - 3], digits[|digits| - 3..];
    assert digits == front + back;
    GroupedOnce(digits, front, back);
    assert FormattedText(d) == SignText(d.negative) + (front + "." + back);
    ReadPlainFraction(d.negative, front, back);
    MisreadDiffers(d);
  }

  lemma GroupedOnce(digits: string, front: string, back: string)
    requires digits == front + back && 1 <= |front| <= 3 && |back| == 3
    ensures Grouped(digits) == front + "." + back
  {
    assert digits[..|digits| - 3] == front && digits[|digits| - 3..] == back;
  }

  lemma MisreadDiffers(d: Decimal)
    requires d.exponent >= 0 && 4 <= |UnsignedFixedText(d)|
    ensures AllDigits(UnsignedFixedText(d))
    ensures !NumEq(Decimal(d.negative, WithoutLeadingZeros(UnsignedFixedText(d)), -3), d)
  {
    var digits := UnsignedFixedText(d);
    assert !IsZero(d) && digits == d.digits + Zeros(d.exponent);
    var misread := Decimal(d.negative, digits, -3);
    var whole := Decimal(d.negative, digits, 0);
    ScaledCoefficient(whole, d, d.exponent);
    assert NumEq(whole, d);
    NumEqSymmetric(d, whole);
    ZeroCoefficient(misread);
    assert Pow10(3) == 1000;
    assert !NumEq(misread, whole);
    if NumEq(misread, d) {
      NumEqTransitive(misread, d, whole);
      assert false;
    }
  }

  lemma GroupedTwice(digits: string, head: string, middle: string, back: string)
    requires digits == head + middle + back && |head| > 0 && |middle| == 3 && |back| == 3
    ensures Grouped(digits) == Grouped(head) + "." + middle + "." + back
  {
    assert digits[..|digits| - 3] == head + middle && digits[|digits| - 3..] == back;
    assert (head + middle)[..|head|] == head && (head + middle)[|head|..] == middle;
  }

  /** Seven digits or more: two dots are no number at all. */
  lemma TwoDotsAreRejected(d: Decimal)
    requires d.exponent >= 0 && |UnsignedFixedText(d)| >= 7
    ensures ReadDecimal(FormattedText(d)).None?
  {
    hide FixedText, UnsignedFixedText, Grouped, ReadDecimal, ReadUnsigned, IndexOf;
    PartitionedText(d);
    var digits := UnsignedFixedText(d);
    var head, middle, back := digits[..|digits| - 6], digits[|digits| - 6..|digits| - 3], digits[|digits| - 3..];
    assert digits == head + middle + back;
    GroupedTwice(digits, head, middle, back);
    var first, body := Grouped(head), Grouped(digits);
    assert body[|first|] == '.' && body[|first| + 4] == '.';
    GroupedIsFormatted(digits);
    GroupedStartsWithDigit(digits);
    ReadSigned(d.negative, body);
    TwoDots(body, |first|, |first| + 4);
  }

  lemma {:induction false} GroupedStartsWithDigit(digits: string)
    requires AllDigits(digits) && digits != ""
    ensures IsDigit(Grouped(digits)[0])
    decreases |digits|
  {
    if |digits| > 3 {
      GroupedStartsWithDigit(digits[..|digits| - 3]);
    }
  }

  lemma NoExponentMark(body: string)
    requires AllFormatted(body)
    ensures IndexOf(body, 'e', 'E') == |body|
  {
  }

  lemma TwoDots(body: string, i: nat, j: nat)
    requires i < j < |body| && body[i] == '.' && body[j] == '.'
    requires AllFormatted(body)
    ensures forall negative :: ReadUnsigned(body, negative).None?
  {
    NoExponentMark(body);
    assert body[..|body|] == body;
    var point := IndexOf(body, '.', '.');
    assert point <= i;
    assert body[point + 1..][j - point - 1] == '.';
    var digits := body[..point] + body[point + 1..];
    assert digits[j - 1] == '.';
  }

  lemma ShortWholeReads(d: Decimal)
    requires d.exponent >= 0 && |UnsignedFixedText(d)| <= 3
    ensures ParseDecimalInput(FormattedText(d)).Ok? && NumEq(ParseDecimalInput(FormattedText(d)).value, d)
  {
    hide NormalizedInput, ReadDecimal, NumEq, UnsignedFixedText;
    WholeNormalizes(d);
    PartitionedText(d);
    assert FormattedText(d) == FixedText(d);
    FixedTextReadsBack(d);
  }

  lemma EqualToItself(d: Decimal)
    ensures NumEq(d, d)
  {
  }

  /**
   * Printer and parser undo each other exactly when the rendering has a fraction or a whole
   * part of at most three digits.
   */
  lemma RoundTripCondition(d: Decimal)
    ensures
      var parsed := ParseDecimalInput(FormattedText(d));
      (parsed.Ok? && NumEq(parsed.value, d)) <==> (d.exponent < 0 || |UnsignedFixedText(d)| <= 3)
  {
    hide NormalizedInput, ReadDecimal, NumEq, UnsignedFixedText;
    if d.exponent < 0 {
      FractionRoundTrips(d);
      EqualToItself(d);
    } else {
      WholeNormalizes(d);
      if |UnsignedFixedText(d)| <= 3 {
        ShortWholeReads(d);
      } else if |UnsignedFixedText(d)| <= 6 {
        OneDotMisreads(d);
      } else {
        TwoDotsAreRejected(d);
      }
    }
  }

  /** A concrete number the parser does not give back: one thousand two hundred thirty-four. */
  lemma GroupedIntegerIsMisread()
    ensures
      var d := Decimal(false, "1234", 0);
      FormattedText(d) == "1.234" && ParseDecimalInput(FormattedText(d)) == Ok(Decimal(false, "1234", -3))
  {
    hide Strip, Remove, NormalizedInput, ReadDecimal, WithoutLeadingZeros, Grouped;
    var d := DecimalParts.Decimal(false, "1234", 0);
    WholeNormalizes(d);
    assert UnsignedFixedText(d) == "1234";
    assert "1" + "234" == "1234";
    GroupedOnce("1234", "1", "234");
    assert FormattedText(d) == SignText(false) + ("1" + "." + "234");
    ReadPlainFraction(false, "1", "234");
  }
}
