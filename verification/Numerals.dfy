/** The grammar of written numbers: what `Decimal(text)` accepts, and the number each accepted text denotes. */
module Numerals {
  import opened Common
  import opened Decimals

  /** An exponent mark: `e` or `E`, a sign, and digits. */
  datatype Mark = Mark(letter: char, sign: string, digits: string)

  /** A number as it is written: a sign, digits on either side of an optional point, an optional mark. */
  datatype Numeral = Numeral(sign: string, whole: string, fraction: Option<string>, mark: Option<Mark>)

  predicate IsSign(s: string) {
    s == "" || s == "+" || s == "-"
  }

  predicate IsMark(m: Mark) {
    (m.letter == 'e' || m.letter == 'E') && IsSign(m.sign) && AllDigits(m.digits) && m.digits != ""
  }

  function FractionDigits(n: Numeral): string {
    if n.fraction.Some? then n.fraction.value else ""
  }

  predicate IsNumeral(n: Numeral) {
    && IsSign(n.sign) && AllDigits(n.whole) && AllDigits(FractionDigits(n)) && n.whole + FractionDigits(n) != ""
    && (n.mark.Some? ==> IsMark(n.mark.value))
  }

  function Mantissa(n: Numeral): string {
    n.whole + if n.fraction.Some? then "." + n.fraction.value else ""
  }

  function MarkText(mark: Option<Mark>): string {
    if mark.None? then "" else [mark.value.letter] + (mark.value.sign + mark.value.digits)
  }

  function Render(n: Numeral): string {
    n.sign + (Mantissa(n) + MarkText(n.mark))
  }

  function Shift(mark: Option<Mark>): int
    requires mark.Some? ==> IsMark(mark.value)
  {
    if mark.None? then 0 else Signed(mark.value.sign == "-", ToNat(mark.value.digits))
  }

  /** The number written: all its digits as one integer, scaled by its mark and by the digits after the point. */
  predicate Denotes(n: Numeral, d: Decimal)
    requires IsNumeral(n)
  {
    && d.negative == (n.sign == "-")
    && ToNat(d.digits) == ToNat(n.whole + FractionDigits(n))
    && d.exponent == Shift(n.mark) - |FractionDigits(n)|
  }

  /** Every numeral denotes a Decimal. */
  lemma Denoted(n: Numeral) returns (d: Decimal)
    requires IsNumeral(n)
    ensures Denotes(n, d)
  {
    hide ToNat;
    var digits := n.whole + FractionDigits(n);
    d := Decimal(n.sign == "-", WithoutLeadingZeros(digits), Shift(n.mark) - |FractionDigits(n)|);
    LeadingZerosKeepValue(digits);
  }

  ghost predicate IsWrittenAs(s: string, d: Decimal) {
    exists n :: IsNumeral(n) && Render(n) == s && Denotes(n, d)
  }

  // ------------------------------------------------------------ a numeral is read as what it denotes

  lemma AfterSign(sign: string, body: string)
    requires IsSign(sign) && !StartsWithSign(body)
    ensures Unsigned(sign + body) == body
    ensures (sign + body != "" && (sign + body)[0] == '-') <==> sign == "-"
  {
    if sign == "" {
      assert sign + body == body;
    } else {
      assert (sign + body)[1..] == body;
    }
  }

  lemma MarkIsRead(mark: Mark)
    requires IsMark(mark)
    ensures ReadExponent(mark.sign + mark.digits) == Some(Shift(Some(mark)))
  {
    hide ToNat;
    assert !StartsWithSign(mark.digits) by { assert IsDigit(mark.digits[0]); }
    AfterSign(mark.sign, mark.digits);
  }

  lemma FirstPosition(s: string, c: char, alternative: char, p: nat)
    requires p <= |s| && forall i | 0 <= i < p :: s[i] != c && s[i] != alternative
    requires p < |s| ==> s[p] == c || s[p] == alternative
    ensures IndexOf(s, c, alternative) == p
  {
  }

  lemma MantissaIsPlain(n: Numeral)
    requires IsNumeral(n)
    ensures forall i | 0 <= i < |Mantissa(n)| :: IsPlain(Mantissa(n)[i])
  {
    hide ToNat;
  }

  lemma MarkPosition(n: Numeral)
    requires IsNumeral(n)
    ensures var body, m := Mantissa(n) + MarkText(n.mark), |Mantissa(n)|;
      && IndexOf(body, 'e', 'E') == m && body[..m] == Mantissa(n)
      && (m == |body| <==> n.mark.None?)
      && (n.mark.Some? ==> body[m + 1..] == n.mark.value.sign + n.mark.value.digits)
  {
    hide IndexOf, Mantissa, ToNat;
    MantissaIsPlain(n);
    FirstPosition(Mantissa(n) + MarkText(n.mark), 'e', 'E', |Mantissa(n)|);
  }

  lemma PointPosition(n: Numeral)
    requires IsNumeral(n)
    ensures var s, p := Mantissa(n), |n.whole|;
      && IndexOf(s, '.', '.') == p && s[..p] == n.whole
      && (p == |s| <==> n.fraction.None?)
      && (n.fraction.Some? ==> s[p + 1..] == n.fraction.value)
  {
    hide IndexOf, ToNat;
    FirstPosition(Mantissa(n), '.', '.', |n.whole|);
  }

  lemma BodyIsRead(n: Numeral, negative: bool)
    requires IsNumeral(n)
    ensures ReadUnsigned(Mantissa(n) + MarkText(n.mark), negative)
         == Some(Decimal(negative, WithoutLeadingZeros(n.whole + FractionDigits(n)),
                         Shift(n.mark) - |FractionDigits(n)|))
  {
    hide IndexOf, ToNat, WithoutLeadingZeros, ReadExponent;
    MarkPosition(n);
    PointPosition(n);
    if n.mark.Some? {
      MarkIsRead(n.mark.value);
    }
  }

  lemma NumeralIsRead(n: Numeral, text: string, d: Decimal)
    requires IsNumeral(n) && Render(n) == Remove(Strip(text), '_') && Denotes(n, d)
    ensures ReadDecimal(text) == Some(d)
  {
    hide ReadUnsigned, Strip, Remove, ToNat, WithoutLeadingZeros;
    var body := Mantissa(n) + MarkText(n.mark);
    assert !StartsWithSign(body) by {
      assert body[0] == if n.whole != "" then n.whole[0] else '.';
    }
    AfterSign(n.sign, body);
    BodyIsRead(n, n.sign == "-");
    var digits := n.whole + FractionDigits(n);
    LeadingZerosKeepValue(digits);
    DigitsAreUnique(d.digits, WithoutLeadingZeros(digits));
  }

  // ------------------------------------------------------------ whatever is read was a numeral

  function SignOf(s: string): string {
    if StartsWithSign(s) then [s[0]] else ""
  }

  lemma SplitSign(s: string)
    ensures IsSign(SignOf(s)) && SignOf(s) + Unsigned(s) == s
    ensures s != "" ==> (s[0] == '-' <==> SignOf(s) == "-")
  {
  }

  lemma ReadMark(tail: string, letter: char) returns (mark: Mark)
    requires ReadExponent(tail).Some? && (letter == 'e' || letter == 'E')
    ensures IsMark(mark) && MarkText(Some(mark)) == [letter] + tail
    ensures ReadExponent(tail) == Some(Shift(Some(mark)))
  {
    hide ToNat;
    mark := Mark(letter, SignOf(tail), Unsigned(tail));
    SplitSign(tail);
  }

  /** The mark of an unsigned text, if it has one. */
  lemma SplitMark(body: string, negative: bool) returns (mark: Option<Mark>)
    requires ReadUnsigned(body, negative).Some?
    ensures mark.Some? ==> IsMark(mark.value)
    ensures var e := IndexOf(body, 'e', 'E');
      && body == body[..e] + MarkText(mark)
      && Some(Shift(mark)) == if e == |body| then Some(0) else ReadExponent(body[e + 1..])
  {
    hide IndexOf, ToNat, WithoutLeadingZeros, ReadExponent;
    var e := IndexOf(body, 'e', 'E');
    mark := None;
    if e < |body| {
      var m := ReadMark(body[e + 1..], body[e]);
      mark := Some(m);
    }
  }

  lemma SplitMantissa(mantissa: string) returns (whole: string, fraction: Option<string>)
    ensures var point := IndexOf(mantissa, '.', '.');
      && mantissa == whole + (if fraction.Some? then "." + fraction.value else "")
      && whole == mantissa[..point]
      && (if fraction.Some? then fraction.value else "") == (if point == |mantissa| then "" else mantissa[point + 1..])
  {
    hide IndexOf;
    var point := IndexOf(mantissa, '.', '.');
    whole, fraction := mantissa[..point], if point == |mantissa| then None else Some(mantissa[point + 1..]);
  }

  lemma DigitsOfBody(body: string, negative: bool, e: nat, point: nat)
    requires ReadUnsigned(body, negative).Some?
    requires e == IndexOf(body, 'e', 'E') && point == IndexOf(body[..e], '.', '.')
    ensures var fraction := if point == e then "" else body[..e][point + 1..];
      var digits := body[..e][..point] + fraction;
      && AllDigits(digits) && digits != [] && (e < |body| ==> ReadExponent(body[e + 1..]).Some?)
      && ReadUnsigned(body, negative).value
         == Decimal(negative, WithoutLeadingZeros(digits),
                    (if e == |body| then 0 else ReadExponent(body[e + 1..]).value) - |fraction|)
  {
    hide IndexOf, ToNat, WithoutLeadingZeros, ReadExponent, AllDigits;
  }

  lemma ReadBody(body: string, negative: bool, sign: string, d: Decimal) returns (n: Numeral)
    requires ReadUnsigned(body, negative) == Some(d) && IsSign(sign) && negative == (sign == "-")
    ensures IsNumeral(n) && n.sign == sign && Mantissa(n) + MarkText(n.mark) == body && Denotes(n, d)
  {
    hide ReadUnsigned, IndexOf, ToNat, WithoutLeadingZeros, ReadExponent, MarkText, Shift;
    var mark := SplitMark(body, negative);
    var whole, fraction := SplitMantissa(body[..IndexOf(body, 'e', 'E')]);
    n := Numeral(sign, whole, fraction, mark);
    DigitsOfBody(body, negative, IndexOf(body, 'e', 'E'), |whole|);
    WrittenDigits(n.whole, FractionDigits(n));
    LeadingZerosKeepValue(n.whole + FractionDigits(n));
  }

  lemma ReadNumeral(text: string, d: Decimal) returns (n: Numeral)
    requires ReadDecimal(text) == Some(d)
    ensures IsNumeral(n) && Render(n) == Remove(Strip(text), '_') && Denotes(n, d)
  {
    hide ReadUnsigned, Strip, Remove, Mantissa, MarkText, IsNumeral, Denotes;
    var s := Remove(Strip(text), '_');
    SplitSign(s);
    n := ReadBody(Unsigned(s), s != "" && s[0] == '-', SignOf(s), d);
  }

  lemma WrittenDigits(whole: string, fraction: string)
    requires AllDigits(whole + fraction)
    ensures AllDigits(whole) && AllDigits(fraction)
  {
    var all := whole + fraction;
    assert forall i | 0 <= i < |whole| :: whole[i] == all[i];
    assert forall i | 0 <= i < |fraction| :: fraction[i] == all[|whole| + i];
  }

  /** The constructor reads a text as `d` exactly when the text, stripped and without underscores, writes `d` down. */
  lemma ReadingIsTheGrammar(text: string, d: Decimal)
    ensures ReadDecimal(text) == Some(d) <==> IsWrittenAs(Remove(Strip(text), '_'), d)
  {
    hide ReadDecimal, Strip, Remove, IsNumeral, Render, Denotes;
    if ReadDecimal(text) == Some(d) {
      var n := ReadNumeral(text, d);
    }
    if IsWrittenAs(Remove(Strip(text), '_'), d) {
      var n :| IsNumeral(n) && Render(n) == Remove(Strip(text), '_') && Denotes(n, d);
      NumeralIsRead(n, text, d);
    }
  }
}
