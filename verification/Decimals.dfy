/**
 * Python's `decimal.Decimal` as far as the program uses it: a sign, a digit string
 * without leading zeros, and an exponent; its fixed-point text and the constructor
 * that reads text; and its numeric order, defined by aligning exponents.
 */
module Decimals {
  import opened Arithmetic
  import opened Common

  // ------------------------------------------------------------ digits and powers

  predicate IsDigit(c: char) {
    '0' <= c <= '9'
  }

  predicate AllDigits(s: string) {
    forall i | 0 <= i < |s| :: IsDigit(s[i])
  }

  function DigitValue(c: char): (v: nat)
    requires IsDigit(c)
  {
    c as int - '0' as int
  }

  function DigitChar(v: nat): (c: char)
    requires v < 10
    ensures IsDigit(c) && DigitValue(c) == v
  {
    '0' + v as char
  }

  function Pow10(n: nat): (p: nat)
    ensures p >= 1
  {
    if n == 0 then 1 else 10 * Pow10(n - 1)
  }

  function Zeros(n: nat): (s: string)
    ensures |s| == n && AllDigits(s) && forall i | 0 <= i < n :: s[i] == '0'
  {
    seq(n, _ => '0')
  }

  /** The number a digit string denotes; leading zeros are allowed. */
  function ToNat(s: string): nat
    requires AllDigits(s)
  {
    if s == [] then 0 else 10 * ToNat(s[..|s| - 1]) + DigitValue(s[|s| - 1])
  }

  /** `str(n)` for a non-negative integer. */
  function Digits(n: nat): (s: string)
    ensures AllDigits(s) && |s| > 0 && (s[0] == '0' ==> |s| == 1)
    ensures ToNat(s) == n
  {
    if n < 10 then
      assert [DigitChar(n)][..0] == [];
      [DigitChar(n)]
    else
      var s := Digits(n / 10);
      assert (s + [DigitChar(n % 10)])[..|s|] == s;
      assert n / 10 > 0;
      s + [DigitChar(n % 10)]
  }

  function WithoutLeadingZeros(s: string): (r: string)
    requires AllDigits(s) && |s| > 0
    ensures AllDigits(r) && 0 < |r| <= |s| && (r[0] == '0' ==> |r| == 1)
    ensures s[0] != '0' ==> r == s
  {
    if |s| > 1 && s[0] == '0' then WithoutLeadingZeros(s[1..]) else s
  }

  lemma {:induction false} PowersAdd(a: nat, b: nat)
    ensures Pow10(a + b) == Pow10(a) * Pow10(b)
  {
    if a > 0 {
      PowersAdd(a - 1, b);
      Associate(10, Pow10(a - 1), Pow10(b));
    }
  }

  lemma AppendDigit(s: string, c: char)
    requires AllDigits(s) && IsDigit(c)
    ensures ToNat(s + [c]) == 10 * ToNat(s) + DigitValue(c)
  {
    assert (s + [c])[..|s|] == s;
  }

  lemma {:induction false} ConcatenationValue(a: string, b: string)
    requires AllDigits(a) && AllDigits(b)
    ensures ToNat(a + b) == ToNat(a) * Pow10(|b|) + ToNat(b)
  {
    if b == [] {
      assert a + b == a;
    } else {
      hide ToNat;
      var rest, last := b[..|b| - 1], b[|b| - 1];
      ConcatenationValue(a, rest);
      AppendDigit(a + rest, last);
      AppendDigit(rest, last);
      assert b == rest + [last] && a + b == a + rest + [last];
      AppendToSum(ToNat(a), Pow10(|rest|), ToNat(rest), DigitValue(last));
    }
  }

  lemma AppendToSum(x: nat, p: nat, r: nat, v: nat)
    ensures 10 * (x * p + r) + v == x * (10 * p) + (10 * r + v)
  {
    Associate(x, p, 10);
  }

  lemma {:induction false} ZerosValue(n: nat)
    ensures ToNat(Zeros(n)) == 0
  {
    if n > 0 {
      assert Zeros(n)[..n - 1] == Zeros(n - 1);
      ZerosValue(n - 1);
    }
  }

  lemma {:induction false} LeadingZerosKeepValue(s: string)
    requires AllDigits(s) && |s| > 0
    ensures ToNat(WithoutLeadingZeros(s)) == ToNat(s)
    decreases |s|
  {
    if |s| > 1 && s[0] == '0' {
      LeadingZerosKeepValue(s[1..]);
      ConcatenationValue(s[..1], s[1..]);
      assert s == s[..1] + s[1..];
      assert s[..1][..0] == [];
    }
  }

  lemma {:induction false} ValueBound(s: string)
    requires AllDigits(s)
    ensures ToNat(s) < Pow10(|s|)
    ensures |s| > 0 && s[0] != '0' ==> Pow10(|s| - 1) <= ToNat(s)
  {
    if |s| > 0 {
      ValueBound(s[..|s| - 1]);
      if |s| == 1 {
        assert s[..0] == [];
      }
    }
  }

  /** Digit strings without leading zeros are equal when they denote the same number. */
  lemma {:induction false} DigitsAreUnique(a: string, b: string)
    requires AllDigits(a) && AllDigits(b) && |a| > 0 && |b| > 0
    requires (a[0] == '0' ==> |a| == 1) && (b[0] == '0' ==> |b| == 1)
    requires ToNat(a) == ToNat(b)
    ensures a == b
    decreases |a|
  {
    var a', b' := a[..|a| - 1], b[..|b| - 1];
    var x, y := a[|a| - 1], b[|b| - 1];
    assert ToNat(a) % 10 == DigitValue(x) && ToNat(b) % 10 == DigitValue(y);
    assert x == y && ToNat(a') == ToNat(b');
    assert a == a' + [x] && b == b' + [y];
    ValueBound(a');
    ValueBound(b');
    if |a'| > 0 && |b'| > 0 {
      DigitsAreUnique(a', b');
    }
  }

  // ------------------------------------------------------------ decimals and their order

  datatype DecimalParts = Decimal(negative: bool, digits: string, exponent: int)
  {
    predicate Normal() {
      AllDigits(digits) && |digits| > 0 && (digits[0] == '0' ==> |digits| == 1)
    }
  }

  /** A finite Decimal, with `digits` as `as_tuple()` gives them. */
  type Decimal = d: DecimalParts | d.Normal() witness DecimalParts.Decimal(false, "0", 0)

  predicate IsZero(d: Decimal) {
    d.digits == "0"
  }

  function Signed(negative: bool, n: int): int {
    if negative then -n else n
  }

  function Coefficient(d: Decimal): int {
    Signed(d.negative, ToNat(d.digits))
  }

  /** The integer `d / 10^k`, for `k` at or below the exponent. */
  function At(d: Decimal, k: int): int
    requires k <= d.exponent
  {
    Coefficient(d) * Pow10(d.exponent - k)
  }

  predicate NumEq(a: Decimal, b: Decimal) {
    var k := Min(a.exponent, b.exponent);
    At(a, k) == At(b, k)
  }

  predicate Less(a: Decimal, b: Decimal) {
    var k := Min(a.exponent, b.exponent);
    At(a, k) < At(b, k)
  }

  lemma Rescale(d: Decimal, k: int, j: int)
    requires j <= k <= d.exponent
    ensures At(d, j) == At(d, k) * Pow10(k - j)
  {
    PowersAdd(d.exponent - k, k - j);
    Associate(Coefficient(d), Pow10(d.exponent - k), Pow10(k - j));
  }

  /** Comparison may be made at any scale that both operands reach. */
  lemma CompareAt(a: Decimal, b: Decimal, k: int)
    requires k <= a.exponent && k <= b.exponent
    ensures NumEq(a, b) <==> At(a, k) == At(b, k)
    ensures Less(a, b) <==> At(a, k) < At(b, k)
  {
    var m := Min(a.exponent, b.exponent);
    Rescale(a, m, k);
    Rescale(b, m, k);
    CancelFactor(At(a, m), At(b, m), Pow10(m - k));
  }

  lemma NumEqTransitive(a: Decimal, b: Decimal, c: Decimal)
    requires NumEq(a, b) && NumEq(b, c)
    ensures NumEq(a, c)
  {
    var k := Min(a.exponent, Min(b.exponent, c.exponent));
    CompareAt(a, b, k);
    CompareAt(b, c, k);
    CompareAt(a, c, k);
  }

  lemma ZeroCoefficient(d: Decimal)
    ensures IsZero(d) <==> ToNat(d.digits) == 0
  {
    if d.digits[0] != '0' {
      ValueBound(d.digits);
    } else {
      assert d.digits == "0";
      assert d.digits[..0] == [];
    }
  }

  // ------------------------------------------------------------ trailing zeros

  function TrailingZeros(s: string): (n: nat)
    ensures n <= |s|
    ensures forall i | |s| - n <= i < |s| :: s[i] == '0'
    ensures n < |s| ==> s[|s| - n - 1] != '0'
  {
    if s != [] && s[|s| - 1] == '0' then 1 + TrailingZeros(s[..|s| - 1]) else 0
  }

  /** `d` with the trailing zeros of its coefficient moved into the exponent. */
  function Reduced(d: Decimal): (r: Decimal)
    requires !IsZero(d)
    ensures r.digits[|r.digits| - 1] != '0' && !IsZero(r)
    ensures r.negative == d.negative && r.digits <= d.digits
    ensures d.digits == r.digits + Zeros(|d.digits| - |r.digits|)
    ensures r.exponent == d.exponent + (|d.digits| - |r.digits|)
  {
    var n := TrailingZeros(d.digits);
    assert d.digits[0] == '0' ==> d.digits == "0";
    Decimal(d.negative, d.digits[..|d.digits| - n], d.exponent + n)
  }

  lemma ScaledCoefficient(d: Decimal, r: Decimal, n: nat)
    requires d.negative == r.negative && d.digits == r.digits + Zeros(n)
    ensures Coefficient(d) == Coefficient(r) * Pow10(n)
  {
    ConcatenationValue(r.digits, Zeros(n));
    ZerosValue(n);
    Distribute(ToNat(r.digits), 0, Pow10(n));
  }

  lemma ReducedKeepsValue(d: Decimal)
    requires !IsZero(d)
    ensures NumEq(d, Reduced(d))
  {
    var r := Reduced(d);
    ScaledCoefficient(d, r, |d.digits| - |r.digits|);
  }

  /** A number has one reduced form. */
  lemma ReducedIsUnique(a: Decimal, b: Decimal)
    requires !IsZero(a) && !IsZero(b) && NumEq(a, b)
    ensures Reduced(a) == Reduced(b)
  {
    var r, s := Reduced(a), Reduced(b);
    ReducedKeepsValue(a);
    ReducedKeepsValue(b);
    assert NumEq(r, a) && NumEq(s, b);
    NumEqTransitive(r, a, b);
    NumEqTransitive(r, b, s);
    if r.exponent <= s.exponent {
      SameReducedForm(s, r);
    } else {
      SameReducedForm(r, s);
    }
  }

  lemma NotDivisible(s: string, q: nat, n: nat)
    requires AllDigits(s) && |s| > 0 && s[|s| - 1] != '0' && n > 0
    ensures ToNat(s) != q * Pow10(n)
  {
    Associate(q, Pow10(n - 1), 10);
    assert ToNat(s) % 10 == DigitValue(s[|s| - 1]);
  }

  lemma SameReducedForm(high: Decimal, low: Decimal)
    requires low.exponent <= high.exponent && NumEq(high, low)
    requires !IsZero(high) && !IsZero(low)
    requires low.digits[|low.digits| - 1] != '0'
    ensures high == low
  {
    var n := high.exponent - low.exponent;
    assert Coefficient(high) * Pow10(n) == Coefficient(low);
    ZeroCoefficient(high);
    ZeroCoefficient(low);
    SignOfProduct(Coefficient(high), Pow10(n));
    assert high.negative == low.negative;
    Distribute(ToNat(high.digits), 0, Pow10(n));
    assert ToNat(low.digits) == ToNat(high.digits) * Pow10(n);
    if n > 0 {
      NotDivisible(low.digits, ToNat(high.digits), n);
    }
    DigitsAreUnique(high.digits, low.digits);
  }

  // ------------------------------------------------------------ fixed-point text

  function SignText(negative: bool): string {
    if negative then "-" else ""
  }

  /** `format(d, "f")` without its sign. */
  function UnsignedFixedText(d: Decimal): string {
    var point := |d.digits| + d.exponent;
    if d.exponent >= 0 then
      if IsZero(d) then "0" else d.digits + Zeros(d.exponent)
    else if point > 0 then
      d.digits[..point] + "." + d.digits[point..]
    else
      "0." + Zeros(-point) + d.digits
  }

  /** `format(d, "f")`. */
  function FixedText(d: Decimal): string {
    SignText(d.negative) + UnsignedFixedText(d)
  }

  // ------------------------------------------------------------ reading text

  /** Python's `str.isspace` characters, which `str.strip` removes from both ends. */
  predicate IsSpace(c: char) {
    || '\t' <= c <= '\r' || '\U{1C}' <= c <= ' ' || c == '\U{85}' || c == '\U{A0}'
    || c == '\U{1680}' || '\U{2000}' <= c <= '\U{200A}' || '\U{2028}' <= c <= '\U{2029}'
    || c == '\U{202F}' || c == '\U{205F}' || c == '\U{3000}'
  }

  /** The same characters by code point. */
  lemma SpaceCodePoints(c: char)
    ensures IsSpace(c) <==>
      var v := c as int;
      || 9 <= v <= 13 || 28 <= v <= 32 || v in {133, 160, 5760, 8232, 8233, 8239, 8287, 12288} || 8192 <= v <= 8202
  {
  }

  function StripStart(s: string): (r: string)
    ensures s == [] || !IsSpace(s[0]) ==> r == s
    ensures r == [] || !IsSpace(r[0])
    ensures |r| <= |s| && r == s[|s| - |r|..] && forall i | 0 <= i < |s| - |r| :: IsSpace(s[i])
  {
    if s != [] && IsSpace(s[0]) then StripStart(s[1..]) else s
  }

  function StripEnd(s: string): (r: string)
    ensures s == [] || !IsSpace(s[|s| - 1]) ==> r == s
    ensures r == [] || !IsSpace(r[|r| - 1])
    ensures r <= s && forall i | |r| <= i < |s| :: IsSpace(s[i])
  {
    if s != [] && IsSpace(s[|s| - 1]) then StripEnd(s[..|s| - 1]) else s
  }

  /** `s.strip()` */
  function Strip(s: string): string {
    StripEnd(StripStart(s))
  }

  /** `s.replace(c, "")` for a single character. */
  function Remove(s: string, c: char): (r: string)
    ensures c !in r
    ensures c !in s ==> r == s
  {
    if s == [] then [] else if s[0] == c then Remove(s[1..], c) else [s[0]] + Remove(s[1..], c)
  }

  lemma {:induction false} RemoveDistributes(a: string, b: string, c: char)
    ensures Remove(a + b, c) == Remove(a, c) + Remove(b, c)
  {
    if a == [] {
      assert a + b == b;
    } else {
      assert (a + b)[1..] == a[1..] + b;
      RemoveDistributes(a[1..], b, c);
    }
  }

  /** The first position of either character, or the length. */
  function IndexOf(s: string, c: char, alternative: char): (i: nat)
    ensures i <= |s|
    ensures forall j | 0 <= j < i :: s[j] != c && s[j] != alternative
    ensures i < |s| ==> s[i] == c || s[i] == alternative
  {
    if s == [] || s[0] == c || s[0] == alternative then 0 else 1 + IndexOf(s[1..], c, alternative)
  }

  predicate StartsWithSign(s: string) {
    s != [] && (s[0] == '+' || s[0] == '-')
  }

  function Unsigned(s: string): string {
    if StartsWithSign(s) then s[1..] else s
  }

  /** The exponent after `e`: an optional sign and at least one digit. */
  function ReadExponent(s: string): Option<int> {
    var body := Unsigned(s);
    if body == [] || !AllDigits(body) then None
    else
      Some(Signed(s[0] == '-', ToNat(body)))
  }

  /** Digits, optionally a point and more digits, optionally an exponent. */
  function ReadUnsigned(s: string, negative: bool): Option<Decimal> {
    var e := IndexOf(s, 'e', 'E');
    var mantissa := s[..e];
    var exponent := if e == |s| then Some(0) else ReadExponent(s[e + 1..]);
    var point := IndexOf(mantissa, '.', '.');
    var fraction := if point == |mantissa| then "" else mantissa[point + 1..];
    var digits := mantissa[..point] + fraction;
    if exponent.None? || digits == [] || !AllDigits(digits) then None
    else Some(Decimal(negative, WithoutLeadingZeros(digits), exponent.value - |fraction|))
  }

  /** `Decimal(text)`; `None` where it raises or yields an infinity or a NaN. */
  function ReadDecimal(text: string): Option<Decimal> {
    var s := Remove(Strip(text), '_');
    ReadUnsigned(Unsigned(s), s != [] && s[0] == '-')
  }

  /** Reading strips its text, so stripping it before makes no difference. */
  lemma StripTwice(s: string)
    ensures ReadDecimal(Strip(s)) == ReadDecimal(s)
  {
    assert Strip(Strip(s)) == Strip(s);
  }

  /** Characters of the mantissa. */
  predicate IsPlain(c: char) {
    IsDigit(c) || c == '.'
  }

  /** Characters that survive the clean-up before parsing. */
  predicate IsNumberChar(c: char) {
    IsPlain(c) || c == '+' || c == '-' || c == 'e' || c == 'E'
  }

  lemma NothingToStrip(s: string)
    requires s != [] && !IsSpace(s[0]) && !IsSpace(s[|s| - 1])
    ensures Strip(s) == s
  {
    hide StripStart, StripEnd, IsSpace;
  }

  /** A sign and number characters are taken as they are. */
  lemma ReadSigned(negative: bool, body: string)
    requires |body| > 0 && !StartsWithSign(body) && forall i | 0 <= i < |body| :: IsNumberChar(body[i])
    ensures ReadDecimal(SignText(negative) + body) == ReadUnsigned(body, negative)
  {
    var text := SignText(negative) + body;
    assert text[|text| - 1] == body[|body| - 1] && IsNumberChar(text[0]);
    NothingToStrip(text);
    assert '_' !in text;
    hide Strip, Remove, ReadUnsigned;
    if negative {
      assert text[0] == '-' && text[1..] == body;
    } else {
      assert text == body;
    }
  }

  lemma ReadWhole(negative: bool, whole: string)
    requires AllDigits(whole) && |whole| > 0
    ensures ReadUnsigned(whole, negative) == Some(Decimal(negative, WithoutLeadingZeros(whole), 0))
  {
    var e := IndexOf(whole, 'e', 'E');
    assert e == |whole| && whole[..e] == whole;
    var p := IndexOf(whole, '.', '.');
    assert p == |whole| && whole[..p] + "" == whole;
  }

  lemma SplitAtPoint(whole: string, fraction: string)
    requires AllDigits(whole) && AllDigits(fraction)
    ensures
      var body := whole + "." + fraction;
      && IndexOf(body, 'e', 'E') == |body|
      && IndexOf(body, '.', '.') == |whole| < |body|
      && body[..|whole|] == whole && body[|whole| + 1..] == fraction && body[..|body|] == body
  {
    var body := whole + "." + fraction;
    assert forall i | 0 <= i < |body| :: IsPlain(body[i]);
    assert body[|whole|] == '.';
  }

  lemma ReadWithFraction(negative: bool, whole: string, fraction: string)
    requires AllDigits(whole) && AllDigits(fraction) && |whole| > 0
    ensures ReadUnsigned(whole + "." + fraction, negative)
         == Some(Decimal(negative, WithoutLeadingZeros(whole + fraction), -|fraction|))
  {
    hide IndexOf, WithoutLeadingZeros, ReadExponent;
    SplitAtPoint(whole, fraction);
  }

  /** A sign and digits read as written. */
  lemma ReadPlainWhole(negative: bool, whole: string)
    requires AllDigits(whole) && |whole| > 0
    ensures ReadDecimal(SignText(negative) + whole)
         == Some(Decimal(negative, WithoutLeadingZeros(whole), 0))
  {
    ReadSigned(negative, whole);
    ReadWhole(negative, whole);
  }

  /** A sign, digits, a point and digits read as written. */
  lemma ReadPlainFraction(negative: bool, whole: string, fraction: string)
    requires AllDigits(whole) && AllDigits(fraction) && |whole| > 0
    ensures ReadDecimal(SignText(negative) + (whole + "." + fraction))
         == Some(Decimal(negative, WithoutLeadingZeros(whole + fraction), -|fraction|))
  {
    ReadSigned(negative, whole + "." + fraction);
    ReadWithFraction(negative, whole, fraction);
  }

  /** The digits on either side of the point in the fixed-point text of a Decimal with a fraction. */
  function WholePart(d: Decimal): (s: string)
    requires d.exponent < 0
    ensures AllDigits(s) && |s| > 0
  {
    var point := |d.digits| + d.exponent;
    if point > 0 then d.digits[..point] else "0"
  }

  function FractionPart(d: Decimal): (s: string)
    requires d.exponent < 0
    ensures AllDigits(s) && |s| == -d.exponent
  {
    var point := |d.digits| + d.exponent;
    if point > 0 then d.digits[point..] else Zeros(-point) + d.digits
  }

  lemma FixedTextParts(d: Decimal)
    requires d.exponent < 0
    ensures UnsignedFixedText(d) == WholePart(d) + "." + FractionPart(d)
    ensures WithoutLeadingZeros(WholePart(d) + FractionPart(d)) == d.digits
  {
    var point := |d.digits| + d.exponent;
    if point > 0 {
      assert d.digits[..point] + d.digits[point..] == d.digits;
    } else {
      PaddingIsDropped(-point + 1, d.digits);
      assert "0" + (Zeros(-point) + d.digits) == Zeros(-point + 1) + d.digits;
    }
  }

  lemma PaddedValue(d: Decimal)
    requires d.exponent >= 0
    ensures NumEq(Decimal(d.negative, WithoutLeadingZeros(UnsignedFixedText(d)), 0), d)
  {
    var r := Decimal(d.negative, WithoutLeadingZeros(UnsignedFixedText(d)), 0);
    if IsZero(d) {
      ZeroCoefficient(d);
      ZeroCoefficient(r);
    } else {
      assert r.digits == d.digits + Zeros(d.exponent);
      ScaledCoefficient(r, d, d.exponent);
      assert Pow10(0) == 1;
    }
  }

  /** Fixed-point text reads back: as the same Decimal when it has a fraction, as the same number always. */
  lemma FixedTextReadsBack(d: Decimal)
    ensures ReadDecimal(FixedText(d)).Some?
    ensures d.exponent < 0 ==> ReadDecimal(FixedText(d)).value == d
    ensures NumEq(ReadDecimal(FixedText(d)).value, d)
    ensures ReadDecimal(FixedText(d)).value.negative == d.negative
  {
    if d.exponent >= 0 {
      ReadPlainWhole(d.negative, UnsignedFixedText(d));
      PaddedValue(d);
    } else {
      FixedTextParts(d);
      ReadPlainFraction(d.negative, WholePart(d), FractionPart(d));
    }
  }

  lemma {:induction false} PaddingIsDropped(n: nat, digits: string)
    requires AllDigits(digits) && |digits| > 0 && (digits[0] == '0' ==> |digits| == 1)
    ensures WithoutLeadingZeros(Zeros(n) + digits) == digits
  {
    if n > 0 {
      assert (Zeros(n) + digits)[1..] == Zeros(n - 1) + digits;
      PaddingIsDropped(n - 1, digits);
    }
  }
}
