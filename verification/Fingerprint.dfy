/**
 * The bytes a cloud event's key is hashed from: a version tag and four length-framed UTF-8
 * strings (src/tatatuya/services/cloud_history_service.py). The hash itself is not modelled.
 */
module Fingerprint {
  import opened Common
  import opened Decimals
  import opened Energy

  type Bytes = seq<int>

  // ------------------------------------------------------------ UTF-8

  function EncodeChar(c: char): (b: Bytes)
    ensures 1 <= |b| <= 4
  {
    var v := c as int;
    if v < 0x80 then [v]
    else if v < 0x800 then [0xC0 + v / 64, 0x80 + v % 64]
    else if v < 0x10000 then [0xE0 + v / 4096, 0x80 + v / 64 % 64, 0x80 + v % 64]
    else [0xF0 + v / 262144, 0x80 + v / 4096 % 64, 0x80 + v / 64 % 64, 0x80 + v % 64]
  }

  /** `s.encode("utf-8")` */
  function Encode(s: string): Bytes {
    if s == [] then [] else EncodeChar(s[0]) + Encode(s[1..])
  }

  /** The lead byte tells how many bytes a character takes. */
  lemma LeadByte(c: char)
    ensures
      var b := EncodeChar(c);
      |b| == if b[0] < 0x80 then 1 else if b[0] < 0xE0 then 2 else if b[0] < 0xF0 then 3 else 4
  {
  }

  /** The code point that an encoded character carries. */
  function CodePoint(b: Bytes): int
    requires 1 <= |b| <= 4
  {
    if |b| == 1 then b[0]
    else if |b| == 2 then 64 * (b[0] - 0xC0) + (b[1] - 0x80)
    else if |b| == 3 then 64 * (64 * (b[0] - 0xE0) + (b[1] - 0x80)) + (b[2] - 0x80)
    else 64 * (64 * (64 * (b[0] - 0xF0) + (b[1] - 0x80)) + (b[2] - 0x80)) + (b[3] - 0x80)
  }

  lemma SixBitGroups(v: nat)
    ensures v == 64 * (v / 64) + v % 64
    ensures v / 64 == 64 * (v / 4096) + v / 64 % 64
    ensures v / 4096 == 64 * (v / 262144) + v / 4096 % 64
  {
  }

  lemma CharDecodes(c: char)
    ensures CodePoint(EncodeChar(c)) == c as int
  {
    SixBitGroups(c as int);
  }

  lemma CharIsDecodable(a: char, b: char)
    requires EncodeChar(a) == EncodeChar(b)
    ensures a == b
  {
    hide EncodeChar;
    CharDecodes(a);
    CharDecodes(b);
  }

  lemma {:induction false} TextIsDecodable(a: string, b: string)
    requires Encode(a) == Encode(b)
    ensures a == b
  {
    hide EncodeChar;
    if a == [] || b == [] {
    } else {
      var x, y := EncodeChar(a[0]), EncodeChar(b[0]);
      LeadByte(a[0]);
      LeadByte(b[0]);
      assert Encode(a)[0] == x[0] && Encode(b)[0] == y[0];
      PrefixesAgree(x, Encode(a[1..]), y, Encode(b[1..]));
      CharIsDecodable(a[0], b[0]);
      TextIsDecodable(a[1..], b[1..]);
      assert a == [a[0]] + a[1..] && b == [b[0]] + b[1..];
    }
  }

  lemma PrefixesAgree(x: Bytes, r: Bytes, y: Bytes, s: Bytes)
    requires |x| == |y| && x + r == y + s
    ensures x == y && r == s
  {
    assert (x + r)[..|x|] == x && (y + s)[..|y|] == y;
    assert (x + r)[|x|..] == r && (y + s)[|y|..] == s;
  }

  // ------------------------------------------------------------ framing

  const COLON: int := 0x3A

  /** `str(len(encoded)).encode("ascii") + b":" + encoded` */
  function Frame(value: string): Bytes {
    Encode(Digits(|Encode(value)|)) + [COLON] + Encode(value)
  }

  lemma {:induction false} DigitBytes(s: string)
    requires AllDigits(s)
    ensures COLON !in Encode(s) && |Encode(s)| == |s|
  {
    if s != [] {
      DigitBytes(s[1..]);
      assert EncodeChar(s[0]) == [s[0] as int];
    }
  }

  lemma SplitAtColon(x: Bytes, r: Bytes, y: Bytes, s: Bytes)
    requires COLON !in x && COLON !in y && x + [COLON] + r == y + [COLON] + s
    ensures x == y && r == s
  {
    var whole := x + [COLON] + r;
    assert whole[|x|] == COLON && whole[|y|] == COLON;
    assert forall i | 0 <= i < |x| :: whole[i] == x[i] && x[i] in x;
    assert forall i | 0 <= i < |y| :: whole[i] == y[i] && y[i] in y;
    assert x + [COLON] + r == x + ([COLON] + r) && y + [COLON] + s == y + ([COLON] + s);
    PrefixesAgree(x, [COLON] + r, y, [COLON] + s);
    PrefixesAgree([COLON], r, [COLON], s);
  }

  /** A frame at the start of a byte string can be read off in only one way. */
  lemma FrameIsDecodable(a: string, r: Bytes, b: string, s: Bytes)
    requires Frame(a) + r == Frame(b) + s
    ensures a == b && r == s
  {
    hide Encode, ToNat;
    var m, n := |Encode(a)|, |Encode(b)|;
    DigitBytes(Digits(m));
    DigitBytes(Digits(n));
    assert Frame(a) + r == Encode(Digits(m)) + [COLON] + (Encode(a) + r);
    assert Frame(b) + s == Encode(Digits(n)) + [COLON] + (Encode(b) + s);
    SplitAtColon(Encode(Digits(m)), Encode(a) + r, Encode(Digits(n)), Encode(b) + s);
    TextIsDecodable(Digits(m), Digits(n));
    PrefixesAgree(Encode(a), r, Encode(b), s);
    TextIsDecodable(a, b);
  }

  // ------------------------------------------------------------ the payload

  /** `str(i)` */
  function IntegerText(i: int): string {
    SignText(i < 0) + Digits(if i < 0 then -i else i)
  }

  lemma IntegerTextIsInjective(i: int, j: int)
    requires IntegerText(i) == IntegerText(j)
    ensures i == j
  {
    hide ToNat;
    var x, y := Digits(if i < 0 then -i else i), Digits(if j < 0 then -j else j);
    assert IsDigit(x[0]) && IsDigit(y[0]);
    assert (IntegerText(i)[0] == '-') == (i < 0) && (IntegerText(j)[0] == '-') == (j < 0);
    if i < 0 {
      assert IntegerText(i)[1..] == x && IntegerText(j)[1..] == y;
    } else {
      assert IntegerText(i) == x && IntegerText(j) == y;
    }
  }

  /** `external_event_key` before hashing. */
  function EventKeyBytes(deviceId: string, code: string, timeMs: int, rawText: string): Bytes {
    Encode("tuya-report-v1") + [0] + (Frame(deviceId) + (Frame(code) + (Frame(IntegerText(timeMs)) + Frame(rawText))))
  }

  predicate IsAscii(s: string) {
    forall i | 0 <= i < |s| :: s[i] as int < 0x80
  }

  /** One byte for each character of an ASCII text. */
  function Codes(s: string): Bytes {
    seq(|s|, i requires 0 <= i < |s| => s[i] as int)
  }

  lemma {:induction false} AsciiBytes(s: string)
    requires IsAscii(s)
    ensures Encode(s) == Codes(s)
  {
    hide EncodeChar;
    if s != [] {
      AsciiBytes(s[1..]);
      AsciiByte(s[0]);
      assert Codes(s) == [s[0] as int] + Codes(s[1..]);
    }
  }

  lemma AsciiByte(c: char)
    requires c as int < 0x80
    ensures EncodeChar(c) == [c as int]
  {
  }

  /** A length in decimal, a colon, and the text. */
  function Framed(s: string): string {
    Digits(|s|) + ":" + s
  }

  lemma AsciiFrame(s: string)
    requires IsAscii(s)
    ensures Frame(s) == Codes(Framed(s))
  {
    hide ToNat, Encode;
    AsciiBytes(s);
    AsciiBytes(Digits(|s|));
  }

  lemma IntegerTextIsAscii(t: int)
    ensures IsAscii(IntegerText(t))
  {
    hide ToNat;
  }

  /** Of ASCII texts the key hashes this very text: the tag, a zero byte, and the four parts in order, each framed. */
  lemma KeyIsTheFramedText(d: string, c: string, t: int, raw: string)
    requires IsAscii(d) && IsAscii(c) && IsAscii(raw)
    ensures EventKeyBytes(d, c, t, raw)
         == Codes("tuya-report-v1" + "\U{0}" + Framed(d) + Framed(c) + Framed(IntegerText(t)) + Framed(raw))
  {
    hide ToNat, Encode, Frame, Framed, IntegerText;
    AsciiBytes("tuya-report-v1");
    IntegerTextIsAscii(t);
    AsciiFrame(d);
    AsciiFrame(c);
    AsciiFrame(IntegerText(t));
    AsciiFrame(raw);
  }

  /** The four framed strings can be recovered from the bytes. */
  lemma PayloadIsDecodable(d: string, c: string, t: int, raw: string, d': string, c': string, t': int, raw': string)
    ensures EventKeyBytes(d, c, t, raw) == EventKeyBytes(d', c', t', raw')
      <==> d == d' && c == c' && t == t' && raw == raw'
  {
    hide Frame, Encode, IntegerText;
    if EventKeyBytes(d, c, t, raw) == EventKeyBytes(d', c', t', raw') {
      var tag := Encode("tuya-report-v1") + [0];
      var last, last' := Frame(raw), Frame(raw');
      var third, third' := Frame(IntegerText(t)) + last, Frame(IntegerText(t')) + last';
      var second, second' := Frame(c) + third, Frame(c') + third';
      PrefixesAgree(tag, Frame(d) + second, tag, Frame(d') + second');
      FrameIsDecodable(d, second, d', second');
      FrameIsDecodable(c, third, c', third');
      FrameIsDecodable(IntegerText(t), last, IntegerText(t'), last');
      IntegerTextIsInjective(t, t');
      assert last + [] == last && last' + [] == last';
      FrameIsDecodable(raw, [], raw', []);
    }
  }

  /** Two events hash the same bytes exactly when device, code, moment and numeric value agree. */
  lemma KeyIdentifiesEvent(d: string, c: string, t: int, v: Decimal, d': string, c': string, t': int, v': Decimal)
    ensures EventKeyBytes(d, c, t, CanonicalText(v)) == EventKeyBytes(d', c', t', CanonicalText(v'))
      <==> d == d' && c == c' && t == t' && NumEq(v, v')
  {
    hide EventKeyBytes, CanonicalText, NumEq;
    PayloadIsDecodable(d, c, t, CanonicalText(v), d', c', t', CanonicalText(v'));
    TextIdentifiesNumber(v, v');
  }
}
