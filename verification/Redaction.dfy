/**
 * What the client does to a report-log payload before it hands the page on: numbers are read as
 * Decimals, and then the payload is redacted, which removes sensitive fields, replaces known
 * secrets and writes every Decimal down as text (src/tatatuya/infrastructure/tuya/client.py,
 * src/tatatuya/infrastructure/tuya/parsers.py).
 */
module Redaction {
  import opened Common
  import opened Decimals
  import opened Energy
  import opened Json

  // ------------------------------------------------------------ numbers as Decimals

  /** `parse_int=Decimal, parse_float=Decimal`: no JSON number arrives as a Python integer. */
  function DecimalNumbers(v: Value): Value {
    match v
    case Int(i) => Num(FromInteger(i))
    case Arr(items) => Arr(seq(|items|, i requires 0 <= i < |items| => DecimalNumbers(items[i])))
    case Obj(fields) => Obj(map k | k in fields :: DecimalNumbers(fields[k]))
    case _ => v
  }

  // ------------------------------------------------------------ sensitive fields and secrets

  const SENSITIVE_PARTS: seq<string> := [
    "authorization", "credential", "localkey", "password", "passwd", "secret", "token"]

  /** `"".join(c for c in key.casefold() if c.isalnum())` for ASCII keys. */
  function CanonicalKey(key: string): (r: string)
    ensures forall c | c in r :: c in Lower(key)
  {
    if key == "" then ""
    else
      var c := LowerChar(key[0]);
      assert Lower(key)[0] == c && Lower(key)[1..] == Lower(key[1..]);
      (if IsDigit(c) || 'a' <= c <= 'z' then [c] else []) + CanonicalKey(key[1..])
  }

  predicate Contains(s: string, part: string) {
    part <= s || (s != "" && Contains(s[1..], part))
  }

  predicate IsSensitiveKey(key: string) {
    exists p | p in SENSITIVE_PARTS :: Contains(CanonicalKey(key), p)
  }

  /** `s.replace(secret, by)` */
  function ReplaceText(s: string, secret: string, mark: string): string
    requires secret != ""
  {
    if |s| < |secret| then s
    else if s[..|secret|] == secret then mark + ReplaceText(s[|secret|..], secret, mark)
    else [s[0]] + ReplaceText(s[1..], secret, mark)
  }

  /** `_redact`; empty secrets are not among the known ones. */
  function Scrub(s: string, secrets: seq<string>): string {
    if secrets == [] then s
    else
      var before, last := Scrub(s, secrets[..|secrets| - 1]), secrets[|secrets| - 1];
      if last == "" then before else ReplaceText(before, last, "[REDACTED]")
  }

  // ------------------------------------------------------------ the redacted payload

  /** `_redact_payload` */
  function Redacted(secrets: seq<string>, v: Value): Value {
    match v
    case Str(s) => Str(Scrub(s, secrets))
    case Num(d) => Str(if Fits(d) then CanonicalText(d) else "[DECIMAL_DISCARDED]")
    case Arr(items) => Arr(seq(|items|, i requires 0 <= i < |items| => Redacted(secrets, items[i])))
    case Obj(fields) =>
      Obj(map k | k in fields ::
            if IsSensitiveKey(k) then Str(Scrub("[REDACTED]", secrets)) else Redacted(secrets, fields[k]))
    case _ => v
  }

  /**
   * The page made of a payload. With secrets it is the page of the application's own client; without,
   * of a client that hands pages on as they came.
   */
  function Delivered(secrets: Option<seq<string>>, payload: map<string, Value>): map<string, Value> {
    if secrets.None? then payload else Redacted(secrets.value, DecimalNumbers(Obj(payload))).fields
  }

  /** A number is written down as the canonical text of its value, or as discarded when that is too long. */
  lemma NumberIsWrittenDown(secrets: seq<string>, v: Value, d: Decimal)
    requires (v.Num? && v.d == d) || (v.Int? && IsInteger(d, v.i))
    ensures
      var after := Redacted(secrets, DecimalNumbers(v));
      if |CanonicalText(d)| <= 128 then
        after.Str? && after.s == CanonicalText(d) && ReadDecimal(after.s).Some? && NumEq(ReadDecimal(after.s).value, d)
      else after == Str("[DECIMAL_DISCARDED]")
  {
    hide CanonicalText, NumEq, ReadDecimal, FromInteger, IsInteger;
    if v.Int? {
      IntegerIsItsDecimal(v.i, d);
    }
    CanonicalTextReadsBack(d);
  }

  // ------------------------------------------------------------ which keys are sensitive

  lemma {:induction false} ContainsMeans(s: string, part: string)
    ensures Contains(s, part) <==> exists i | 0 <= i <= |s| :: part <= s[i..]
    decreases |s|
  {
    if s != "" {
      ContainsMeans(s[1..], part);
      assert s == s[0..];
      if i :| 0 <= i <= |s[1..]| && part <= s[1..][i..] {
        assert s[1..][i..] == s[i + 1..];
      }
      if i :| 0 < i <= |s| && part <= s[i..] {
        assert s[1..][i - 1..] == s[i..];
      }
    } else {
      assert s == s[0..];
    }
  }

  lemma CanonicalKeyStep(s: string)
    ensures s == "" ==> CanonicalKey(s) == ""
    ensures s != "" ==> CanonicalKey(s) == CanonicalKey([s[0]]) + CanonicalKey(s[1..])
  {
    hide Lower, LowerChar;
    if s != "" {
      assert [s[0]][1..] == "" && CanonicalKey("") == "";
    }
  }

  lemma {:induction false} CanonicalKeyAdds(a: string, b: string)
    ensures CanonicalKey(a + b) == CanonicalKey(a) + CanonicalKey(b)
  {
    hide CanonicalKey;
    CanonicalKeyStep(a);
    CanonicalKeyStep(a + b);
    if a == "" {
      assert a + b == b;
    } else {
      assert (a + b)[1..] == a[1..] + b;
      CanonicalKeyAdds(a[1..], b);
    }
  }

  /** Letters count in lower case, digits as they are, and nothing else counts. */
  lemma CanonicalKeyOfOne(c: char)
    ensures CanonicalKey([c]) ==
      if 'A' <= c <= 'Z' then [c - 'A' + 'a']
      else if 'a' <= c <= 'z' || '0' <= c <= '9' then [c]
      else if c == '\U{212A}' then "k" else ""
  {
  }

  /** A key is sensitive exactly when its letters and digits contain one of seven words. */
  lemma SensitiveKeysAreExactly(key: string)
    ensures IsSensitiveKey(key) <==>
      var k := CanonicalKey(key);
      || Contains(k, "authorization") || Contains(k, "credential") || Contains(k, "localkey") || Contains(k, "password")
      || Contains(k, "passwd") || Contains(k, "secret") || Contains(k, "token")
  {
    hide Contains, CanonicalKey;
    assert SENSITIVE_PARTS[0] == "authorization" && SENSITIVE_PARTS[1] == "credential";
    assert SENSITIVE_PARTS[2] == "localkey" && SENSITIVE_PARTS[3] == "password" && SENSITIVE_PARTS[4] == "passwd";
    assert SENSITIVE_PARTS[5] == "secret" && SENSITIVE_PARTS[6] == "token";
  }

  // ------------------------------------------------------------ known secrets

  const MARK := "[REDACTED]"

  /** The secret has a character, and none of the mark's. */
  predicate IsUnlikeMark(secret: string) {
    secret != "" && forall c | c in secret :: c !in MARK
  }

  lemma LongerIsNotContained(s: string, part: string)
    requires |s| < |part|
    ensures !Contains(s, part)
    decreases |s|
  {
    if s != "" {
      LongerIsNotContained(s[1..], part);
    }
  }

  lemma OtherStart(secret: string, text: string)
    requires secret != "" && text != "" && secret[0] != text[0]
    ensures !(secret <= text)
  {
  }

  /** Putting characters of the mark in front brings no secret in. */
  lemma {:induction false} NothingBeforeMark(front: string, s: string, secret: string)
    requires IsUnlikeMark(secret) && !Contains(s, secret)
    requires forall c | c in front :: c in MARK
    ensures !Contains(front + s, secret)
    decreases |front|
  {
    if front == "" {
      assert front + s == s;
    } else {
      assert (front + s)[1..] == front[1..] + s;
      NothingBeforeMark(front[1..], s, secret);
      assert front[0] in MARK && secret[0] in secret;
      OtherStart(secret, front + s);
    }
  }

  /** A start of the result that has no character of the mark is a start of the text. */
  lemma {:induction false} UnmarkedStartIsOriginal(s: string, secret: string, n: nat)
    requires secret != "" && n <= |ReplaceText(s, secret, MARK)|
    requires forall i | 0 <= i < n :: ReplaceText(s, secret, MARK)[i] !in MARK
    ensures n <= |s| && ReplaceText(s, secret, MARK)[..n] == s[..n]
    decreases |s|
  {
    var r := ReplaceText(s, secret, MARK);
    if |s| >= |secret| && s[..|secret|] == secret {
      assert r[0] == MARK[0] && r[0] in MARK;
      assert n == 0;
    } else if n > 0 && |s| >= |secret| {
      assert r[1..] == ReplaceText(s[1..], secret, MARK);
      assert forall i | 0 <= i < n - 1 :: r[1..][i] == r[i + 1];
      UnmarkedStartIsOriginal(s[1..], secret, n - 1);
      assert r[..n] == [s[0]] + r[1..][..n - 1] && s[..n] == [s[0]] + s[1..][..n - 1];
    }
  }

  lemma {:induction false} SuffixHasNoMore(s: string, part: string, n: nat)
    requires n <= |s| && !Contains(s, part)
    ensures !Contains(s[n..], part)
    decreases |s|
  {
    if n == 0 {
      assert s[0..] == s;
    } else {
      SuffixHasNoMore(s[1..], part, n - 1);
      assert s[1..][n - 1..] == s[n..];
    }
  }

  /** The secret that is replaced does not occur in the result, nor does another that did not occur before. */
  lemma {:induction false} ReplacedIsGone(s: string, other: string, secret: string)
    requires other != "" && IsUnlikeMark(secret) && (other == secret || !Contains(s, secret))
    ensures !Contains(ReplaceText(s, other, MARK), secret)
    decreases |s|
  {
    var r := ReplaceText(s, other, MARK);
    if |s| < |other| {
      if other == secret { LongerIsNotContained(s, secret); }
    } else if s[..|other|] == other {
      var rest := s[|other|..];
      if other != secret { SuffixHasNoMore(s, secret, |other|); }
      ReplacedIsGone(rest, other, secret);
      NothingBeforeMark(MARK, ReplaceText(rest, other, MARK), secret);
    } else {
      ReplacedIsGone(s[1..], other, secret);
      assert r[1..] == ReplaceText(s[1..], other, MARK);
      assert !(secret <= r) by { NotAtTheStart(s, other, secret); }
    }
  }

  lemma NotAtTheStart(s: string, other: string, secret: string)
    requires other != "" && IsUnlikeMark(secret) && (other == secret || !Contains(s, secret))
    requires |s| >= |other| && s[..|other|] != other
    ensures !(secret <= ReplaceText(s, other, MARK))
  {
    hide ReplaceText;
    if secret <= ReplaceText(s, other, MARK) {
      StartIsOriginal(s, other, secret);
    }
  }

  lemma StartIsOriginal(s: string, other: string, secret: string)
    requires other != "" && IsUnlikeMark(secret) && secret <= ReplaceText(s, other, MARK)
    ensures secret <= s && Contains(s, secret)
  {
    hide ReplaceText;
    var r := ReplaceText(s, other, MARK);
    forall i | 0 <= i < |secret| ensures r[i] !in MARK {
      assert r[i] == secret[i] && secret[i] in secret;
    }
    UnmarkedStartIsOriginal(s, other, |secret|);
    assert s[..|secret|] == secret;
  }

  /** Of the known secrets none that shares no character with the mark is left anywhere in a scrubbed text. */
  lemma {:induction false} KnownSecretsAreGone(s: string, secrets: seq<string>, i: nat)
    requires i < |secrets| && IsUnlikeMark(secrets[i])
    ensures !Contains(Scrub(s, secrets), secrets[i])
    decreases |secrets|
  {
    hide ReplaceText, Contains;
    var front, last := secrets[..|secrets| - 1], secrets[|secrets| - 1];
    if i < |front| {
      KnownSecretsAreGone(s, front, i);
    }
    if last != "" {
      ReplacedIsGone(Scrub(s, front), last, secrets[i]);
    }
  }

  /** One that does share its characters can be left, put there by the mark itself. */
  lemma MarkCanHoldASecret()
    ensures Contains(Scrub("E", ["E"]), "E")
  {
    hide Contains;
    assert ["E"][..0] == [] && "E"[..1] == "E" && "E"[1..] == "";
    assert ReplaceText("E", "E", MARK) == MARK + "";
    assert Scrub("E", ["E"]) == MARK;
    assert "E" <= MARK[2..];
    ContainsMeans(MARK, "E");
  }

  /** Whatever secrets are known, a text without any of them is left as it is. */
  lemma {:induction false} OtherTextIsKept(s: string, secrets: seq<string>)
    requires forall i | 0 <= i < |secrets| && secrets[i] != "" :: !Contains(s, secrets[i])
    ensures Scrub(s, secrets) == s
    decreases |secrets|
  {
    hide ReplaceText, Contains;
    if secrets != [] {
      var front, last := secrets[..|secrets| - 1], secrets[|secrets| - 1];
      assert forall i | 0 <= i < |front| :: front[i] == secrets[i];
      OtherTextIsKept(s, front);
      if last != "" {
        NothingToReplace(s, last);
      }
    }
  }

  lemma {:induction false} NothingToReplace(s: string, secret: string)
    requires secret != "" && !Contains(s, secret)
    ensures ReplaceText(s, secret, MARK) == s
  {
    if |s| >= |secret| {
      assert s[..|secret|] == secret ==> secret <= s;
      NothingToReplace(s[1..], secret);
    }
  }

  /** The text stands somewhere inside the value. */
  ghost predicate HoldsText(v: Value, t: string) {
    match v
    case Str(s) => s == t
    case Arr(items) => exists i | 0 <= i < |items| :: HoldsText(items[i], t)
    case Obj(fields) => exists k | k in fields :: HoldsText(fields[k], t)
    case _ => false
  }

  /** A text that writes a number down, or says that it was too long. */
  ghost predicate IsNumberText(t: string) {
    t == "[DECIMAL_DISCARDED]" || exists d :: t == CanonicalText(d)
  }

  /** However deep in a redacted payload: a text that is not a number's holds no known secret unlike the mark. */
  lemma {:induction false} NoSecretSurvives(secrets: seq<string>, v: Value, t: string, i: nat)
    requires i < |secrets| && IsUnlikeMark(secrets[i]) && HoldsText(Redacted(secrets, v), t) && !IsNumberText(t)
    ensures !Contains(t, secrets[i])
    decreases v
  {
    hide CanonicalText, Scrub, Contains, IsSensitiveKey;
    match v {
      case Str(s) => KnownSecretsAreGone(s, secrets, i);
      case Arr(items) =>
        var j :| 0 <= j < |items| && HoldsText(Redacted(secrets, items[j]), t);
        NoSecretSurvives(secrets, items[j], t, i);
      case Obj(fields) =>
        var k :| k in fields && HoldsText(Redacted(secrets, v).fields[k], t);
        if IsSensitiveKey(k) {
          KnownSecretsAreGone(MARK, secrets, i);
        } else {
          NoSecretSurvives(secrets, fields[k], t, i);
        }
      case _ =>
    }
  }

  /** No number survives: whatever the payload held, a redacted field is neither an integer nor a Decimal. */
  lemma NoNumberSurvives(secrets: seq<string>, v: Value)
    ensures !Redacted(secrets, DecimalNumbers(v)).Int? && !Redacted(secrets, DecimalNumbers(v)).Num?
    ensures NonNegativeInteger(Redacted(secrets, DecimalNumbers(v))) == Err(Invalid)
  {
  }

  /** One field of a redacted mapping. */
  lemma RedactedField(secrets: seq<string>, fields: map<string, Value>, name: string)
    ensures
      var page := Delivered(Some(secrets), fields);
      && (name in page <==> name in fields)
      && (name in fields ==>
            page[name] == if IsSensitiveKey(name) then Str(Scrub("[REDACTED]", secrets))
                          else Redacted(secrets, DecimalNumbers(fields[name])))
      && NonNegativeInteger(Field(page, name)) == Err(Invalid)
  {
    hide CanonicalText, CanonicalKey, Scrub;
    if name in fields {
      NoNumberSurvives(secrets, fields[name]);
    }
  }

  // ------------------------------------------------------------ names the gateway reads

  lemma {:induction false} MissingLetter(s: string, part: string, c: char)
    requires c in part && c !in s
    ensures !Contains(s, part)
  {
    PrefixLetters(s, part);
    if s != "" {
      MissingLetter(s[1..], part, c);
    }
  }

  lemma PrefixLetters(s: string, part: string)
    ensures part <= s ==> forall c | c in part :: c in s
  {
  }

  /** A key whose letters leave one letter of every sensitive part out is kept. */
  lemma PlainKey(key: string, missing: seq<char>)
    requires |missing| == |SENSITIVE_PARTS|
    requires forall i | 0 <= i < |missing| :: missing[i] in SENSITIVE_PARTS[i] && missing[i] !in Lower(key)
    ensures !IsSensitiveKey(key)
  {
    hide CanonicalKey, Contains, Lower;
    forall p | p in SENSITIVE_PARTS ensures !Contains(CanonicalKey(key), p) {
      var i :| 0 <= i < |SENSITIVE_PARTS| && SENSITIVE_PARTS[i] == p;
      MissingLetter(CanonicalKey(key), p, missing[i]);
    }
  }

  lemma DeviceNamesAreKept()
    ensures !IsSensitiveKey("device_id") && !IsSensitiveKey("deviceId")
  {
    hide IsSensitiveKey;
    PlainKey("device_id", ['u', 'r', 'l', 'p', 'p', 's', 't']);
    PlainKey("deviceId", ['u', 'r', 'l', 'p', 'p', 's', 't']);
  }

  lemma ListNamesAreKept()
    ensures !IsSensitiveKey("has_more") && !IsSensitiveKey("hasMore") && !IsSensitiveKey("logs")
  {
    hide IsSensitiveKey;
    PlainKey("has_more", ['u', 'c', 'l', 'p', 'p', 'c', 't']);
    PlainKey("hasMore", ['u', 'c', 'l', 'p', 'p', 'c', 't']);
    PlainKey("logs", ['a', 'c', 'c', 'p', 'p', 'e', 't']);
  }
}
