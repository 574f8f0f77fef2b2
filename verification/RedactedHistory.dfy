/**
 * What the gateway makes of pages that the application's own client redacted: redaction writes
 * every number down as text, and the gateway refuses text where it expects an integer
 * (src/tatatuya/infrastructure/tuya/client.py, src/tatatuya/infrastructure/tuya/report_logs.py).
 */
module RedactedHistory {
  import opened Common
  import opened Decimals
  import opened Energy
  import opened Json
  import opened Redaction
  import opened ReportLogs

  /** No redacted row is an event: its time is text, or missing. */
  lemma RowNeverParses(q: Query, secrets: seq<string>, row: Value)
    ensures ParseEvent(q, Redacted(secrets, DecimalNumbers(row))).Err?
  {
    hide NonNegativeInteger, ParseReportDecimal, DiagnosticFits;
    if row.Obj? {
      RedactedField(secrets, row.fields, "event_time");
    }
  }

  lemma {:induction false} RowsNeverParse(q: Query, secrets: seq<string>, rows: seq<Value>)
    ensures AbsorbRows(q, [], seq(|rows|, i requires 0 <= i < |rows| => Redacted(secrets, DecimalNumbers(rows[i])))).Ok?
      <==> rows == []
    decreases |rows|
  {
    var redacted := seq(|rows|, i requires 0 <= i < |rows| => Redacted(secrets, DecimalNumbers(rows[i])));
    if rows != [] {
      hide ParseEvent, Redacted, DecimalNumbers;
      RowNeverParses(q, secrets, rows[|rows| - 1]);
    }
  }

  /** The field is absent or holds this value. */
  predicate Holds(fields: map<string, Value>, name: string, expected: Value) {
    name in fields ==> fields[name] == expected
  }

  /** The field is absent or is redacted to this text. */
  predicate Redacts(secrets: seq<string>, fields: map<string, Value>, name: string, expected: string) {
    name in fields ==> Redacted(secrets, DecimalNumbers(fields[name])) == Str(expected)
  }

  /** A payload that ends the history at once: no further page, no rows, no total, and no other device. */
  predicate IsEmptyEnd(q: Query, secrets: seq<string>, payload: map<string, Value>) {
    && Redacts(secrets, payload, "device_id", q.deviceId) && Redacts(secrets, payload, "deviceId", q.deviceId)
    && ("has_more" in payload || "hasMore" in payload)
    && Holds(payload, "has_more", Bool(false)) && Holds(payload, "hasMore", Bool(false))
    && Holds(payload, "logs", Arr([]))
    && "total" !in payload
  }

  // ------------------------------------------------------------ one page, field by field

  /** What arrives under a kept name is that value redacted; truth values arrive as they were. */
  lemma KeptField(secrets: seq<string>, payload: map<string, Value>, name: string)
    requires !IsSensitiveKey(name) && name in payload
    ensures
      var page := Delivered(Some(secrets), payload);
      && name in page && page[name] == Redacted(secrets, DecimalNumbers(payload[name]))
      && NumericValue(page[name]) == (if payload[name].Bool? then NumericValue(payload[name]) else None)
      && forall b :: page[name] == Bool(b) <==> payload[name] == Bool(b)
  {
    hide CanonicalText, IsSensitiveKey, Scrub;
    RedactedField(secrets, payload, name);
  }

  /** Without other numbers, Python's equality is equality. */
  lemma OnlyBooleansCount(a: Value, b: Value)
    requires (NumericValue(a).Some? ==> a.Bool?) && (NumericValue(b).Some? ==> b.Bool?)
    ensures PythonEqual(a, b) <==> a == b
  {
    if a.Bool? && b.Bool? {
      hide Digits, ToNat;
      assert FromInteger(0).exponent == FromInteger(1).exponent == 0;
      assert Coefficient(FromInteger(0)) == 0 && Coefficient(FromInteger(1)) == 1;
      assert Pow10(0) == 1;
    }
  }

  /** A field under either of two names is accepted as `expected` exactly when every name present holds it. */
  lemma AliasesAgree(page: map<string, Value>, name: string, alias: string, expected: Value)
    requires name in page ==> NumericValue(page[name]).Some? ==> page[name].Bool?
    requires alias in page ==> NumericValue(page[alias]).Some? ==> page[alias].Bool?
    ensures AliasedField(page, name, alias) == Ok(Some(expected)) <==>
      (name in page || alias in page) && Holds(page, name, expected) && Holds(page, alias, expected)
    ensures AliasedField(page, name, alias) == Ok(None) <==> name !in page && alias !in page
  {
    hide NumericValue, PythonEqual;
    if name in page && alias in page {
      OnlyBooleansCount(page[alias], page[name]);
    }
  }

  /** A field with a single name cannot contradict itself. */
  lemma OneNameAlone(page: map<string, Value>, name: string)
    ensures AliasedField(page, name, name) == Ok(if name in page then Some(page[name]) else None)
  {
    if name in page && NumericValue(page[name]).Some? {
      SelfEqual(NumericValue(page[name]).value);
    }
  }

  // ------------------------------------------------------------ the whole page

  lemma DeviceIsAccepted(q: Query, secrets: seq<string>, payload: map<string, Value>)
    ensures
      var device := AliasedField(Delivered(Some(secrets), payload), "device_id", "deviceId");
      (device.Ok? && (device.value.Some? ==> device.value.value == Str(q.deviceId))) <==>
      Redacts(secrets, payload, "device_id", q.deviceId) && Redacts(secrets, payload, "deviceId", q.deviceId)
  {
    hide Redacted, DecimalNumbers, AliasedField, IsSensitiveKey, NumericValue, Delivered;
    DeviceNamesAreKept();
    var page := Delivered(Some(secrets), payload);
    KeptOrAbsent(secrets, payload, "device_id", true);
    KeptOrAbsent(secrets, payload, "deviceId", true);
    AliasesAgree(page, "device_id", "deviceId", Str(q.deviceId));
    var device := AliasedField(page, "device_id", "deviceId");
    assert device == Ok(None) || device == Ok(Some(Str(q.deviceId))) <==>
      device.Ok? && (device.value.Some? ==> device.value.value == Str(q.deviceId));
  }

  /** What a kept name shows of a page: nothing, or its value redacted. */
  lemma KeptOrAbsent(secrets: seq<string>, payload: map<string, Value>, name: string, b: bool)
    requires !IsSensitiveKey(name)
    ensures
      var page := Delivered(Some(secrets), payload);
      && (name in page <==> name in payload)
      && (name in page ==>
            && page[name] == Redacted(secrets, DecimalNumbers(payload[name]))
            && (page[name] == Bool(b) <==> payload[name] == Bool(b))
            && (NumericValue(page[name]).Some? ==> page[name].Bool?))
  {
    hide Redacted, DecimalNumbers, IsSensitiveKey, Delivered;
    RedactedField(secrets, payload, name);
    if name in payload {
      KeptField(secrets, payload, name);
    }
  }

  lemma MoreIsRead(secrets: seq<string>, payload: map<string, Value>, b: bool)
    ensures
      AliasedField(Delivered(Some(secrets), payload), "has_more", "hasMore") == Ok(Some(Bool(b))) <==>
      ("has_more" in payload || "hasMore" in payload)
      && Holds(payload, "has_more", Bool(b)) && Holds(payload, "hasMore", Bool(b))
  {
    hide Redacted, DecimalNumbers, AliasedField, IsSensitiveKey, NumericValue, Delivered;
    ListNamesAreKept();
    KeptOrAbsent(secrets, payload, "has_more", b);
    KeptOrAbsent(secrets, payload, "hasMore", b);
    AliasesAgree(Delivered(Some(secrets), payload), "has_more", "hasMore", Bool(b));
  }

  /** A list of rows stays a list of the redacted rows; nothing else becomes one. */
  lemma LogsAreKept(secrets: seq<string>, payload: map<string, Value>)
    ensures
      var page := Delivered(Some(secrets), payload);
      && ("logs" in page <==> "logs" in payload)
      && ("logs" in page ==>
            && page["logs"].Arr? == payload["logs"].Arr?
            && (payload["logs"].Arr? ==>
                  var rows := payload["logs"].items;
                  page["logs"].items
                  == seq(|rows|, i requires 0 <= i < |rows| => Redacted(secrets, DecimalNumbers(rows[i])))))
  {
    hide IsSensitiveKey, CanonicalText, Scrub;
    ListNamesAreKept();
    RedactedField(secrets, payload, "logs");
  }

  lemma TotalIsRefused(secrets: seq<string>, payload: map<string, Value>)
    ensures
      var page := Delivered(Some(secrets), payload);
      && ("total" in page <==> "total" in payload)
      && ("total" in page ==> NonNegativeInteger(page["total"]).Err?)
  {
    RedactedField(secrets, payload, "total");
  }

  /**
   * A page from the redacting client is accepted exactly when it ends the history with no rows and no
   * total: a history with a single event is refused.
   */
  lemma PageIsAcceptedExactly(q: Query, secrets: seq<string>, payload: map<string, Value>)
    ensures
      var page := Delivered(Some(secrets), payload);
      && (AbsorbPage(q, START, page).Ok? <==> IsEmptyEnd(q, secrets, payload))
      && (AbsorbPage(q, START, page).Ok? ==> AbsorbPage(q, START, page).value == Progress([], None, [], true))
  {
    hide Delivered, Redacted, DecimalNumbers, AliasedField, NonNegativeInteger, ParseEvent, AbsorbRows;
    var page := Delivered(Some(secrets), payload);
    DeviceIsAccepted(q, secrets, payload);
    MoreIsRead(secrets, payload, true);
    MoreIsRead(secrets, payload, false);
    LogsAreKept(secrets, payload);
    TotalIsRefused(secrets, payload);
    OneNameAlone(page, "logs");
    OneNameAlone(page, "total");
    if "logs" in payload && payload["logs"].Arr? {
      RowsNeverParse(q, secrets, payload["logs"].items);
    }
    NoRows(q);
  }

  lemma NoRows(q: Query)
    ensures AbsorbRows(q, [], []) == Ok([])
  {
  }

  /** A fetch through the redacting client ends with its first page, and succeeds only on an empty history. */
  lemma RedactedHistoryIsEmpty(q: Query, secrets: seq<string>, payloads: seq<map<string, Value>>, pages: seq<map<string, Value>>)
    requires AreDelivered(Some(secrets), payloads, pages) && OpenBefore(q, pages) && pages != []
    ensures |pages| == |payloads| == 1
    ensures Collect(q, pages).Ok? <==> IsEmptyEnd(q, secrets, payloads[0])
    ensures Collect(q, pages).Ok? ==> Collect(q, pages).value.finished && Collect(q, pages).value.events == []
  {
    hide Delivered, AbsorbPage, IsEmptyEnd;
    PageIsAcceptedExactly(q, secrets, payloads[0]);
    assert [pages[0]][..0] == [];
    assert Collect(q, [pages[0]]) == AbsorbPage(q, START, pages[0]);
    assert pages[..1] == [pages[0]];
    assert pages == [pages[0]];
  }
}
