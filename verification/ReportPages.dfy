/** When a page of report-log history is accepted, said of the fields it carries. */
module ReportPages {
  import opened Common
  import opened Decimals
  import opened Energy
  import opened Json
  import opened ReportLogs

  // ------------------------------------------------------------ the fields of one page

  /** Each of the two names that is given says the text. */
  predicate SaysText(page: map<string, Value>, name: string, alias: string, s: string) {
    (name in page ==> page[name] == Str(s)) && (alias in page ==> page[alias] == Str(s))
  }

  /** Python's `==` against a boolean: that boolean, or the number one for true and zero for false. */
  predicate EqualsBool(v: Value, b: bool) {
    v == Bool(b) || v == Int(if b then 1 else 0) || (v.Num? && NumEq(v.d, FromInteger(if b then 1 else 0)))
  }

  predicate SaysMore(page: map<string, Value>, more: bool) {
    if "has_more" in page then page["has_more"] == Bool(more) && ("hasMore" in page ==> EqualsBool(page["hasMore"], more))
    else "hasMore" in page && page["hasMore"] == Bool(more)
  }

  /** Rows may be left out by a last page only. */
  predicate SaysRows(page: map<string, Value>, more: bool, rows: seq<Value>) {
    && (more ==> rows != [])
    && (if "logs" in page then page["logs"] == Arr(rows) else rows == [])
  }

  /** A total is optional, and one given before is never contradicted. */
  predicate SaysTotal(page: map<string, Value>, expected: Option<nat>, total: Option<nat>) {
    if "total" in page then
      total.Some? && IsWholeNumber(page["total"], total.value) && (expected.Some? ==> expected == total)
    else total == expected
  }

  /** The next cursor: a non-empty string under one of its names, or under both. */
  predicate SaysCursor(page: map<string, Value>, cursor: string) {
    cursor != "" && ("last_row_key" in page || "lastRowKey" in page) && SaysText(page, "last_row_key", "lastRowKey", cursor)
  }

  lemma TextEquality(v: Value, s: string)
    ensures PythonEqual(v, Str(s)) <==> v == Str(s)
    ensures PythonEqual(Str(s), v) <==> v == Str(s)
  {
  }

  lemma BoolEquality(v: Value, b: bool)
    ensures PythonEqual(v, Bool(b)) <==> EqualsBool(v, b)
  {
    hide NumEq, Digits;
    match v {
      case Bool(c) => WholeEquality(if c then 1 else 0, if b then 1 else 0);
      case Int(i) => WholeEquality(i, if b then 1 else 0);
      case _ =>
    }
  }

  lemma WholeEquality(i: int, j: int)
    ensures NumEq(FromInteger(i), FromInteger(j)) <==> i == j
  {
    assert At(FromInteger(i), 0) == i && At(FromInteger(j), 0) == j;
  }

  lemma SelfEquality(v: Value)
    ensures PythonEqual(v, v)
  {
  }

  lemma TextField(page: map<string, Value>, name: string, alias: string, s: string)
    requires name != alias
    ensures AliasedField(page, name, alias) == Ok(Some(Str(s))) <==>
      (name in page || alias in page) && SaysText(page, name, alias, s)
    ensures AliasedField(page, name, alias) == Ok(None) <==> name !in page && alias !in page
  {
    hide PythonEqual;
    if name in page && alias in page && page[name].Str? {
      TextEquality(page[alias], page[name].s);
    }
  }

  lemma MoreField(page: map<string, Value>, b: bool)
    ensures AliasedField(page, "has_more", "hasMore") == Ok(Some(Bool(b))) <==> SaysMore(page, b)
  {
    hide PythonEqual, EqualsBool;
    if "has_more" in page && "hasMore" in page && page["has_more"].Bool? {
      BoolEquality(page["hasMore"], page["has_more"].b);
    }
  }

  lemma PlainField(page: map<string, Value>, name: string)
    ensures AliasedField(page, name, name) == Ok(if name in page then Some(page[name]) else None)
  {
    hide PythonEqual;
    if name in page {
      SelfEquality(page[name]);
    }
  }

  /** A page is read as a view exactly when its fields say what the view holds. */
  lemma PageIsReadExactly(q: Query, page: map<string, Value>, expected: Option<nat>, view: PageView)
    ensures ReadPage(q, page, expected) == Ok(view) <==>
      && SaysText(page, "device_id", "deviceId", q.deviceId)
      && SaysMore(page, view.hasMore)
      && SaysRows(page, view.hasMore, view.rows)
      && SaysTotal(page, expected, view.total)
  {
    hide AliasedField, NonNegativeInteger, IsWholeNumber, SaysMore;
    TextField(page, "device_id", "deviceId", q.deviceId);
    forall b ensures AliasedField(page, "has_more", "hasMore") == Ok(Some(Bool(b))) <==> SaysMore(page, b) {
      MoreField(page, b);
    }
    PlainField(page, "logs");
    PlainField(page, "total");
    if "total" in page {
      forall n: nat ensures NonNegativeInteger(page["total"]) == Ok(n) <==> IsWholeNumber(page["total"], n) {
        IntegersAreExact(page["total"], n);
      }
    }
    if ReadPage(q, page, expected) == Ok(view) {
      assert SaysMore(page, view.hasMore);
      var device := AliasedField(page, "device_id", "deviceId");
      assert device.Ok?;
      assert device.value.None? || device.value.value == Str(q.deviceId);
      assert device == Ok(None) || device == Ok(Some(Str(q.deviceId)));
    }
  }

  /** The next cursor is the page's own, and not one met before. */
  lemma CursorIsReadExactly(page: map<string, Value>, used: seq<string>, cursor: string)
    ensures NextCursor(page, used) == Ok(cursor) <==> SaysCursor(page, cursor) && cursor !in used
  {
    hide AliasedField;
    TextField(page, "last_row_key", "lastRowKey", cursor);
  }

  // ------------------------------------------------------------ the rows of all pages

  ghost predicate IsSomeEvent(q: Query, row: Value) {
    exists e :: IsEventOf(q, row, e)
  }

  ghost predicate AreEvents(q: Query, rows: seq<Value>) {
    forall i | 0 <= i < |rows| :: IsSomeEvent(q, rows[i])
  }

  /** Rows of one moment carry one number. */
  ghost predicate AgreeOnMoments(q: Query, rows: seq<Value>) {
    forall i, j, a, b | 0 <= i < |rows| && 0 <= j < |rows| && IsEventOf(q, rows[i], a) && IsEventOf(q, rows[j], b) ::
      a.timeMs == b.timeMs ==> NumEq(a.value, b.value)
  }

  lemma ParsedExactly(q: Query, row: Value)
    ensures ParseEvent(q, row).Ok? <==> IsSomeEvent(q, row)
    ensures forall e :: ParseEvent(q, row) == Ok(e) <==> IsEventOf(q, row, e)
    ensures ParseEvent(q, row).Err? ==> ParseEvent(q, row) == Err(Invalid)
  {
    hide ParseEvent, IsEventOf;
    forall e ensures ParseEvent(q, row) == Ok(e) <==> IsEventOf(q, row, e) {
      EventIsAcceptedExactly(q, row, e);
    }
    if ParseEvent(q, row).Ok? {
      assert IsEventOf(q, row, ParseEvent(q, row).value);
    } else {
      ParseRefusal(q, row);
    }
  }

  lemma ParseRefusal(q: Query, row: Value)
    ensures ParseEvent(q, row).Err? ==> ParseEvent(q, row) == Err(Invalid)
  {
    hide IntegralValue, ReportNumber, DiagnosticFits;
  }

  lemma AgreementOfFewer(q: Query, rows: seq<Value>, row: Value)
    requires AgreeOnMoments(q, rows + [row])
    ensures AgreeOnMoments(q, rows)
  {
    hide IsEventOf, NumEq;
    var all := rows + [row];
    assert forall i | 0 <= i < |rows| :: all[i] == rows[i];
  }

  /** The values that a represented history keeps agree with a further row that agrees with every row. */
  lemma KeptValueAgrees(q: Query, events: seq<Event>, rows: seq<Value>, row: Value, i: nat, e: Event)
    requires Represents(q, events, rows) && AgreeOnMoments(q, rows + [row])
    requires i < |events| && IsEventOf(q, row, e) && events[i].timeMs == e.timeMs
    ensures NumEq(events[i].value, e.value)
  {
    hide ParseEvent, IsEventOf, NumEq, HoldsRow;
    assert ComesFrom(q, rows, events[i]);
    var j :| 0 <= j < |rows| && ParseEvent(q, rows[j]) == Ok(events[i]);
    EventIsAcceptedExactly(q, rows[j], events[i]);
    var all := rows + [row];
    assert all[j] == rows[j] && all[|rows|] == row;
  }

  lemma NextRowIsAcceptedExactly(q: Query, events: seq<Event>, rows: seq<Value>, row: Value)
    requires Represents(q, events, rows) && AgreeOnMoments(q, rows)
    ensures AbsorbRow(q, events, row).Ok? <==> IsSomeEvent(q, row) && AgreeOnMoments(q, rows + [row])
    ensures AbsorbRow(q, events, row).Err? ==> AbsorbRow(q, events, row) == Err(Invalid)
  {
    hide ParseEvent, IsEventOf, NumEq, Represents, AgreeOnMoments, IsSomeEvent;
    ParsedExactly(q, row);
    if IsSomeEvent(q, row) && AgreeOnMoments(q, rows + [row]) {
      var e := ParseEvent(q, row).value;
      var kept := EventAt(events, e.timeMs);
      if kept.Some? {
        KeptValueAgrees(q, events, rows, row, kept.value, e);
      }
    }
    if AbsorbRow(q, events, row).Ok? {
      AbsorbedRowIsRepresented(q, events, rows, row);
      RepresentedRowsAgree(q, AbsorbRow(q, events, row).value, rows + [row]);
    }
  }

  lemma RepresentedRowsAgree(q: Query, events: seq<Event>, rows: seq<Value>)
    requires Represents(q, events, rows)
    ensures AgreeOnMoments(q, rows) && AreEvents(q, rows)
  {
    hide ParseEvent, IsEventOf, NumEq, HoldsRow, ComesFrom, DistinctTimes;
    RowsAgree(q, events, rows);
    forall i | 0 <= i < |rows|
      ensures IsSomeEvent(q, rows[i]) && forall e :: ParseEvent(q, rows[i]) == Ok(e) <==> IsEventOf(q, rows[i], e)
    {
      ParsedExactly(q, rows[i]);
    }
  }

  /** More rows are accepted exactly when each is an event and all rows so far agree on every moment. */
  lemma {:induction false} RowsAreAcceptedExactly(q: Query, events: seq<Event>, rows: seq<Value>, more: seq<Value>)
    requires Represents(q, events, rows)
    ensures AbsorbRows(q, events, more).Ok? <==> AreEvents(q, more) && AgreeOnMoments(q, rows + more)
    ensures AbsorbRows(q, events, more).Err? ==> AbsorbRows(q, events, more) == Err(Invalid)
    decreases |more|
  {
    hide Represents, AbsorbRow, IsSomeEvent, AgreeOnMoments;
    RepresentedRowsAgree(q, events, rows);
    if more == [] {
      assert rows + more == rows;
    } else {
      var front, last := more[..|more| - 1], more[|more| - 1];
      assert rows + more == (rows + front) + [last];
      RowsAreAcceptedExactly(q, events, rows, front);
      if AgreeOnMoments(q, rows + more) {
        AgreementOfFewer(q, rows + front, last);
      }
      if AbsorbRows(q, events, front).Ok? {
        AbsorbedRowsAreRepresented(q, events, rows, front);
        NextRowIsAcceptedExactly(q, AbsorbRows(q, events, front).value, rows + front, last);
      }
    }
  }

  // ------------------------------------------------------------ the next page

  /**
   * A page that reads is refused as too much exactly for passing 4,950 kept and arriving rows together; within
   * that it is accepted exactly when its rows are events, they agree with all rows before, and it ends the
   * history or names a cursor that was not met before.
   */
  lemma NextPageIsAcceptedExactly(q: Query, pages: seq<map<string, Value>>, page: map<string, Value>, view: PageView)
    requires Collect(q, pages).Ok?
    requires ReadPage(q, page, Collect(q, pages).value.total) == Ok(view)
    ensures
      var p := Collect(q, pages).value;
      var next := AbsorbPage(q, p, page);
      && (next == Err(Limit) <==> |p.events| + |view.rows| > 4_950)
      && (next.Ok? <==>
            && |p.events| + |view.rows| <= 4_950
            && AreEvents(q, view.rows) && AgreeOnMoments(q, AllRows(q, pages) + view.rows)
            && (view.hasMore ==> exists c :: SaysCursor(page, c) && c !in p.cursors))
      && (next.Ok? ==>
            && next.value.total == view.total && next.value.finished == !view.hasMore
            && (if view.hasMore then
                  exists c :: SaysCursor(page, c) && c !in p.cursors && next.value.cursors == p.cursors + [c]
                else next.value.cursors == p.cursors))
  {
    hide Collect, ReadPage, AbsorbRows, NextCursor, SaysCursor, Represents, AreEvents, AgreeOnMoments;
    CollectedIsExact(q, pages);
    var p := Collect(q, pages).value;
    RowsAreAcceptedExactly(q, p.events, AllRows(q, pages), view.rows);
    CursorIsRefusedInvalid(page, p.cursors);
    forall c ensures NextCursor(page, p.cursors) == Ok(c) <==> SaysCursor(page, c) && c !in p.cursors {
      CursorIsReadExactly(page, p.cursors, c);
    }
    if NextCursor(page, p.cursors).Ok? {
      assert SaysCursor(page, NextCursor(page, p.cursors).value);
    }
  }

  lemma CursorIsRefusedInvalid(page: map<string, Value>, used: seq<string>)
    ensures NextCursor(page, used).Err? ==> NextCursor(page, used) == Err(Invalid)
  {
    hide PythonEqual;
  }

  /** A page that does not read is refused as invalid. */
  lemma UnreadPageIsInvalid(q: Query, p: Progress, page: map<string, Value>)
    requires ReadPage(q, page, p.total).Err?
    ensures AbsorbPage(q, p, page) == Err(Invalid)
  {
    hide PythonEqual, IntegralValue;
  }

  /** Whatever totals the accepted pages announce, they announce one. */
  lemma {:induction false} TotalsAgree(q: Query, pages: seq<map<string, Value>>, i: nat)
    requires Collect(q, pages).Ok? && i < |pages| && "total" in pages[i]
    ensures Collect(q, pages).value.total.Some?
    ensures IsWholeNumber(pages[i]["total"], Collect(q, pages).value.total.value)
    decreases |pages|
  {
    hide ReadPage, AbsorbRows, NextCursor, IsWholeNumber, SaysText, SaysMore, SaysRows;
    var front, page := pages[..|pages| - 1], pages[|pages| - 1];
    var before := Collect(q, front).value;
    PageIsReadExactly(q, page, before.total, ReadPage(q, page, before.total).value);
    if i < |front| {
      assert front[i] == pages[i];
      TotalsAgree(q, front, i);
    }
  }
}
