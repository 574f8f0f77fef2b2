/**
 * The bounded, paced and exact fetch of report-log history
 * (src/tatatuya/infrastructure/tuya/report_logs.py).
 *
 * `Collect` is the specification: what the pages delivered so far come to. The gateway's
 * loops are proved to return exactly its verdict, and the theorems are about it.
 */
module ReportLogs {
  import opened Cancellation
  import opened Client
  import opened Common
  import opened Decimals
  import opened Energy
  import opened Json
  import opened Redaction

  const MAX_PAGES: nat := 50
  const MAX_ROWS: nat := 4_950
  const MAX_TOTAL_RAW: nat := 10_485_760
  const MAX_TOTAL_DECODED: nat := 10_485_760
  const MIN_REQUEST_INTERVAL: real := 0.250

  datatype Query = Query(deviceId: string, code: string, startMs: int, endMs: int)

  datatype Event = Event(deviceId: string, code: string, timeMs: int, value: Decimal, row: Value)

  predicate ValidQuery(q: Query) {
    q.deviceId != "" && q.code != "" && 0 <= q.startMs <= q.endMs
  }

  // ------------------------------------------------------------ one row, one page

  function ParseEvent(q: Query, row: Value): Result<Event, Refusal> {
    if !row.Obj? || Field(row.fields, "code") != Str(q.code) then Err(Invalid)
    else
      var time :- NonNegativeInteger(Field(row.fields, "event_time"));
      if time < q.startMs || time > q.endMs then Err(Invalid)
      else
        var value :- ParseReportDecimal(Field(row.fields, "value"));
        if DiagnosticFits(row) then Ok(Event(q.deviceId, q.code, time, value, row)) else Err(Invalid)
  }

  /**
   * What an event is: a row whose `code` is the query's, with the moment and the value that its fields say, the
   * moment in the window, the value within its limits, and every number inside the row fit to be written down.
   */
  ghost predicate IsEventOf(q: Query, row: Value, e: Event) {
    && e.deviceId == q.deviceId && e.code == q.code && e.row == row && row.Obj?
    && "code" in row.fields && row.fields["code"] == Str(q.code)
    && "event_time" in row.fields && IsWholeNumber(row.fields["event_time"], e.timeMs)
    && q.startMs <= e.timeMs <= q.endMs
    && "value" in row.fields && IsReportValue(row.fields["value"], e.value)
    && !e.value.negative && |e.value.digits| <= 64 && |CanonicalText(e.value)| <= 128
    && forall d | OccursIn(d, row) :: |CanonicalText(d)| <= 128
  }

  /** A row is accepted as an event exactly when it tells that event. */
  lemma EventIsAcceptedExactly(q: Query, row: Value, e: Event)
    ensures ParseEvent(q, row) == Ok(e) <==> IsEventOf(q, row, e)
  {
    hide NonNegativeInteger, ParseReportDecimal, DiagnosticFits, OccursIn, IsWholeNumber, IsReportValue, CanonicalText;
    EveryNumberFits(row);
    if row.Obj? {
      var time, value := Field(row.fields, "event_time"), Field(row.fields, "value");
      NullSaysNothing();
      ReportValueIsAcceptedExactly(value, e.value);
      if 0 <= e.timeMs {
        IntegersAreExact(time, e.timeMs);
      }
      if NonNegativeInteger(time).Ok? {
        IntegersAreExact(time, NonNegativeInteger(time).value);
      }
      WholeNumberIsPositive(time, e.timeMs);
    }
  }

  lemma NullSaysNothing()
    ensures NonNegativeInteger(Null).Err? && ParseReportDecimal(Null).Err?
  {
  }

  lemma WholeNumberIsPositive(v: Value, n: int)
    ensures IsWholeNumber(v, n) ==> n >= 0
  {
  }

  datatype PageView = PageView(rows: seq<Value>, hasMore: bool, total: Option<nat>)

  /** The checks of one page before its rows are looked at. */
  function ReadPage(q: Query, page: map<string, Value>, expectedTotal: Option<nat>): Result<PageView, Refusal> {
    var device :- AliasedField(page, "device_id", "deviceId");
    if device.Some? && device.value != Str(q.deviceId) then Err(Invalid)
    else
      var more :- AliasedField(page, "has_more", "hasMore");
      if more.None? || !more.value.Bool? then Err(Invalid)
      else
        var logs :- AliasedField(page, "logs", "logs");
        if logs.None? && more.value.b then Err(Invalid)
        else if logs.Some? && !logs.value.Arr? then Err(Invalid)
        else
          var rows := if logs.None? then [] else logs.value.items;
          if more.value.b && rows == [] then Err(Invalid)
          else
            var total :- AliasedField(page, "total", "total");
            if total.None? then Ok(PageView(rows, more.value.b, expectedTotal))
            else
              var n :- NonNegativeInteger(total.value);
              if expectedTotal.Some? && expectedTotal.value != n then Err(Invalid)
              else Ok(PageView(rows, more.value.b, Some(n)))
  }

  /** The cursor of the next page: a non-empty string not met before. */
  function NextCursor(page: map<string, Value>, used: seq<string>): Result<string, Refusal> {
    var cursor :- AliasedField(page, "last_row_key", "lastRowKey");
    if cursor.None? || !cursor.value.Str? || cursor.value.s == "" || cursor.value.s in used then Err(Invalid)
    else Ok(cursor.value.s)
  }

  // ------------------------------------------------------------ the specification

  /** The position of the event already kept for a moment, if any. */
  function EventAt(events: seq<Event>, timeMs: int): (r: Option<nat>)
    ensures r.Some? ==> r.value < |events| && events[r.value].timeMs == timeMs
    ensures r.None? ==> forall i | 0 <= i < |events| :: events[i].timeMs != timeMs
  {
    if events == [] then None
    else if events[|events| - 1].timeMs == timeMs then Some(|events| - 1)
    else EventAt(events[..|events| - 1], timeMs)
  }

  function AbsorbRow(q: Query, events: seq<Event>, row: Value): Result<seq<Event>, Refusal> {
    var event :- ParseEvent(q, row);
    match EventAt(events, event.timeMs)
    case None => Ok(events + [event])
    case Some(i) => if NumEq(events[i].value, event.value) then Ok(events) else Err(Invalid)
  }

  function AbsorbRows(q: Query, events: seq<Event>, rows: seq<Value>): Result<seq<Event>, Refusal> {
    if rows == [] then Ok(events)
    else
      var before :- AbsorbRows(q, events, rows[..|rows| - 1]);
      AbsorbRow(q, before, rows[|rows| - 1])
  }

  /** `cursors` are those handed out so far; `finished` once a page said there is no more. */
  datatype Progress = Progress(events: seq<Event>, total: Option<nat>, cursors: seq<string>, finished: bool)

  const START := Progress([], None, [], false)

  function AbsorbPage(q: Query, p: Progress, page: map<string, Value>): Result<Progress, Refusal> {
    var view :- ReadPage(q, page, p.total);
    if |p.events| + |view.rows| > MAX_ROWS then Err(Limit)
    else
      var events :- AbsorbRows(q, p.events, view.rows);
      if !view.hasMore then Ok(Progress(events, view.total, p.cursors, true))
      else
        var cursor :- NextCursor(page, p.cursors);
        Ok(Progress(events, view.total, p.cursors + [cursor], false))
  }

  function Collect(q: Query, pages: seq<map<string, Value>>): Result<Progress, Refusal> {
    if pages == [] then Ok(START)
    else
      var before :- Collect(q, pages[..|pages| - 1]);
      AbsorbPage(q, before, pages[|pages| - 1])
  }

  // ------------------------------------------------------------ sorting by time

  function InsertByTime(e: Event, sorted: seq<Event>): (r: seq<Event>)
    ensures multiset(r) == multiset(sorted) + multiset{e}
  {
    if sorted == [] || e.timeMs < sorted[0].timeMs then [e] + sorted
    else
      assert sorted == [sorted[0]] + sorted[1..];
      [sorted[0]] + InsertByTime(e, sorted[1..])
  }

  function SortByTime(events: seq<Event>): (r: seq<Event>)
    ensures multiset(r) == multiset(events)
  {
    if events == [] then []
    else
      assert events == events[..|events| - 1] + [events[|events| - 1]];
      InsertByTime(events[|events| - 1], SortByTime(events[..|events| - 1]))
  }

  predicate StrictlyIncreasing(events: seq<Event>) {
    forall i, j | 0 <= i < j < |events| :: events[i].timeMs < events[j].timeMs
  }

  predicate DistinctTimes(events: seq<Event>) {
    forall i, j | 0 <= i < j < |events| :: events[i].timeMs != events[j].timeMs
  }

  predicate InTimeOrder(events: seq<Event>) {
    forall i, j | 0 <= i < j < |events| :: events[i].timeMs <= events[j].timeMs
  }

  lemma PrependKeepsOrder(head: Event, tail: seq<Event>)
    requires InTimeOrder(tail) && forall i | 0 <= i < |tail| :: head.timeMs <= tail[i].timeMs
    ensures InTimeOrder([head] + tail)
  {
  }

  lemma {:induction false} InsertKeepsOrder(e: Event, sorted: seq<Event>)
    requires InTimeOrder(sorted)
    ensures InTimeOrder(InsertByTime(e, sorted))
  {
    if sorted == [] || e.timeMs < sorted[0].timeMs {
      PrependKeepsOrder(e, sorted);
    } else {
      hide InTimeOrder;
      assert InTimeOrder(sorted[1..]) by { TailKeepsOrder(sorted); }
      var rest := InsertByTime(e, sorted[1..]);
      InsertKeepsOrder(e, sorted[1..]);
      forall i | 0 <= i < |rest| ensures sorted[0].timeMs <= rest[i].timeMs {
        assert rest[i] in multiset(rest);
        assert rest[i] == e || rest[i] in sorted[1..];
        TailKeepsOrder(sorted);
      }
      PrependKeepsOrder(sorted[0], rest);
    }
  }

  lemma TailKeepsOrder(sorted: seq<Event>)
    requires InTimeOrder(sorted) && sorted != []
    ensures InTimeOrder(sorted[1..]) && forall e | e in sorted[1..] :: sorted[0].timeMs <= e.timeMs
  {
  }

  lemma {:induction false} SortingOrders(events: seq<Event>)
    ensures InTimeOrder(SortByTime(events))
  {
    if events != [] {
      SortingOrders(events[..|events| - 1]);
      InsertKeepsOrder(events[|events| - 1], SortByTime(events[..|events| - 1]));
    }
  }

  /** Events of distinct moments stay apart when reordered. */
  lemma {:induction false} SortingKeepsDistinct(events: seq<Event>)
    requires DistinctTimes(events)
    ensures StrictlyIncreasing(SortByTime(events))
  {
    var sorted := SortByTime(events);
    SortingOrders(events);
    forall i, j | 0 <= i < j < |sorted| ensures sorted[i].timeMs != sorted[j].timeMs {
      assert multiset(sorted) == multiset(events);
      if sorted[i] == sorted[j] {
        TwiceInMultiset(sorted, i, j);
        OnceInMultiset(events, sorted[i]);
      } else {
        assert sorted[i] in multiset(events) && sorted[j] in multiset(events);
        var x :| 0 <= x < |events| && events[x] == sorted[i];
        var y :| 0 <= y < |events| && events[y] == sorted[j];
        assert x != y;
      }
    }
  }

  /** The events of one moment, in their order. */
  function AtTime(events: seq<Event>, timeMs: int): (r: seq<Event>)
    ensures forall e | e in r :: e in events && e.timeMs == timeMs
    ensures forall e | e in events && e.timeMs == timeMs :: e in r
  {
    if events == [] then []
    else
      var front, last := AtTime(events[..|events| - 1], timeMs), events[|events| - 1];
      assert events == events[..|events| - 1] + [last];
      if last.timeMs == timeMs then front + [last] else front
  }

  lemma AtTimeOfLast(front: seq<Event>, last: Event, timeMs: int)
    ensures AtTime([], timeMs) == []
    ensures AtTime(front + [last], timeMs) == AtTime(front, timeMs) + if last.timeMs == timeMs then [last] else []
  {
    assert (front + [last])[..|front|] == front;
  }

  lemma {:induction false} AtTimeOfFirst(e: Event, rest: seq<Event>, timeMs: int)
    ensures AtTime([e] + rest, timeMs) == (if e.timeMs == timeMs then [e] else []) + AtTime(rest, timeMs)
  {
    hide AtTime;
    if rest == [] {
      AtTimeOfLast([], e, timeMs);
      assert [e] + rest == [] + [e];
    } else {
      var front, last := rest[..|rest| - 1], rest[|rest| - 1];
      AtTimeOfFirst(e, front, timeMs);
      AtTimeOfLast(front, last, timeMs);
      AtTimeOfLast([e] + front, last, timeMs);
      assert rest == front + [last] && [e] + rest == ([e] + front) + [last];
    }
  }

  lemma {:induction false} InsertKeepsMoments(e: Event, sorted: seq<Event>, timeMs: int)
    requires InTimeOrder(sorted)
    ensures AtTime(InsertByTime(e, sorted), timeMs) == AtTime(sorted, timeMs) + if e.timeMs == timeMs then [e] else []
  {
    hide AtTime;
    if sorted == [] || e.timeMs < sorted[0].timeMs {
      AtTimeOfFirst(e, sorted, timeMs);
      if e.timeMs == timeMs {
        NoneSoEarly(sorted, timeMs);
      }
    } else {
      assert sorted == [sorted[0]] + sorted[1..];
      TailKeepsOrder(sorted);
      InsertKeepsMoments(e, sorted[1..], timeMs);
      AtTimeOfFirst(sorted[0], sorted[1..], timeMs);
      AtTimeOfFirst(sorted[0], InsertByTime(e, sorted[1..]), timeMs);
    }
  }

  lemma TimesFromFirst(sorted: seq<Event>, x: Event)
    requires InTimeOrder(sorted) && x in sorted
    ensures sorted[0].timeMs <= x.timeMs
  {
  }

  lemma NoneSoEarly(sorted: seq<Event>, timeMs: int)
    requires InTimeOrder(sorted) && (sorted == [] || timeMs < sorted[0].timeMs)
    ensures AtTime(sorted, timeMs) == []
  {
    hide AtTime;
    if AtTime(sorted, timeMs) != [] {
      var x := AtTime(sorted, timeMs)[0];
      assert x in AtTime(sorted, timeMs);
      TimesFromFirst(sorted, x);
    }
  }

  /** The sort is stable: the events of one moment keep their order. */
  lemma {:induction false} SortingKeepsMoments(events: seq<Event>, timeMs: int)
    ensures AtTime(SortByTime(events), timeMs) == AtTime(events, timeMs)
  {
    if events != [] {
      var front := events[..|events| - 1];
      SortingKeepsMoments(front, timeMs);
      SortingOrders(front);
      InsertKeepsMoments(events[|events| - 1], SortByTime(front), timeMs);
    }
  }

  lemma TwiceInMultiset(s: seq<Event>, i: nat, j: nat)
    requires i < j < |s| && s[i] == s[j]
    ensures multiset(s)[s[i]] >= 2
  {
    assert s == s[..j] + s[j..];
    assert s[i] in s[..j] && s[i] in s[j..] by {
      assert s[..j][i] == s[i] && s[j..][0] == s[j];
    }
    assert s[i] in multiset(s[..j]) && s[i] in multiset(s[j..]);
  }

  lemma {:induction false} OnceInMultiset(s: seq<Event>, e: Event)
    requires DistinctTimes(s)
    ensures multiset(s)[e] <= 1
  {
    if s != [] {
      var front, last := s[..|s| - 1], s[|s| - 1];
      assert s == front + [last];
      OnceInMultiset(front, e);
      if e == last {
        assert e !in front;
        assert e !in multiset(front);
      }
    }
  }

  lemma SortingKeepsMembers(events: seq<Event>, e: Event)
    ensures e in SortByTime(events) <==> e in events
  {
    assert e in SortByTime(events) <==> e in multiset(SortByTime(events));
    assert e in events <==> e in multiset(events);
  }

  // ------------------------------------------------------------ what the result means

  /** All rows of all pages, in arrival order. */
  function AllRows(q: Query, pages: seq<map<string, Value>>): seq<Value> {
    if pages == [] then []
    else
      var page := pages[|pages| - 1];
      AllRows(q, pages[..|pages| - 1]) + (if "logs" in page && page["logs"].Arr? then page["logs"].items else [])
  }

  predicate HoldsRow(events: seq<Event>, e: Event) {
    exists i | 0 <= i < |events| :: events[i].timeMs == e.timeMs && NumEq(events[i].value, e.value)
  }

  predicate ComesFrom(q: Query, rows: seq<Value>, e: Event) {
    exists i | 0 <= i < |rows| :: ParseEvent(q, rows[i]) == Ok(e)
  }

  /** One event per moment, each one of the rows, each row represented with an equal value. */
  predicate Represents(q: Query, events: seq<Event>, rows: seq<Value>) {
    && DistinctTimes(events)
    && (forall i | 0 <= i < |rows| :: ParseEvent(q, rows[i]).Ok? && HoldsRow(events, ParseEvent(q, rows[i]).value))
    && (forall i | 0 <= i < |events| :: ComesFrom(q, rows, events[i]))
  }

  lemma AbsorbedRowIsRepresented(q: Query, events: seq<Event>, rows: seq<Value>, row: Value)
    requires Represents(q, events, rows) && AbsorbRow(q, events, row).Ok?
    ensures Represents(q, AbsorbRow(q, events, row).value, rows + [row])
  {
    hide ParseEvent, NumEq, HoldsRow, ComesFrom;
    var after := AbsorbRow(q, events, row).value;
    var all := rows + [row];
    forall i | 0 <= i < |all| ensures ParseEvent(q, all[i]).Ok? && HoldsRow(after, ParseEvent(q, all[i]).value) {
      if i < |rows| {
        assert all[i] == rows[i];
        StillHeld(events, after, ParseEvent(q, rows[i]).value);
      } else {
        NewRowIsHeld(q, events, row);
      }
    }
    forall i | 0 <= i < |after| ensures ComesFrom(q, all, after[i]) {
      if i < |events| {
        assert after[i] == events[i];
        OriginRemains(q, rows, row, events[i]);
      } else {
        NewRowIsOrigin(q, rows, row);
      }
    }
  }

  lemma StillHeld(events: seq<Event>, after: seq<Event>, e: Event)
    requires events <= after && HoldsRow(events, e)
    ensures HoldsRow(after, e)
  {
    var j :| 0 <= j < |events| && events[j].timeMs == e.timeMs && NumEq(events[j].value, e.value);
    assert after[j] == events[j];
  }

  lemma NewRowIsHeld(q: Query, events: seq<Event>, row: Value)
    requires AbsorbRow(q, events, row).Ok?
    ensures ParseEvent(q, row).Ok? && HoldsRow(AbsorbRow(q, events, row).value, ParseEvent(q, row).value)
  {
    hide ParseEvent;
    var event := ParseEvent(q, row).value;
    var after := AbsorbRow(q, events, row).value;
    var kept := EventAt(events, event.timeMs);
    SelfEqual(event.value);
    var i := if kept.Some? then kept.value else |events|;
    assert after[i].timeMs == event.timeMs && NumEq(after[i].value, event.value);
  }

  lemma OriginRemains(q: Query, rows: seq<Value>, row: Value, e: Event)
    requires ComesFrom(q, rows, e)
    ensures ComesFrom(q, rows + [row], e)
  {
    var j :| 0 <= j < |rows| && ParseEvent(q, rows[j]) == Ok(e);
    assert (rows + [row])[j] == rows[j];
  }

  lemma NewRowIsOrigin(q: Query, rows: seq<Value>, row: Value)
    requires ParseEvent(q, row).Ok?
    ensures ComesFrom(q, rows + [row], ParseEvent(q, row).value)
  {
    assert (rows + [row])[|rows|] == row;
  }

  lemma SelfEqual(d: Decimal)
    ensures NumEq(d, d)
  {
  }

  lemma {:induction false} AbsorbedRowsAreRepresented(q: Query, events: seq<Event>, rows: seq<Value>, more: seq<Value>)
    requires Represents(q, events, rows) && AbsorbRows(q, events, more).Ok?
    ensures Represents(q, AbsorbRows(q, events, more).value, rows + more)
    ensures |AbsorbRows(q, events, more).value| <= |events| + |more|
    decreases |more|
  {
    hide Represents, AbsorbRow, ParseEvent;
    if more == [] {
      assert rows + more == rows;
    } else {
      var front, last := more[..|more| - 1], more[|more| - 1];
      AbsorbedRowsAreRepresented(q, events, rows, front);
      AbsorbedRowIsRepresented(q, AbsorbRows(q, events, front).value, rows + front, last);
      AbsorbAddsAtMostOne(q, AbsorbRows(q, events, front).value, last);
      assert rows + more == rows + front + [last];
    }
  }

  lemma AbsorbAddsAtMostOne(q: Query, events: seq<Event>, row: Value)
    ensures AbsorbRow(q, events, row).Ok? ==> |AbsorbRow(q, events, row).value| <= |events| + 1
  {
  }

  /** After any accepted pages: exact representation of all their rows, the row bound, and unused cursors. */
  lemma {:induction false} CollectedIsExact(q: Query, pages: seq<map<string, Value>>)
    requires Collect(q, pages).Ok?
    ensures
      var p := Collect(q, pages).value;
      && Represents(q, p.events, AllRows(q, pages))
      && |p.events| <= 4_950
      && (forall i, j | 0 <= i < j < |p.cursors| :: p.cursors[i] != p.cursors[j])
      && |p.cursors| <= |pages|
  {
    hide Represents, AbsorbRows, ParseEvent, AliasedField, NextCursor;
    if pages == [] {
      NothingRepresentsNothing(q);
    } else {
      var front, page := pages[..|pages| - 1], pages[|pages| - 1];
      CollectedIsExact(q, front);
      var before := Collect(q, front).value;
      var view := ReadPage(q, page, before.total).value;
      PageRows(q, page, before.total);
      AbsorbedRowsAreRepresented(q, before.events, AllRows(q, front), view.rows);
      if view.hasMore {
        FreshCursor(page, before.cursors);
      }
    }
  }

  lemma NothingRepresentsNothing(q: Query)
    ensures Represents(q, [], [])
  {
  }

  lemma PageRows(q: Query, page: map<string, Value>, total: Option<nat>)
    requires ReadPage(q, page, total).Ok?
    ensures ReadPage(q, page, total).value.rows
         == if "logs" in page && page["logs"].Arr? then page["logs"].items else []
  {
    hide PythonEqual, NonNegativeInteger;
  }

  lemma FreshCursor(page: map<string, Value>, used: seq<string>)
    requires NextCursor(page, used).Ok?
    ensures NextCursor(page, used).value !in used
  {
    hide PythonEqual;
  }

  ghost predicate IsToldByARow(q: Query, e: Event, rows: seq<Value>) {
    exists j | 0 <= j < |rows| :: IsEventOf(q, rows[j], e)
  }

  /** The row is an event whose moment and number are among the result's. */
  ghost predicate IsRetold(q: Query, row: Value, result: seq<Event>) {
    exists e :: IsEventOf(q, row, e) && HoldsRow(result, e)
  }

  /** Every returned event is told by a row, field by field, and every row is an event that is returned. */
  ghost predicate TellsTheRows(q: Query, result: seq<Event>, rows: seq<Value>) {
    && (forall i | 0 <= i < |result| :: IsToldByARow(q, result[i], rows))
    && (forall j | 0 <= j < |rows| :: IsRetold(q, rows[j], result))
  }

  lemma RepresentedMeansTold(q: Query, events: seq<Event>, rows: seq<Value>)
    requires Represents(q, events, rows)
    ensures TellsTheRows(q, events, rows)
  {
    hide ParseEvent, IsEventOf, HoldsRow;
    forall i | 0 <= i < |events| ensures IsToldByARow(q, events[i], rows) {
      var j :| 0 <= j < |rows| && ParseEvent(q, rows[j]) == Ok(events[i]);
      EventIsAcceptedExactly(q, rows[j], events[i]);
    }
    forall j | 0 <= j < |rows| ensures IsRetold(q, rows[j], events) {
      EventIsAcceptedExactly(q, rows[j], ParseEvent(q, rows[j]).value);
    }
  }

  /**
   * The meaning of a returned result: strictly increasing, inside the window, exactly one event
   * per distinct moment over all rows of all pages, carrying the value every row of that moment has.
   */
  ghost predicate IsExactHistory(q: Query, result: seq<Event>, rows: seq<Value>) {
    && StrictlyIncreasing(result)
    && Represents(q, result, rows)
    && TellsTheRows(q, result, rows)
    && (forall i | 0 <= i < |result| ::
          q.startMs <= result[i].timeMs <= q.endMs && result[i].deviceId == q.deviceId && result[i].code == q.code)
    && (forall i, j | 0 <= i < |rows| && 0 <= j < |rows| ::
          ParseEvent(q, rows[i]).value.timeMs == ParseEvent(q, rows[j]).value.timeMs ==>
            NumEq(ParseEvent(q, rows[i]).value.value, ParseEvent(q, rows[j]).value.value))
  }

  lemma ReturnedHistoryIsExact(q: Query, pages: seq<map<string, Value>>)
    requires Collect(q, pages).Ok?
    ensures IsExactHistory(q, SortByTime(Collect(q, pages).value.events), AllRows(q, pages))
  {
    hide Collect, AllRows, SortByTime, TellsTheRows, ParseEvent, HoldsRow, ComesFrom;
    CollectedIsExact(q, pages);
    var events := Collect(q, pages).value.events;
    SortingKeepsDistinct(events);
    ReorderedStillRepresents(q, events, SortByTime(events), AllRows(q, pages));
    RepresentedMeansTold(q, SortByTime(events), AllRows(q, pages));
    EventsLieInWindow(q, SortByTime(events), AllRows(q, pages));
    RowsAgree(q, events, AllRows(q, pages));
  }

  lemma HeldWhenSorted(events: seq<Event>, e: Event)
    requires HoldsRow(events, e)
    ensures HoldsRow(SortByTime(events), e)
  {
    hide NumEq, SortByTime;
    var j :| 0 <= j < |events| && events[j].timeMs == e.timeMs && NumEq(events[j].value, e.value);
    SortingKeepsMembers(events, events[j]);
    var k :| 0 <= k < |SortByTime(events)| && SortByTime(events)[k] == events[j];
  }

  lemma ReorderedStillRepresents(q: Query, events: seq<Event>, sorted: seq<Event>, rows: seq<Value>)
    requires Represents(q, events, rows) && sorted == SortByTime(events) && StrictlyIncreasing(sorted)
    ensures Represents(q, sorted, rows)
  {
    hide ParseEvent, NumEq, SortByTime, HoldsRow, ComesFrom;
    forall i | 0 <= i < |rows| ensures HoldsRow(sorted, ParseEvent(q, rows[i]).value) {
      HeldWhenSorted(events, ParseEvent(q, rows[i]).value);
    }
    forall i | 0 <= i < |sorted| ensures ComesFrom(q, rows, sorted[i]) {
      SortingKeepsMembers(events, sorted[i]);
      var j :| 0 <= j < |events| && events[j] == sorted[i];
    }
  }

  lemma EventsLieInWindow(q: Query, events: seq<Event>, rows: seq<Value>)
    requires Represents(q, events, rows)
    ensures forall i | 0 <= i < |events| ::
      q.startMs <= events[i].timeMs <= q.endMs && events[i].deviceId == q.deviceId && events[i].code == q.code
  {
    hide NonNegativeInteger, ParseReportDecimal, DiagnosticFits, HoldsRow;
    forall i | 0 <= i < |events|
      ensures q.startMs <= events[i].timeMs <= q.endMs && events[i].deviceId == q.deviceId && events[i].code == q.code
    {
      var j :| 0 <= j < |rows| && ParseEvent(q, rows[j]) == Ok(events[i]);
    }
  }

  lemma RowsAgree(q: Query, events: seq<Event>, rows: seq<Value>)
    requires Represents(q, events, rows)
    ensures forall i, j | 0 <= i < |rows| && 0 <= j < |rows| ::
      ParseEvent(q, rows[i]).value.timeMs == ParseEvent(q, rows[j]).value.timeMs ==>
        NumEq(ParseEvent(q, rows[i]).value.value, ParseEvent(q, rows[j]).value.value)
  {
    hide ParseEvent, NumEq;
    forall i, j | 0 <= i < |rows| && 0 <= j < |rows| &&
      ParseEvent(q, rows[i]).value.timeMs == ParseEvent(q, rows[j]).value.timeMs
      ensures NumEq(ParseEvent(q, rows[i]).value.value, ParseEvent(q, rows[j]).value.value)
    {
      var a, b := ParseEvent(q, rows[i]).value, ParseEvent(q, rows[j]).value;
      var x :| 0 <= x < |events| && events[x].timeMs == a.timeMs && NumEq(events[x].value, a.value);
      var y :| 0 <= y < |events| && events[y].timeMs == b.timeMs && NumEq(events[y].value, b.value);
      assert x == y;
      Symmetric(events[x].value, a.value);
      NumEqTransitive(a.value, events[x].value, b.value);
    }
  }

  lemma Symmetric(a: Decimal, b: Decimal)
    ensures NumEq(a, b) <==> NumEq(b, a)
  {
  }

  /** The rows as a set of moments with their numeric values: all that the result may depend on. */
  predicate SameRows(q: Query, rows: seq<Value>, others: seq<Value>) {
    forall i | 0 <= i < |rows| ::
      exists j | 0 <= j < |others| ::
        && ParseEvent(q, rows[i]).Ok? && ParseEvent(q, others[j]).Ok?
        && ParseEvent(q, rows[i]).value.timeMs == ParseEvent(q, others[j]).value.timeMs
        && NumEq(ParseEvent(q, rows[i]).value.value, ParseEvent(q, others[j]).value.value)
  }

  /** Two fetches of the same rows, however split into pages, ordered or repeated, agree on moments and values. */
  lemma HistoryIgnoresPaging(q: Query, a: seq<Event>, b: seq<Event>, rows: seq<Value>, others: seq<Value>)
    requires IsExactHistory(q, a, rows) && IsExactHistory(q, b, others)
    requires SameRows(q, rows, others) && SameRows(q, others, rows)
    ensures |a| == |b|
    ensures forall i | 0 <= i < |a| :: a[i].timeMs == b[i].timeMs && NumEq(a[i].value, b[i].value)
  {
    hide IsExactHistory, SameRows, NumEq, HoldsRow, StrictlyIncreasing, HasTime;
    EventsAreMatched(q, a, b, rows, others);
    EventsAreMatched(q, b, a, others, rows);
    assert StrictlyIncreasing(a) && StrictlyIncreasing(b) by {
      OrderOfHistory(q, a, rows);
      OrderOfHistory(q, b, others);
    }
    HeldMeansTimed(a, b);
    HeldMeansTimed(b, a);
    IncreasingWithSameTimes(a, b);
    forall i | 0 <= i < |a| ensures NumEq(a[i].value, b[i].value) {
      HeldInPlace(a, b, i);
    }
  }

  lemma HeldInPlace(a: seq<Event>, b: seq<Event>, i: nat)
    requires StrictlyIncreasing(b) && |a| == |b| && i < |a| && a[i].timeMs == b[i].timeMs && HoldsRow(b, a[i])
    ensures NumEq(a[i].value, b[i].value)
  {
    hide NumEq;
    var j :| 0 <= j < |b| && b[j].timeMs == a[i].timeMs && NumEq(b[j].value, a[i].value);
    assert i == j;
    Symmetric(b[j].value, a[i].value);
  }

  lemma OrderOfHistory(q: Query, a: seq<Event>, rows: seq<Value>)
    requires IsExactHistory(q, a, rows)
    ensures StrictlyIncreasing(a)
  {
  }

  predicate HasTime(events: seq<Event>, timeMs: int) {
    exists i | 0 <= i < |events| :: events[i].timeMs == timeMs
  }

  lemma HeldMeansTimed(a: seq<Event>, b: seq<Event>)
    requires forall i | 0 <= i < |a| :: HoldsRow(b, a[i])
    ensures forall i | 0 <= i < |a| :: HasTime(b, a[i].timeMs)
  {
    forall i | 0 <= i < |a| ensures HasTime(b, a[i].timeMs) {
      assert HoldsRow(b, a[i]);
    }
  }

  lemma EventsAreMatched(q: Query, a: seq<Event>, b: seq<Event>, rows: seq<Value>, others: seq<Value>)
    requires IsExactHistory(q, a, rows) && IsExactHistory(q, b, others) && SameRows(q, rows, others)
    ensures forall i | 0 <= i < |a| :: HoldsRow(b, a[i])
  {
    hide ParseEvent, NumEq, TellsTheRows;
    forall i | 0 <= i < |a| ensures HoldsRow(b, a[i]) {
      assert ComesFrom(q, rows, a[i]);
      var j :| 0 <= j < |rows| && ParseEvent(q, rows[j]) == Ok(a[i]);
      var k :| 0 <= k < |others| && ParseEvent(q, others[k]).Ok?
        && a[i].timeMs == ParseEvent(q, others[k]).value.timeMs
        && NumEq(a[i].value, ParseEvent(q, others[k]).value.value);
      var e := ParseEvent(q, others[k]).value;
      assert HoldsRow(b, e);
      var x :| 0 <= x < |b| && b[x].timeMs == e.timeMs && NumEq(b[x].value, e.value);
      Symmetric(a[i].value, e.value);
      NumEqTransitive(b[x].value, e.value, a[i].value);
    }
  }

  /** Strictly increasing sequences with the same moments have them at the same positions. */
  lemma {:induction false} IncreasingWithSameTimes(a: seq<Event>, b: seq<Event>)
    requires StrictlyIncreasing(a) && StrictlyIncreasing(b)
    requires forall i | 0 <= i < |a| :: HasTime(b, a[i].timeMs)
    requires forall i | 0 <= i < |b| :: HasTime(a, b[i].timeMs)
    ensures |a| == |b| && forall i | 0 <= i < |a| :: a[i].timeMs == b[i].timeMs
  {
    if a == [] || b == [] {
      assert b != [] ==> HasTime(a, b[0].timeMs);
      assert a != [] ==> HasTime(b, a[0].timeMs);
    } else {
      LastTimesAgree(a, b);
      var a', b' := a[..|a| - 1], b[..|b| - 1];
      DropLastTime(a, b);
      DropLastTime(b, a);
      IncreasingWithSameTimes(a', b');
      forall i | 0 <= i < |a| ensures a[i].timeMs == b[i].timeMs {
        if i < |a'| {
          assert a'[i] == a[i] && b'[i] == b[i];
        }
      }
    }
  }

  lemma LastTimesAgree(a: seq<Event>, b: seq<Event>)
    requires StrictlyIncreasing(a) && StrictlyIncreasing(b) && a != [] && b != []
    requires HasTime(b, a[|a| - 1].timeMs) && HasTime(a, b[|b| - 1].timeMs)
    ensures a[|a| - 1].timeMs == b[|b| - 1].timeMs
  {
    var j :| 0 <= j < |b| && b[j].timeMs == a[|a| - 1].timeMs;
    var k :| 0 <= k < |a| && a[k].timeMs == b[|b| - 1].timeMs;
    assert b[j].timeMs <= b[|b| - 1].timeMs;
    assert a[k].timeMs <= a[|a| - 1].timeMs;
  }

  lemma DropLastTime(a: seq<Event>, b: seq<Event>)
    requires StrictlyIncreasing(a) && a != [] && b != []
    requires a[|a| - 1].timeMs == b[|b| - 1].timeMs
    requires forall i | 0 <= i < |a| :: HasTime(b, a[i].timeMs)
    ensures var a', b' := a[..|a| - 1], b[..|b| - 1];
      forall i | 0 <= i < |a'| :: HasTime(b', a'[i].timeMs)
  {
    var a', b' := a[..|a| - 1], b[..|b| - 1];
    forall i | 0 <= i < |a'| ensures HasTime(b', a'[i].timeMs) {
      assert HasTime(b, a[i].timeMs);
      var x :| 0 <= x < |b| && b[x].timeMs == a[i].timeMs;
      assert a[i].timeMs < a[|a| - 1].timeMs;
      assert b'[x].timeMs == a'[i].timeMs;
    }
  }

  // ------------------------------------------------------------ the gateway

  datatype HistoryError = BadQuery | InvalidHistory | TooMuchHistory | RateLimited | Unavailable | Halted(stop: Stop)

  function RefusalError(r: Refusal): HistoryError {
    if r.Invalid? then InvalidHistory else TooMuchHistory
  }

  /** A user-facing stop passes through; an API error is translated. */
  function TranslateApiError(e: ApiError): HistoryError {
    match e
    case Stopped(stop) => Halted(stop)
    case Api(rateLimited) => if rateLimited then RateLimited else Unavailable
  }

  /**
   * One physical request: the pages accepted before it, its cursor, its recorded start, whether the run was
   * then still live, the bytes it was allowed, whether it met an HTTP error, the bytes it read, and the error
   * it ended in, if any.
   */
  datatype Request = Request(
    accepted: nat,
    cursor: Option<string>,
    start: real,
    live: bool,
    allowance: nat,
    httpError: bool,
    read: nat,
    error: Option<ApiError>)

  datatype BoundedPayload = BoundedPayload(page: map<string, Value>, rawBytes: nat, decodedCharacters: nat)

  const LIMITED: Option<ApiError> := Some(Api(true))

  predicate Spaced(requests: seq<Request>) {
    forall i | 0 < i < |requests| :: requests[i].start - requests[i - 1].start >= 0.25
  }

  // ------------------------------------------------------------ bytes read and bytes charged

  /** A body is read up to its limit, and one byte further only by an attempt that fails for it. */
  predicate ReadsWithin(r: Request) {
    && r.read <= (if r.httpError then 65_536 else Min(1_048_576, r.allowance))
                 + (if r.error.None? || r.error == LIMITED then 0 else 1)
    && (r.error.None? ==> !r.httpError)
  }

  /** Bytes of accepted pages. */
  function Charged(requests: seq<Request>): nat {
    if requests == [] then 0
    else
      var last := requests[|requests| - 1];
      Charged(requests[..|requests| - 1]) + if last.error.None? then last.read else 0
  }

  /** Bytes of all attempts. */
  function Read(requests: seq<Request>): nat {
    if requests == [] then 0 else Read(requests[..|requests| - 1]) + requests[|requests| - 1].read
  }

  /** Every attempt is allowed what accepted pages have left of the total, and reads within it. */
  ghost predicate IsBudgeted(requests: seq<Request>) {
    forall i | 0 <= i < |requests| ::
      requests[i].allowance + Charged(requests[..i]) == 10_485_760 && ReadsWithin(requests[i])
  }

  lemma OneMoreRequest(requests: seq<Request>, next: Request)
    requires IsBudgeted(requests) && next.allowance + Charged(requests) == MAX_TOTAL_RAW && ReadsWithin(next)
    ensures IsBudgeted(requests + [next])
    ensures Charged(requests + [next]) == Charged(requests) + if next.error.None? then next.read else 0
    ensures Charged(requests + [next]) <= MAX_TOTAL_RAW
  {
    hide Charged;
    ChargedGrows(requests, next);
    var after := requests + [next];
    forall i | 0 <= i < |after| ensures after[i].allowance + Charged(after[..i]) == MAX_TOTAL_RAW && ReadsWithin(after[i]) {
      if i < |requests| {
        assert after[..i] == requests[..i];
      } else {
        assert after[..i] == requests;
      }
    }
  }

  lemma ChargedGrows(requests: seq<Request>, next: Request)
    ensures Charged(requests + [next]) == Charged(requests) + if next.error.None? then next.read else 0
    ensures Read(requests + [next]) == Read(requests) + next.read
  {
    assert (requests + [next])[..|requests|] == requests;
  }

  // ------------------------------------------------------------ the client

  /** The pages are the payloads as the client delivers them. */
  ghost predicate AreDelivered(secrets: Option<seq<string>>, payloads: seq<map<string, Value>>, pages: seq<map<string, Value>>) {
    |payloads| == |pages| && forall i | 0 <= i < |pages| :: pages[i] == Delivered(secrets, payloads[i])
  }

  /**
   * A page client; its ghost fields log every request, payload and page, and for every request the decoded
   * characters offered to it beside those already charged. With `secrets` it is the application's own, which
   * redacts every page.
   */
  class ReportLogClient {
    const ctx: CancellationContext
    const secrets: Option<seq<string>>
    ghost var requests: seq<Request>
    ghost var payloads: seq<map<string, Value>>
    ghost var pages: seq<map<string, Value>>
    ghost var decodedCharged: nat
    ghost var offers: seq<(nat, nat)>

    constructor (ctx: CancellationContext, secrets: Option<seq<string>>)
      ensures this.ctx == ctx && this.secrets == secrets && IsUnused()
    {
      this.ctx, this.secrets := ctx, secrets;
      requests, payloads, pages, decodedCharged, offers := [], [], [], 0, [];
    }

    ghost predicate IsUnused()
      reads this
    {
      requests == [] && payloads == [] && pages == [] && decodedCharged == 0 && offers == []
    }

    /** Every request was offered the characters that accepted pages had left of the total. */
    ghost predicate OffersTheRest()
      reads this
    {
      forall i | 0 <= i < |offers| :: offers[i].0 + offers[i].1 == 10_485_760
    }

    ghost predicate Faithful()
      reads this
    {
      AreDelivered(secrets, payloads, pages)
    }

    /** `get_report_log_page`: one request, logged; an accepted page is redacted, charged in full and within its allowances. */
    method GetReportLogPage(cursor: Option<string>, rawAllowance: nat, decodedAllowance: nat, ghost start: real)
      returns (r: Result<BoundedPayload, ApiError>)
      requires Faithful()
      modifies this, ctx.clock, ctx`cancelled
      ensures Faithful() && offers == old(offers) + [(decodedAllowance, old(decodedCharged))]
      ensures ctx.clock.now >= old(ctx.clock.now)
      ensures |requests| == |old(requests)| + 1 && old(requests) <= requests
      ensures var x := requests[|old(requests)|];
        && x.accepted == |old(pages)| && x.cursor == cursor && x.start == start && x.allowance == rawAllowance
        && x.live == old(!ctx.MustStop()) && x.error == (if r.Err? then Some(r.error) else None)
        && ReadsWithin(x) && (r.Ok? ==> x.read == r.value.rawBytes)
      ensures old(ctx.MustStop()) ==> ctx.MustStop()
      ensures r.Err? && r.error.Stopped? ==> ctx.MustStop()
      ensures r.Ok? ==>
        && r.value.rawBytes <= rawAllowance && r.value.decodedCharacters <= Min(decodedAllowance, r.value.rawBytes)
        && pages == old(pages) + [r.value.page]
        && decodedCharged == old(decodedCharged) + r.value.decodedCharacters
      ensures r.Err? ==> pages == old(pages) && decodedCharged == old(decodedCharged)
    {
      ghost var live := !ctx.MustStop();
      ghost var accepted := |pages|;
      offers := offers + [(decodedAllowance, decodedCharged)];
      var payload: map<string, Value>;
      ghost var read: nat, httpError: bool;
      var answer;
      answer, payload, read, httpError := Exchange(rawAllowance, decodedAllowance);
      r := answer;
      if answer.Ok? {
        var page := Delivered(secrets, payload);
        r := Ok(answer.value.(page := page));
        payloads, pages := payloads + [payload], pages + [page];
        decodedCharged := decodedCharged + answer.value.decodedCharacters;
      }
      requests := requests + [
        Request(accepted, cursor, start, live, rawAllowance, httpError, read, if r.Err? then Some(r.error) else None)];
    }

    /** The transport and the envelope: the timeout, the bounded body, and the result object it holds. */
    method Exchange(rawAllowance: nat, decodedAllowance: nat)
      returns (r: Result<BoundedPayload, ApiError>, payload: map<string, Value>, ghost read: nat, ghost httpError: bool)
      modifies ctx.clock, ctx`cancelled
      ensures ctx.clock.now >= old(ctx.clock.now)
      ensures old(ctx.MustStop()) ==> ctx.MustStop()
      ensures r.Err? && r.error.Stopped? ==> ctx.MustStop()
      ensures read <= (if httpError then ERROR_LIMIT else Min(PAGE_LIMIT, rawAllowance))
                      + (if r.Ok? || r == Err(Api(true)) then 0 else 1)
      ensures r.Ok? ==>
        && !httpError && read == r.value.rawBytes <= rawAllowance
        && r.value.decodedCharacters <= Min(decodedAllowance, r.value.rawBytes)
    {
      payload, read, httpError := map[], 0, false;
      var live := ctx.Checkpoint();
      if live.Err? { r := Err(Stopped(live.error)); return; }
      var timeout := ctx.RemoteTimeoutSeconds(REMOTE_TIMEOUT);
      if timeout <= 0.0 {
        live := ctx.Checkpoint();
        r := Err(if live.Err? then Stopped(live.error) else Api(false));
        return;
      }
      var started := ctx.clock.Monotonic();
      var body: seq<int> := *;
      var stream := new ByteStream(body);
      var failing, rateLimited, unread: bool := *, *, *;
      httpError := failing;
      if unread { r := Err(Api(false)); return; }
      var limit := if failing then ERROR_LIMIT else Min(PAGE_LIMIT, rawAllowance);
      var answer := ReadBounded(stream, limit, ctx, started + timeout);
      read := stream.position;
      if answer.Err? {
        r := Err(if answer.error.Interrupted? then Stopped(answer.error.stop) else Api(false));
        return;
      }
      var characters: int := *;
      if characters < 0 || characters > |answer.value| {
        characters := |answer.value|;
      }
      var refused: bool := *;
      if failing || refused {
        r := Err(Api(rateLimited));
        return;
      }
      if characters > Min(PAGE_LIMIT, decodedAllowance) { r := Err(Api(false)); return; }
      var result: Value := *;
      if !result.Obj? { r := Err(Api(false)); return; }
      payload := result.fields;
      r := Ok(BoundedPayload(payload, |answer.value|, characters));
    }
  }

  /** `_RequestPacer`: one cadence for every physical request of a run. */
  class RequestPacer {
    var lastStart: Option<real>

    constructor ()
      ensures lastStart.None?
    {
      lastStart := None;
    }

    /** On a normal return the new start is a full interval after the last, and before the deadline. */
    method WaitBeforeRequest(ctx: CancellationContext) returns (r: Result<(), Stop>)
      requires lastStart.Some? ==> lastStart.value <= ctx.clock.now
      modifies this, ctx.clock, ctx`cancelled
      ensures ctx.clock.now >= old(ctx.clock.now)
      ensures r.Ok? ==>
        && lastStart.Some? && old(ctx.clock.now) <= lastStart.value <= ctx.clock.now && !ctx.MustStop()
        && (old(lastStart).Some? ==> lastStart.value - old(lastStart).value >= 0.25)
      ensures r.Err? ==> lastStart == old(lastStart) && ctx.MustStop()
    {
      r := ctx.Checkpoint();
      if r.Err? { return; }
      var now := ctx.clock.Monotonic();
      if lastStart.Some? {
        var delay := MIN_REQUEST_INTERVAL - (now - lastStart.value);
        if delay > 0.0 {
          r := ctx.Wait(delay);
          if r.Err? { return; }
          now := ctx.clock.Monotonic();
        }
      }
      r := ctx.Checkpoint();
      if r.Err? { return; }
      lastStart := Some(now);
    }
  }

  /** Consecutive requests are a full interval apart, and none starts once cancelled or at or after the deadline. */
  ghost predicate IsPaced(requests: seq<Request>, deadline: real) {
    Spaced(requests) && forall i | 0 <= i < |requests| :: requests[i].start < deadline && requests[i].live
  }

  /** What the log of requests keeps over a run. */
  ghost predicate PacedLog(requests: seq<Request>, lastStart: Option<real>, deadline: real, now: real) {
    && IsPaced(requests, deadline)
    && (requests != [] ==> lastStart.Some? && requests[|requests| - 1].start <= lastStart.value)
    && (lastStart.Some? ==> lastStart.value <= now)
  }

  lemma PacedMeans(requests: seq<Request>, lastStart: Option<real>, deadline: real, now: real)
    requires PacedLog(requests, lastStart, deadline, now)
    ensures IsPaced(requests, deadline) && (requests != [] ==> requests[|requests| - 1].start <= now)
  {
  }

  /** How a whole fetch can fail on the way: stopped, or as its last request failed. */
  ghost predicate IsHistoryFailure(e: HistoryError, requests: seq<Request>, mustStop: bool) {
    match e
    case Halted(_) => mustStop
    case RateLimited => |requests| >= 3 && requests[|requests| - 1].error == LIMITED
    case Unavailable => requests != [] && requests[|requests| - 1].error == Some(Api(false))
    case _ => true
  }

  lemma FetchFailureMeans(e: HistoryError, requests: seq<Request>, n: nat, mustStop: bool)
    requires IsFetchFailure(e, requests, n, mustStop)
    ensures IsHistoryFailure(e, requests, mustStop) && e !in {BadQuery, InvalidHistory, TooMuchHistory}
  {
  }

  lemma OtherFailures(e: HistoryError, requests: seq<Request>, mustStop: bool)
    ensures e in {BadQuery, InvalidHistory, TooMuchHistory} || (e.Halted? && mustStop) ==>
      IsHistoryFailure(e, requests, mustStop)
  {
  }

  /** How one page's fetch can fail: stopped, refused for its rate three times, or failed otherwise on its last attempt. */
  ghost predicate IsFetchFailure(e: HistoryError, requests: seq<Request>, n: nat, mustStop: bool) {
    match e
    case Halted(_) => mustStop
    case RateLimited => |requests| == n + 3 && requests[|requests| - 1].error == LIMITED
    case Unavailable => |requests| > n && requests[|requests| - 1].error == Some(Api(false))
    case _ => false
  }

  lemma LogAges(requests: seq<Request>, lastStart: Option<real>, deadline: real, before: real, now: real)
    requires PacedLog(requests, lastStart, deadline, before) && before <= now
    ensures PacedLog(requests, lastStart, deadline, now)
  {
  }

  const RETRY_DELAYS: seq<real> := [0.0, 0.5, 1.0]

  /** The requests from position `n` on are the attempts at one page: spaced by the retry delays, rate-limited but the last. */
  ghost predicate AreAttempts(requests: seq<Request>, n: nat, accepted: nat, cursor: Option<string>) {
    && n <= |requests| <= n + 3
    && (forall i | n <= i < |requests| :: requests[i].accepted == accepted && requests[i].cursor == cursor)
    && (forall i | n <= i < |requests| - 1 :: requests[i].error == LIMITED)
    && (forall i | n < i < |requests| :: requests[i].start - requests[i - 1].start >= RETRY_DELAYS[i - n])
  }

  lemma NoAttempts(requests: seq<Request>, accepted: nat, cursor: Option<string>)
    ensures AreAttempts(requests, |requests|, accepted, cursor)
  {
  }

  lemma AnotherAttempt(requests: seq<Request>, n: nat, next: Request)
    requires AreAttempts(requests, n, next.accepted, next.cursor) && |requests| < n + 3
    requires forall i | n <= i < |requests| :: requests[i].error == LIMITED
    requires |requests| > n ==>
      next.start - requests[|requests| - 1].start >= RETRY_DELAYS[|requests| - n]
    ensures AreAttempts(requests + [next], n, next.accepted, next.cursor)
  {
  }

  /** The cursor that asks for the page after the ones collected. */
  function LastCursor(p: Progress): Option<string> {
    if p.cursors == [] then None else Some(p.cursors[|p.cursors| - 1])
  }

  /** Each request asks for the next page after an accepted, unfinished prefix of the pages. */
  ghost predicate AsksForNextPage(q: Query, r: Request, pages: seq<map<string, Value>>) {
    && r.accepted <= |pages|
    && Collect(q, pages[..r.accepted]).Ok? && !Collect(q, pages[..r.accepted]).value.finished
    && |Collect(q, pages[..r.accepted]).value.cursors| == r.accepted
    && r.cursor == LastCursor(Collect(q, pages[..r.accepted]).value)
  }

  /** Request `i` asks for the next page after an answer, or for the same page again after a rate limit and a pause. */
  ghost predicate ComesInOrder(requests: seq<Request>, i: nat)
    requires i < |requests|
  {
    && (i == 0 ==> requests[i].accepted == 0)
    && (i > 0 ==>
          if requests[i].accepted == requests[i - 1].accepted then
            requests[i - 1].error == LIMITED && requests[i].start - requests[i - 1].start >= 0.5
          else requests[i - 1].error.None? && requests[i].accepted == requests[i - 1].accepted + 1)
    && (i > 1 && requests[i].accepted == requests[i - 2].accepted ==> requests[i].start - requests[i - 1].start >= 1.0)
    && (i > 2 ==> requests[i].accepted > requests[i - 3].accepted)
  }

  /**
   * Pages are asked for in order, one after the other; a page is asked for again only when the attempt
   * before it was rate-limited, at most twice, and then only after half a second and a second.
   */
  ghost predicate InOrder(requests: seq<Request>) {
    forall i | 0 <= i < |requests| :: ComesInOrder(requests, i)
  }

  /** The whole log against the pages received. */
  ghost predicate FollowsPages(q: Query, requests: seq<Request>, pages: seq<map<string, Value>>) {
    InOrder(requests) && forall i | 0 <= i < |requests| :: AsksForNextPage(q, requests[i], pages)
  }

  /** Every page received so far has been asked for and accepted, and nothing is outstanding. */
  ghost predicate IsSettled(q: Query, requests: seq<Request>, pages: seq<map<string, Value>>) {
    && FollowsPages(q, requests, pages)
    && (if requests == [] then pages == []
        else requests[|requests| - 1].error.None? && requests[|requests| - 1].accepted + 1 == |pages|)
    && (forall i | 0 <= i < |requests| :: requests[i].accepted < |pages|)
  }

  lemma AttemptsFollow(q: Query, before: seq<Request>, after: seq<Request>, pages: seq<map<string, Value>>)
    requires IsSettled(q, before, pages) && before <= after
    requires Collect(q, pages).Ok? && !Collect(q, pages).value.finished
    requires |Collect(q, pages).value.cursors| == |pages|
    requires AreAttempts(after, |before|, |pages|, LastCursor(Collect(q, pages).value))
    ensures FollowsPages(q, after, pages)
  {
    hide Collect, LastCursor, AsksForNextPage, InOrder;
    AttemptsKeepOrder(before, after, |pages|, LastCursor(Collect(q, pages).value));
    forall i | 0 <= i < |after| ensures AsksForNextPage(q, after[i], pages) {
      if i < |before| {
        assert after[i] == before[i];
      } else {
        AsksNow(q, after[i], pages);
      }
    }
  }

  lemma AttemptsKeepOrder(before: seq<Request>, after: seq<Request>, accepted: nat, cursor: Option<string>)
    requires InOrder(before) && before <= after && AreAttempts(after, |before|, accepted, cursor)
    requires if before == [] then accepted == 0
             else before[|before| - 1].error.None? && before[|before| - 1].accepted + 1 == accepted
    requires forall i | 0 <= i < |before| :: before[i].accepted < accepted
    ensures InOrder(after)
  {
    var n := |before|;
    forall i | 0 <= i < |after| ensures ComesInOrder(after, i) {
      if i < n {
        SameBeginning(before, after, i);
      } else {
        AttemptInOrder(before, after, i, accepted, cursor);
      }
    }
  }

  lemma SameBeginning(before: seq<Request>, after: seq<Request>, i: nat)
    requires before <= after && i < |before| && ComesInOrder(before, i)
    ensures ComesInOrder(after, i)
  {
    assert forall k | 0 <= k < |before| :: after[k] == before[k];
  }

  lemma AttemptInOrder(before: seq<Request>, after: seq<Request>, i: nat, accepted: nat, cursor: Option<string>)
    requires before <= after && |before| <= i < |after| && AreAttempts(after, |before|, accepted, cursor)
    requires if before == [] then accepted == 0
             else before[|before| - 1].error.None? && before[|before| - 1].accepted + 1 == accepted
    requires forall k | 0 <= k < |before| :: before[k].accepted < accepted
    ensures ComesInOrder(after, i)
  {
    var n := |before|;
    assert after[i].accepted == accepted;
    if i > 2 {
      assert after[i - 3] == before[i - 3];
    }
    if i > n {
      assert after[i - 1].error == LIMITED && after[i - 1].accepted == accepted;
      assert after[i].start - after[i - 1].start >= RETRY_DELAYS[i - n] >= 0.5;
    } else if n > 0 {
      assert after[i - 1] == before[n - 1];
    }
    if i > 1 && i < n + 2 {
      assert after[i - 2] == before[i - 2];
    }
  }

  /** An answered last attempt settles the page it brought. */
  lemma AnswerSettles(q: Query, before: seq<Request>, after: seq<Request>, pages: seq<map<string, Value>>,
                      cursor: Option<string>, page: map<string, Value>)
    requires IsSettled(q, before, pages) && before <= after && |before| < |after|
    requires AreAttempts(after, |before|, |pages|, cursor) && after[|after| - 1].error.None?
    requires FollowsPages(q, after, pages)
    ensures IsSettled(q, after, pages + [page])
  {
    hide FollowsPages;
    AcceptedPageFollows(q, after, pages, page);
    forall i | 0 <= i < |after| ensures after[i].accepted < |pages + [page]| {
      if i < |before| { assert after[i] == before[i]; }
    }
  }

  lemma NothingIsSettled(q: Query, deadline: real, now: real)
    ensures IsSettled(q, [], []) && PacedLog([], None, deadline, now) && IsPaced([], deadline)
  {
  }


  lemma SettledFollows(q: Query, requests: seq<Request>, pages: seq<map<string, Value>>)
    requires IsSettled(q, requests, pages)
    ensures FollowsPages(q, requests, pages)
  {
  }

  lemma AsksNow(q: Query, r: Request, pages: seq<map<string, Value>>)
    requires Collect(q, pages).Ok? && !Collect(q, pages).value.finished
    requires |Collect(q, pages).value.cursors| == |pages|
    requires r.accepted == |pages| && r.cursor == LastCursor(Collect(q, pages).value)
    ensures AsksForNextPage(q, r, pages)
  {
    hide Collect, LastCursor;
    assert pages[..|pages|] == pages;
  }

  lemma AcceptedPageFollows(q: Query, requests: seq<Request>, pages: seq<map<string, Value>>, page: map<string, Value>)
    requires FollowsPages(q, requests, pages)
    ensures FollowsPages(q, requests, pages + [page])
  {
    hide Collect, LastCursor;
    forall i | 0 <= i < |requests| ensures AsksForNextPage(q, requests[i], pages + [page]) {
      assert AsksForNextPage(q, requests[i], pages);
      assert (pages + [page])[..requests[i].accepted] == pages[..requests[i].accepted];
    }
  }

  lemma {:induction false} CursorsGrow(q: Query, pages: seq<map<string, Value>>, k: nat)
    requires k <= |pages| && Collect(q, pages).Ok?
    ensures Collect(q, pages[..k]).Ok? && Collect(q, pages[..k]).value.cursors <= Collect(q, pages).value.cursors
    decreases |pages|
  {
    hide ReadPage, AbsorbRows, NextCursor;
    if k == |pages| {
      assert pages[..k] == pages;
    } else {
      CursorsGrow(q, pages[..|pages| - 1], k);
      assert pages[..|pages| - 1][..k] == pages[..k];
    }
  }

  lemma LaterCursorDiffers(q: Query, pages: seq<map<string, Value>>, a: nat, b: nat)
    requires a < b <= |pages| && Collect(q, pages[..b]).Ok? && |Collect(q, pages[..b]).value.cursors| == b
    requires Collect(q, pages[..a]).Ok? && |Collect(q, pages[..a]).value.cursors| == a
    ensures LastCursor(Collect(q, pages[..a]).value) != LastCursor(Collect(q, pages[..b]).value)
  {
    hide Collect, Represents;
    assert pages[..b][..a] == pages[..a];
    CursorsGrow(q, pages[..b], a);
    CollectedIsExact(q, pages[..b]);
  }

  lemma RequestAsks(q: Query, requests: seq<Request>, pages: seq<map<string, Value>>, i: nat)
    requires FollowsPages(q, requests, pages) && i < |requests|
    ensures AsksForNextPage(q, requests[i], pages)
  {
  }

  /** No cursor is used for two pages: equal cursors mean attempts at the same page. */
  lemma NoCursorTwice(q: Query, requests: seq<Request>, pages: seq<map<string, Value>>, i: nat, j: nat)
    requires FollowsPages(q, requests, pages) && i < |requests| && j < |requests|
    ensures requests[i].cursor == requests[j].cursor <==> requests[i].accepted == requests[j].accepted
  {
    hide FollowsPages, Collect;
    RequestAsks(q, requests, pages, i);
    RequestAsks(q, requests, pages, j);
    var a, b := requests[i].accepted, requests[j].accepted;
    if a < b {
      LaterCursorDiffers(q, pages, a, b);
    } else if b < a {
      LaterCursorDiffers(q, pages, b, a);
    }
  }

  class TuyaReportLogGateway {
    const client: ReportLogClient

    constructor (client: ReportLogClient)
      ensures this.client == client
    {
      this.client := client;
    }

    ghost predicate Paced(pacer: RequestPacer)
      reads client, pacer, client.ctx, client.ctx.clock
    {
      PacedLog(client.requests, pacer.lastStart, client.ctx.deadline, client.ctx.clock.now)
    }

    /** One attempt: the retry delay, the pacer's wait, then the request; or a stop before any request is made. */
    method Attempt(delay: real, cursor: Option<string>, rawAllowance: nat, decodedAllowance: nat, pacer: RequestPacer)
      returns (r: Result<BoundedPayload, ApiError>)
      requires Paced(pacer) && client.Faithful() && delay >= 0.0
      requires client.OffersTheRest() && decodedAllowance + client.decodedCharged == MAX_TOTAL_DECODED
      modifies client, pacer, client.ctx.clock, client.ctx`cancelled
      ensures Paced(pacer) && client.Faithful() && client.OffersTheRest()
      ensures client.requests == old(client.requests) ==> r.Err? && r.error.Stopped?
      ensures client.requests != old(client.requests) ==>
        && |client.requests| == |old(client.requests)| + 1 && old(client.requests) <= client.requests
        && var x := client.requests[|old(client.requests)|];
           && x.accepted == |old(client.pages)| && x.cursor == cursor && x.allowance == rawAllowance
           && x.start >= old(client.ctx.clock.now) + delay
           && x.error == (if r.Err? then Some(r.error) else None)
           && ReadsWithin(x) && (r.Ok? ==> x.read == r.value.rawBytes)
      ensures r.Ok? ==>
        && r.value.rawBytes <= rawAllowance && r.value.decodedCharacters <= Min(decodedAllowance, r.value.rawBytes)
        && client.pages == old(client.pages) + [r.value.page]
        && client.decodedCharged == old(client.decodedCharged) + r.value.decodedCharacters
      ensures r.Err? ==>
        client.pages == old(client.pages) && client.decodedCharged == old(client.decodedCharged)
      ensures r.Err? && r.error.Stopped? ==> client.ctx.MustStop()
    {
      hide AreDelivered, ReadsWithin;
      if delay > 0.0 {
        ghost var before := client.ctx.clock.now;
        var waited := client.ctx.Wait(delay);
        LogAges(client.requests, pacer.lastStart, client.ctx.deadline, before, client.ctx.clock.now);
        if waited.Err? { return Err(Stopped(waited.error)); }
      }
      var ready := pacer.WaitBeforeRequest(client.ctx);
      if ready.Err? { return Err(Stopped(ready.error)); }
      r := client.GetReportLogPage(cursor, rawAllowance, decodedAllowance, pacer.lastStart.value);
    }

    /** `_fetch_with_rate_retry`: at most three paced attempts, and only rate limiting is retried. */
    method FetchWithRateRetry(cursor: Option<string>, rawAllowance: nat, decodedAllowance: nat, pacer: RequestPacer)
      returns (r: Result<BoundedPayload, HistoryError>)
      requires Paced(pacer) && client.Faithful()
      requires IsBudgeted(client.requests) && rawAllowance + Charged(client.requests) == MAX_TOTAL_RAW
      requires client.OffersTheRest() && decodedAllowance + client.decodedCharged == MAX_TOTAL_DECODED
      modifies client, pacer, client.ctx.clock, client.ctx`cancelled
      ensures Paced(pacer) && client.Faithful() && client.OffersTheRest()
      ensures old(client.requests) <= client.requests
      ensures AreAttempts(client.requests, |old(client.requests)|, |old(client.pages)|, cursor)
      ensures |client.requests| <= |old(client.requests)| + 3
      ensures IsBudgeted(client.requests)
      ensures Charged(client.requests) == Charged(old(client.requests)) + if r.Ok? then r.value.rawBytes else 0
      ensures r.Ok? ==>
        && r.value.rawBytes <= rawAllowance && r.value.decodedCharacters <= Min(decodedAllowance, r.value.rawBytes)
        && client.pages == old(client.pages) + [r.value.page]
        && client.decodedCharged == old(client.decodedCharged) + r.value.decodedCharacters
        && |client.requests| > |old(client.requests)| && client.requests[|client.requests| - 1].error.None?
      ensures r.Err? ==>
        client.pages == old(client.pages) && client.decodedCharged == old(client.decodedCharged)
      ensures r.Err? ==> IsFetchFailure(r.error, client.requests, |old(client.requests)|, client.ctx.MustStop())
    {
      hide PacedLog, IsPaced, AreAttempts, AreDelivered, IsBudgeted, Charged, ReadsWithin;
      NoAttempts(client.requests, |client.pages|, cursor);
      for attempt := 0 to 3
        invariant Paced(pacer) && client.Faithful()
        invariant old(client.requests) <= client.requests && |client.requests| == |old(client.requests)| + attempt
        invariant AreAttempts(client.requests, |old(client.requests)|, |old(client.pages)|, cursor)
        invariant forall i | |old(client.requests)| <= i < |client.requests| :: client.requests[i].error == LIMITED
        invariant IsBudgeted(client.requests) && Charged(client.requests) == Charged(old(client.requests))
        invariant client.pages == old(client.pages) && attempt < 3
        invariant client.decodedCharged == old(client.decodedCharged) && client.OffersTheRest()
      {
        PacedMeans(client.requests, pacer.lastStart, client.ctx.deadline, client.ctx.clock.now);
        ghost var asked := client.requests;
        var answer := Attempt(RETRY_DELAYS[attempt], cursor, rawAllowance, decodedAllowance, pacer);
        if client.requests != asked {
          assert client.requests == asked + [client.requests[|asked|]];
          AnotherAttempt(asked, |old(client.requests)|, client.requests[|asked|]);
          OneMoreRequest(asked, client.requests[|asked|]);
        }
        if answer.Ok? { return Ok(answer.value); }
        if answer.error.Stopped? || attempt >= 2 || !answer.error.rateLimited {
          return Err(TranslateApiError(answer.error));
        }
      }
      assert false;
    }

    /** The rows of one page, in a loop over a dictionary of the values already seen. */
    method AbsorbPageRows(q: Query, known: seq<Event>, knownRows: map<int, Decimal>, rows: seq<Value>)
      returns (r: Result<seq<Event>, Refusal>, seenRows: map<int, Decimal>)
      requires IsIndexOf(knownRows, known)
      ensures r == AbsorbRows(q, known, rows)
      ensures r.Ok? ==> IsIndexOf(seenRows, r.value)
    {
      hide ParseEvent, NumEq;
      var events := known;
      seenRows := knownRows;
      for i := 0 to |rows|
        invariant AbsorbRows(q, known, rows[..i]) == Ok(events)
        invariant IsIndexOf(seenRows, events)
      {
        assert rows[..i + 1][..i] == rows[..i];
        var parsed := ParseEvent(q, rows[i]);
        if parsed.Err? {
          RefusalStays(q, known, rows, i + 1);
          return Err(parsed.error), seenRows;
        }
        var event := parsed.value;
        IndexFinds(seenRows, events, event.timeMs);
        if event.timeMs in seenRows {
          if !NumEq(seenRows[event.timeMs], event.value) {
            RefusalStays(q, known, rows, i + 1);
            return Err(Invalid), seenRows;
          }
        } else {
          IndexGrows(seenRows, events, event);
          seenRows := seenRows[event.timeMs := event.value];
          events := events + [event];
        }
      }
      assert rows[..|rows|] == rows;
      r := Ok(events);
    }

    /** The part of the page loop after the fetch: page checks, row cap, rows, end or next cursor. */
    method AbsorbFetchedPage(q: Query, progress: Progress, knownRows: map<int, Decimal>, page: map<string, Value>)
      returns (r: Result<Progress, Refusal>, seenRows: map<int, Decimal>)
      requires IsIndexOf(knownRows, progress.events)
      ensures r == AbsorbPage(q, progress, page)
      ensures r.Ok? ==> IsIndexOf(seenRows, r.value.events)
    {
      hide ReadPage, AbsorbRows, NextCursor, IsIndexOf;
      seenRows := knownRows;
      var view := ReadPage(q, page, progress.total);
      if view.Err? { return Err(view.error), seenRows; }
      if |progress.events| + |view.value.rows| > MAX_ROWS { return Err(Limit), seenRows; }
      var absorbed;
      absorbed, seenRows := AbsorbPageRows(q, progress.events, seenRows, view.value.rows);
      if absorbed.Err? { return Err(absorbed.error), seenRows; }
      if !view.value.hasMore {
        return Ok(Progress(absorbed.value, view.value.total, progress.cursors, true)), seenRows;
      }
      var next := NextCursor(page, progress.cursors);
      if next.Err? { return Err(next.error), seenRows; }
      r := Ok(Progress(absorbed.value, view.value.total, progress.cursors + [next.value], false));
    }

    /** `list_events` */
    method ListEvents(q: Query) returns (r: Result<seq<Event>, HistoryError>)
      requires client.IsUnused()
      modifies client, client.ctx.clock, client.ctx`cancelled
      ensures r == Err(BadQuery) <==> q.deviceId == "" || q.code == "" || q.startMs < 0 || q.endMs < q.startMs
      ensures r.Ok? ==>
        Collect(q, client.pages).Ok? && Collect(q, client.pages).value.finished
        && r.value == SortByTime(Collect(q, client.pages).value.events)
      ensures r == Err(InvalidHistory) ==> Collect(q, client.pages) == Err(Invalid)
      ensures r == Err(TooMuchHistory) ==>
        Collect(q, client.pages) == Err(Limit) || (Collect(q, client.pages).Ok? && |client.pages| == 50)
      ensures Collect(q, client.pages).Err? ==> r == Err(RefusalError(Collect(q, client.pages).error))
      ensures Collect(q, client.pages).Ok? && Collect(q, client.pages).value.finished ==> r.Ok?
      ensures r.Err? ==> IsHistoryFailure(r.error, client.requests, client.ctx.MustStop())
      ensures FollowsPages(q, client.requests, client.pages) && OpenBefore(q, client.pages)
      ensures |client.pages| <= 50 && |client.requests| <= 150
      ensures AreDelivered(client.secrets, client.payloads, client.pages)
      ensures IsBudgeted(client.requests) && Charged(client.requests) <= 10_485_760
      ensures client.decodedCharged <= 10_485_760 && client.OffersTheRest()
      ensures IsPaced(client.requests, client.ctx.deadline)
    {
      hide Collect, AbsorbPage, IsIndexOf, SortByTime, LastCursor, FollowsPages, IsSettled, AreAttempts;
      hide PacedLog, IsPaced, IsHistoryFailure, IsFetchFailure, CancellationContext.MustStop;
      hide AreDelivered, IsBudgeted, Charged, OpenBefore;
      StartIsCollected(q);
      NothingIsBudgeted(client.secrets);
      NothingIsSettled(q, client.ctx.deadline, client.ctx.clock.now);
      if !ValidQuery(q) {
        OtherFailures(BadQuery, [], client.ctx.MustStop());
        return Err(BadQuery);
      }
      var progress := START;
      var seenRows: map<int, Decimal> := map[];
      var cursor: Option<string> := None;
      var rawRemaining, decodedRemaining := MAX_TOTAL_RAW, MAX_TOTAL_DECODED;
      var pacer := new RequestPacer();
      for page := 0 to MAX_PAGES
        invariant Paced(pacer) && fresh(pacer)
        invariant |client.pages| == page && |client.requests| <= 3 * page
        invariant IsSettled(q, client.requests, client.pages) && cursor == LastCursor(progress)
        invariant |progress.cursors| == page
        invariant Collect(q, client.pages) == Ok(progress) && !progress.finished && OpenBefore(q, client.pages)
        invariant IsIndexOf(seenRows, progress.events)
        invariant client.Faithful() && IsBudgeted(client.requests)
        invariant Charged(client.requests) == MAX_TOTAL_RAW - rawRemaining && rawRemaining >= 0
        invariant client.decodedCharged == MAX_TOTAL_DECODED - decodedRemaining && decodedRemaining >= 0
        invariant client.OffersTheRest()
      {
        SettledFollows(q, client.requests, client.pages);
        ghost var earlier := client.ctx.clock.now;
        var live := client.ctx.Checkpoint();
        LogAges(client.requests, pacer.lastStart, client.ctx.deadline, earlier, client.ctx.clock.now);
        PacedMeans(client.requests, pacer.lastStart, client.ctx.deadline, client.ctx.clock.now);
        if live.Err? {
          OtherFailures(Halted(live.error), client.requests, client.ctx.MustStop());
          return Err(Halted(live.error));
        }
        ghost var before, asked := client.pages, client.requests;
        var fetched := FetchWithRateRetry(cursor, rawRemaining, decodedRemaining, pacer);
        PacedMeans(client.requests, pacer.lastStart, client.ctx.deadline, client.ctx.clock.now);
        AttemptsFollow(q, asked, client.requests, before);
        if fetched.Err? {
          FetchFailureMeans(fetched.error, client.requests, |asked|, client.ctx.MustStop());
          return Err(fetched.error);
        }
        AnswerSettles(q, asked, client.requests, before, cursor, fetched.value.page);
        SettledFollows(q, client.requests, client.pages);
        rawRemaining := rawRemaining - fetched.value.rawBytes;
        decodedRemaining := decodedRemaining - fetched.value.decodedCharacters;
        var absorbed;
        absorbed, seenRows := AbsorbFetchedPage(q, progress, seenRows, fetched.value.page);
        OneMorePage(q, before, fetched.value.page);
        OpenSoFar(q, before, fetched.value.page);
        if absorbed.Err? {
          OtherFailures(RefusalError(absorbed.error), client.requests, client.ctx.MustStop());
          return Err(RefusalError(absorbed.error));
        }
        progress := absorbed.value;
        if progress.finished { return Ok(SortByTime(progress.events)); }
        cursor := Some(progress.cursors[|progress.cursors| - 1]);
      }
      SettledFollows(q, client.requests, client.pages);
      PacedMeans(client.requests, pacer.lastStart, client.ctx.deadline, client.ctx.clock.now);
      OtherFailures(TooMuchHistory, client.requests, client.ctx.MustStop());
      return Err(TooMuchHistory);
    }
  }

  lemma NothingIsBudgeted(secrets: Option<seq<string>>)
    ensures IsBudgeted([]) && Charged([]) == 0 && AreDelivered(secrets, [], [])
  {
  }

  lemma StartIsCollected(q: Query)
    ensures Collect(q, []) == Ok(START) && IsIndexOf(map[], [])
    ensures LastCursor(START) == None && FollowsPages(q, [], []) && OpenBefore(q, [])
  {
  }

  /** Every page but the last was accepted and announced a further one. */
  ghost predicate OpenBefore(q: Query, pages: seq<map<string, Value>>) {
    forall k | 0 <= k < |pages| :: Collect(q, pages[..k]).Ok? && !Collect(q, pages[..k]).value.finished
  }

  lemma OpenSoFar(q: Query, pages: seq<map<string, Value>>, page: map<string, Value>)
    requires OpenBefore(q, pages) && Collect(q, pages).Ok? && !Collect(q, pages).value.finished
    ensures OpenBefore(q, pages + [page])
  {
    hide Collect;
    assert pages[..|pages|] == pages;
    forall k | 0 <= k <= |pages| ensures (pages + [page])[..k] == pages[..k] {
    }
  }

  lemma OneMorePage(q: Query, pages: seq<map<string, Value>>, page: map<string, Value>)
    requires Collect(q, pages).Ok?
    ensures Collect(q, pages + [page]) == AbsorbPage(q, Collect(q, pages).value, page)
    ensures var p := AbsorbPage(q, Collect(q, pages).value, page);
      p.Ok? && !p.value.finished ==>
        && |p.value.cursors| == |Collect(q, pages).value.cursors| + 1
        && LastCursor(p.value) == Some(p.value.cursors[|p.value.cursors| - 1])
  {
    hide AbsorbPage, LastCursor;
    assert (pages + [page])[..|pages|] == pages && (pages + [page])[|pages|] == page;
    OpenPageGivesCursor(q, Collect(q, pages).value, page);
  }

  lemma OpenPageGivesCursor(q: Query, before: Progress, page: map<string, Value>)
    ensures var p := AbsorbPage(q, before, page);
      p.Ok? && !p.value.finished ==>
        && |p.value.cursors| == |before.cursors| + 1
        && LastCursor(p.value) == Some(p.value.cursors[|p.value.cursors| - 1])
  {
    hide AbsorbRows, ReadPage, NextCursor;
  }

  /** The dictionary holds exactly the moments of the events, with their values. */
  ghost predicate IsIndexOf(index: map<int, Decimal>, events: seq<Event>) {
    && DistinctTimes(events)
    && (forall i | 0 <= i < |events| :: events[i].timeMs in index && index[events[i].timeMs] == events[i].value)
    && (forall t | t in index :: HasTime(events, t))
  }

  lemma IndexFinds(index: map<int, Decimal>, events: seq<Event>, timeMs: int)
    requires IsIndexOf(index, events)
    ensures timeMs in index <==> EventAt(events, timeMs).Some?
    ensures timeMs in index ==> events[EventAt(events, timeMs).value].value == index[timeMs]
  {
  }

  lemma IndexGrows(index: map<int, Decimal>, events: seq<Event>, e: Event)
    requires IsIndexOf(index, events) && EventAt(events, e.timeMs).None?
    ensures IsIndexOf(index[e.timeMs := e.value], events + [e])
  {
    var index', events' := index[e.timeMs := e.value], events + [e];
    forall t | t in index' ensures HasTime(events', t) {
      if t == e.timeMs {
        assert events'[|events|].timeMs == t;
      } else {
        var i :| 0 <= i < |events| && events[i].timeMs == t;
        assert events'[i].timeMs == t;
      }
    }
  }

  /** A refused row refuses every longer list of rows that starts the same way. */
  lemma {:induction false} RefusalStays(q: Query, events: seq<Event>, rows: seq<Value>, n: nat)
    requires n <= |rows| && AbsorbRows(q, events, rows[..n]).Err?
    ensures AbsorbRows(q, events, rows) == AbsorbRows(q, events, rows[..n])
    decreases |rows|
  {
    if n == |rows| {
      assert rows[..n] == rows;
    } else {
      assert rows[..|rows| - 1][..n] == rows[..n];
      RefusalStays(q, events, rows[..|rows| - 1], n);
    }
  }
}
