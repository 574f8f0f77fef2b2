/**
 * Whole fetches: how much they read beyond what they charge, the runs that reach it, and concrete
 * histories (src/tatatuya/infrastructure/tuya/report_logs.py).
 */
module FetchRuns {
  import opened Client
  import opened Common
  import opened Decimals
  import opened Energy
  import opened Json
  import opened Redaction
  import opened RedactedHistory
  import opened ReportLogs

  // ------------------------------------------------------------ bytes of a whole run

  /** Bytes that attempts read and did not charge, because they failed. */
  function Failed(requests: seq<Request>): nat {
    if requests == [] then 0
    else
      var last := requests[|requests| - 1];
      Failed(requests[..|requests| - 1]) + if last.error.Some? then last.read else 0
  }

  function Accepted(requests: seq<Request>): nat {
    if requests == [] then 0
    else Accepted(requests[..|requests| - 1]) + if requests[|requests| - 1].error.None? then 1 else 0
  }

  lemma {:induction false} ReadIsChargedOrFailed(requests: seq<Request>)
    ensures Read(requests) == Charged(requests) + Failed(requests)
    ensures (forall i | 0 <= i < |requests| && requests[i].error.Some? :: requests[i].read == 0) ==> Failed(requests) == 0
  {
    if requests != [] {
      var front := requests[..|requests| - 1];
      ReadIsChargedOrFailed(front);
      assert forall i | 0 <= i < |front| :: front[i] == requests[i];
    }
  }

  lemma PrefixInOrder(requests: seq<Request>, n: nat)
    requires InOrder(requests) && n <= |requests|
    ensures InOrder(requests[..n])
  {
    forall i | 0 <= i < n ensures ComesInOrder(requests[..n], i) {
      assert ComesInOrder(requests, i);
    }
  }

  /** Accepted pages are counted by the log, and at most three attempts go to each. */
  lemma {:induction false} AttemptsPerPage(requests: seq<Request>)
    requires InOrder(requests) && requests != []
    ensures
      var last := requests[|requests| - 1];
      && Accepted(requests) == last.accepted + (if last.error.None? then 1 else 0)
      && |requests| <= 3 * last.accepted + 3
    decreases |requests|
  {
    var n := |requests|;
    assert ComesInOrder(requests, n - 1);
    if n > 1 {
      PrefixInOrder(requests, n - 1);
      AttemptsPerPage(requests[..n - 1]);
    } else {
      assert requests[..0] == [];
    }
    if n > 3 {
      PrefixInOrder(requests, n - 3);
      AttemptsPerPage(requests[..n - 3]);
    }
  }

  /** An attempt that is not the last one was accepted or rate-limited. */
  lemma OnlyTheLastFailsOtherwise(requests: seq<Request>, i: nat)
    requires InOrder(requests) && i < |requests| - 1
    ensures requests[i].error.None? || requests[i].error == LIMITED
  {
    assert ComesInOrder(requests, i + 1);
  }

  lemma {:induction false} FailedAttemptsAreBounded(requests: seq<Request>)
    requires IsBudgeted(requests) && requests != []
    requires forall i | 0 <= i < |requests| - 1 :: requests[i].error.None? || requests[i].error == LIMITED
    ensures
      var last := requests[|requests| - 1];
      Failed(requests) <= (|requests| - Accepted(requests)) * PAGE_LIMIT
                          + (if last.error.None? || last.error == LIMITED then 0 else 1)
    decreases |requests|
  {
    var front, last := requests[..|requests| - 1], requests[|requests| - 1];
    assert ReadsWithin(last);
    if front != [] {
      assert IsBudgeted(front) by {
        forall i | 0 <= i < |front| ensures front[i].allowance + Charged(front[..i]) == MAX_TOTAL_RAW && ReadsWithin(front[i]) {
          assert front[..i] == requests[..i] && front[i] == requests[i];
        }
      }
      assert forall i | 0 <= i < |front| :: front[i] == requests[i];
      FailedAttemptsAreBounded(front);
    }
  }

  /**
   * What a run reads in all: its charged bytes, and for each failed attempt at most 1 MiB, the last one a
   * byte more. Without a failed attempt that read a body this is at most 10 MiB; with every page accepted
   * in the end, at most 110 MiB.
   */
  lemma ReadIsBounded(requests: seq<Request>)
    requires InOrder(requests) && IsBudgeted(requests) && Charged(requests) <= MAX_TOTAL_RAW
    requires Accepted(requests) <= MAX_PAGES && requests != []
    ensures Read(requests) <= MAX_TOTAL_RAW + (|requests| - Accepted(requests)) * PAGE_LIMIT + 1
    ensures (forall i | 0 <= i < |requests| && requests[i].error.Some? :: requests[i].read == 0) ==>
      Read(requests) == Charged(requests) <= MAX_TOTAL_RAW
    ensures requests[|requests| - 1].error.None? ==>
      |requests| - Accepted(requests) <= 2 * MAX_PAGES && Read(requests) <= 11 * MAX_TOTAL_RAW
  {
    ReadIsChargedOrFailed(requests);
    forall i | 0 <= i < |requests| - 1 ensures requests[i].error.None? || requests[i].error == LIMITED {
      OnlyTheLastFailsOtherwise(requests, i);
    }
    FailedAttemptsAreBounded(requests);
    AttemptsPerPage(requests);
  }

  // ------------------------------------------------------------ the most that a run of given page sizes can read

  function Sum(sizes: seq<nat>): nat {
    if sizes == [] then 0 else Sum(sizes[..|sizes| - 1]) + sizes[|sizes| - 1]
  }

  /** The longest body of a rate-limited attempt: an HTTP error's, or an envelope within what is left. */
  function LongestRefusal(remaining: nat): nat {
    if Min(PAGE_LIMIT, remaining) < ERROR_LIMIT then ERROR_LIMIT else Min(PAGE_LIMIT, remaining)
  }

  /** Two refusals of the greatest length before every page. */
  function Most(sizes: seq<nat>): nat
    requires Sum(sizes) <= MAX_TOTAL_RAW
  {
    if sizes == [] then 0
    else
      var front := sizes[..|sizes| - 1];
      Most(front) + 2 * LongestRefusal(MAX_TOTAL_RAW - Sum(front)) + sizes[|sizes| - 1]
  }

  /** The sizes of the accepted pages of a log. */
  function PageSizes(requests: seq<Request>): (sizes: seq<nat>)
    ensures Sum(sizes) == Charged(requests)
  {
    if requests == [] then []
    else
      var before, last := PageSizes(requests[..|requests| - 1]), requests[|requests| - 1];
      if last.error.None? then
        assert (before + [last.read])[..|before|] == before;
        before + [last.read]
      else before
  }

  lemma OneMoreSize(sizes: seq<nat>, size: nat)
    requires ArePageSizes(sizes) && size <= PAGE_LIMIT && Sum(sizes) + size <= MAX_TOTAL_RAW
    ensures ArePageSizes(sizes + [size])
    ensures Sum(sizes + [size]) == Sum(sizes) + size
    ensures Most(sizes + [size]) == Most(sizes) + 2 * LongestRefusal(MAX_TOTAL_RAW - Sum(sizes)) + size
  {
    assert (sizes + [size])[..|sizes|] == sizes;
  }

  lemma MostGrows(sizes: seq<nat>, size: nat)
    requires Sum(sizes) + size <= MAX_TOTAL_RAW
    ensures Sum(sizes + [size]) == Sum(sizes) + size
    ensures Most(sizes + [size]) == Most(sizes) + 2 * LongestRefusal(MAX_TOTAL_RAW - Sum(sizes)) + size
  {
    assert (sizes + [size])[..|sizes|] == sizes;
  }

  lemma PrefixIsBudgeted(requests: seq<Request>, n: nat)
    requires IsBudgeted(requests) && n <= |requests|
    ensures IsBudgeted(requests[..n])
  {
    hide Charged, ReadsWithin;
    forall i | 0 <= i < n ensures requests[..n][i].allowance + Charged(requests[..n][..i]) == MAX_TOTAL_RAW
                                  && ReadsWithin(requests[..n][i]) {
      assert requests[..n][..i] == requests[..i] && requests[..n][i] == requests[i];
    }
  }

  /** The refused attempts since the last accepted page. */
  function Pending(requests: seq<Request>): nat {
    if requests == [] || requests[|requests| - 1].error.None? then 0 else 1 + Pending(requests[..|requests| - 1])
  }

  lemma PendingAreRefused(requests: seq<Request>)
    requires Pending(requests) >= 3
    ensures |requests| >= 3 && forall i | |requests| - 3 <= i < |requests| :: requests[i].error.Some?
  {
    var two := requests[..|requests| - 1];
    assert two[..|two| - 1] == requests[..|requests| - 2];
    assert Pending(two) >= 2 && Pending(requests[..|requests| - 2]) >= 1;
  }

  lemma NotThreeInARow(requests: seq<Request>)
    requires InOrder(requests) && |requests| > 3
    ensures var n := |requests|;
      requests[n - 2].error.None? || requests[n - 3].error.None? || requests[n - 4].error.None?
  {
    var n := |requests|;
    assert ComesInOrder(requests, n - 1) && ComesInOrder(requests, n - 2) && ComesInOrder(requests, n - 3);
  }

  /** At most two refusals come before an attempt. */
  lemma TwoRefusalsAtMost(requests: seq<Request>)
    requires InOrder(requests) && requests != []
    ensures Pending(requests[..|requests| - 1]) <= 2
  {
    hide Pending, InOrder;
    if |requests| > 3 {
      NotThreeInARow(requests);
    }
    if Pending(requests[..|requests| - 1]) >= 3 {
      PendingAreRefused(requests[..|requests| - 1]);
    }
  }

  /** One more attempt: a refusal is pending, an accepted page settles at most two of them. */
  lemma OneMoreRead(read: nat, most: nat, pending: nat, bound: nat, more: nat)
    requires read <= most + pending * bound
    ensures more <= bound ==> read + more <= most + (1 + pending) * bound
    ensures pending <= 2 ==> read + more <= most + 2 * bound + more
  {
  }

  lemma LastRequest(requests: seq<Request>)
    requires requests != []
    ensures
      var front, last := requests[..|requests| - 1], requests[|requests| - 1];
      && Read(requests) == Read(front) + last.read
      && Charged(requests) == Charged(front) + (if last.error.None? then last.read else 0)
      && PageSizes(requests) == (if last.error.None? then PageSizes(front) + [last.read] else PageSizes(front))
      && Pending(requests) == if last.error.None? then 0 else 1 + Pending(front)
  {
  }

  /** What a run has read at any moment: the most for the pages accepted so far, and the refusals since. */
  lemma {:induction false} PendingReads(requests: seq<Request>)
    requires InOrder(requests) && IsBudgeted(requests)
    requires forall i | 0 <= i < |requests| :: requests[i].error.None? || requests[i].error == LIMITED
    ensures Charged(requests) <= MAX_TOTAL_RAW
    ensures Read(requests) <= Most(PageSizes(requests)) + Pending(requests) * LongestRefusal(MAX_TOTAL_RAW - Charged(requests))
    decreases |requests|
  {
    hide InOrder, IsBudgeted, Most, Sum, LongestRefusal, Read, Charged, PageSizes, Pending;
    if requests == [] {
      NothingIsMost();
    } else {
      var front, last := requests[..|requests| - 1], requests[|requests| - 1];
      PrefixInOrder(requests, |front|);
      PrefixIsBudgeted(requests, |front|);
      PendingReads(front);
      TwoRefusalsAtMost(requests);
      LastRequest(requests);
      LastReadsWithin(requests);
      var bound := LongestRefusal(MAX_TOTAL_RAW - Charged(front));
      OneMoreRead(Read(front), Most(PageSizes(front)), Pending(front), bound, last.read);
      if last.error.None? {
        MostGrows(PageSizes(front), last.read);
      }
    }
  }

  lemma NothingIsMost()
    ensures Most([]) == 0 && Charged([]) == 0 && Read([]) == 0 && PageSizes([]) == []
  {
  }

  lemma LastReadsWithin(requests: seq<Request>)
    requires IsBudgeted(requests) && requests != []
    requires var last := requests[|requests| - 1]; last.error.None? || last.error == LIMITED
    ensures
      var front, last := requests[..|requests| - 1], requests[|requests| - 1];
      && Charged(front) <= MAX_TOTAL_RAW
      && last.read <= LongestRefusal(MAX_TOTAL_RAW - Charged(front))
      && (last.error.None? ==> Charged(front) + last.read <= MAX_TOTAL_RAW)
  {
    assert ReadsWithin(requests[|requests| - 1]);
  }

  /** No run that ends with an accepted page reads more than the most for the sizes of its pages. */
  lemma NoRunReadsMore(requests: seq<Request>)
    requires InOrder(requests) && IsBudgeted(requests)
    requires requests != [] ==> requests[|requests| - 1].error.None?
    ensures Charged(requests) <= MAX_TOTAL_RAW && Read(requests) <= Most(PageSizes(requests))
  {
    hide InOrder, IsBudgeted, Most, PageSizes, Charged, Read;
    forall i | 0 <= i < |requests| ensures requests[i].error.None? || requests[i].error == LIMITED {
      if i < |requests| - 1 {
        OnlyTheLastFailsOtherwise(requests, i);
      }
    }
    PendingReads(requests);
  }

  // ------------------------------------------------------------ sample pages

  const FIVE: Decimal := DecimalParts.Decimal(false, "5", 0)

  const SAMPLE: Query := Query("meter", "energy", 0, 9_000)

  /** One report of the value 5 at millisecond 5, as the transport parses it. */
  function SampleRow(): Value {
    Obj(map["code" := Str("energy"), "event_time" := Num(FIVE), "value" := Num(FIVE)])
  }

  function SampleEvent(): Event {
    Event("meter", "energy", 5, FIVE, SampleRow())
  }

  function Copies(n: nat): seq<Value> {
    seq(n, _ => SampleRow())
  }

  function EndPage(n: nat): map<string, Value> {
    map["hasMore" := Bool(false), "logs" := Arr(Copies(n))]
  }

  function OpenPage(n: nat, cursor: string): map<string, Value> {
    map["hasMore" := Bool(true), "logs" := Arr(Copies(n)), "lastRowKey" := Str(cursor)]
  }

  lemma FiveFits()
    ensures Fits(FIVE)
  {
    hide CanonicalText, FixedText;
    assert Reduced(FIVE) == FIVE;
    CanonicalIsReducedText(FIVE);
    FixedTextLength(FIVE);
  }

  lemma FiveIsAnInteger()
    ensures NonNegativeInteger(Num(FIVE)) == Ok(5)
  {
    assert "5"[..0] == [];
    assert ToNat("5") == 5;
    assert Pow10(0) == 1;
  }

  lemma FiveIsAReport()
    ensures ParseReportDecimal(Num(FIVE)) == Ok(FIVE)
  {
    hide CanonicalText, Fits, ToNat;
    FiveFits();
    assert ScientificText(FIVE) == "5";
  }

  lemma SampleRowParses()
    ensures ParseEvent(SAMPLE, SampleRow()) == Ok(SampleEvent())
  {
    hide Fits, NonNegativeInteger, ParseReportDecimal;
    FiveFits();
    FiveIsAnInteger();
    FiveIsAReport();
    var fields := SampleRow().fields;
    assert Field(fields, "event_time") == Num(FIVE) && Field(fields, "value") == Num(FIVE);
    assert DiagnosticFits(Num(FIVE)) && DiagnosticFits(Str("energy"));
    forall k | k in fields ensures DiagnosticFits(fields[k]) {
    }
  }

  /** However often the row is repeated, one event is kept. */
  lemma {:induction false} CopiesAreOneEvent(known: seq<Event>, n: nat)
    requires known == [] || known == [SampleEvent()]
    ensures AbsorbRows(SAMPLE, known, Copies(n)) == Ok(if n == 0 then known else [SampleEvent()])
  {
    hide ParseEvent, NumEq, SampleRow, SampleEvent;
    if n > 0 {
      CopiesAreOneEvent(known, n - 1);
      assert Copies(n)[..n - 1] == Copies(n - 1);
      OneCopy(if n == 1 then known else [SampleEvent()]);
    }
  }

  lemma OneCopy(known: seq<Event>)
    requires known == [] || known == [SampleEvent()]
    ensures AbsorbRow(SAMPLE, known, SampleRow()) == Ok([SampleEvent()])
  {
    hide ParseEvent, NumEq;
    SampleRowParses();
    SelfEqual(FIVE);
    if known != [] {
      assert EventAt(known, 5) == Some(0) && known[0].value == FIVE;
    } else {
      assert EventAt(known, 5) == None;
      assert known + [SampleEvent()] == [SampleEvent()];
    }
  }

  lemma EndPageIsAccepted(p: Progress, n: nat)
    requires p.events == [] || p.events == [SampleEvent()]
    requires p.total.None? && |p.events| + n <= MAX_ROWS
    ensures AbsorbPage(SAMPLE, p, EndPage(n))
         == Ok(Progress(if n == 0 then p.events else [SampleEvent()], None, p.cursors, true))
  {
    hide SampleRow, SampleEvent, AbsorbRows, NonNegativeInteger, NextCursor;
    CopiesAreOneEvent(p.events, n);
  }

  lemma OpenPageIsAccepted(p: Progress, n: nat, cursor: string)
    requires p.events == [] || p.events == [SampleEvent()]
    requires p.total.None? && 0 < n && |p.events| + n <= MAX_ROWS && cursor != "" && cursor !in p.cursors
    ensures AbsorbPage(SAMPLE, p, OpenPage(n, cursor))
         == Ok(Progress([SampleEvent()], None, p.cursors + [cursor], false))
  {
    hide SampleRow, SampleEvent, AbsorbRows, NonNegativeInteger;
    CopiesAreOneEvent(p.events, n);
  }

  // ------------------------------------------------------------ more rows than the documented cap

  predicate WithinCap(rows: nat, more: nat) {
    rows + more <= MAX_ROWS
  }

  /**
   * The code's cap counts kept events and the page's rows, its description counts all returned rows. What the
   * description admits the code admits; they admit the same next pages exactly when no row so far was a repeat.
   */
  lemma CapsAgreeExactly(q: Query, pages: seq<map<string, Value>>)
    requires Collect(q, pages).Ok?
    ensures
      var kept, returned := |Collect(q, pages).value.events|, |AllRows(q, pages)|;
      && (forall rows: nat | WithinCap(returned, rows) :: WithinCap(kept, rows))
      && ((forall rows: nat | WithinCap(kept, rows) :: WithinCap(returned, rows)) <==> kept == returned)
  {
    hide Collect, AllRows, Represents;
    EventsAreFewer(q, pages);
    CollectedIsExact(q, pages);
    var kept, returned := |Collect(q, pages).value.events|, |AllRows(q, pages)|;
    if kept != returned {
      var rows: nat := MAX_ROWS - kept;
      assert WithinCap(kept, rows) && !WithinCap(returned, rows);
    }
  }

  lemma {:induction false} EventsAreFewer(q: Query, pages: seq<map<string, Value>>)
    requires Collect(q, pages).Ok?
    ensures |Collect(q, pages).value.events| <= |AllRows(q, pages)|
  {
    hide AbsorbRows, NextCursor, ReadPage;
    if pages != [] {
      var front, page := pages[..|pages| - 1], pages[|pages| - 1];
      EventsAreFewer(q, front);
      var before := Collect(q, front).value;
      PageRows(q, page, before.total);
      CollectedIsExact(q, front);
      AbsorbedRowsAreRepresented(q, before.events, AllRows(q, front), ReadPage(q, page, before.total).value.rows);
    }
  }

  /** Two accepted pages with 9,800 rows between them, all repeating one event. */
  lemma RepeatedRowsPassTheCap() returns (pages: seq<map<string, Value>>)
    ensures Collect(SAMPLE, pages) == Ok(Progress([SampleEvent()], None, ["a"], true))
    ensures |AllRows(SAMPLE, pages)| == 9_800 > MAX_ROWS
  {
    pages := [OpenPage(4_900, "a"), EndPage(4_900)];
    hide AbsorbPage, SampleRow, SampleEvent;
    OpenPageIsAccepted(START, 4_900, "a");
    EndPageIsAccepted(Progress([SampleEvent()], None, ["a"], false), 4_900);
    assert pages[..1] == [pages[0]] && pages[..1][..0] == [];
    assert START.cursors + ["a"] == ["a"];
  }

  // ------------------------------------------------------------ an event that redaction loses

  /** A history of one event: accepted as the transport parsed it, refused as the client delivers it. */
  lemma EventIsLost(secrets: seq<string>)
    ensures Collect(SAMPLE, [Delivered(None, EndPage(1))]) == Ok(Progress([SampleEvent()], None, [], true))
    ensures Collect(SAMPLE, [Delivered(Some(secrets), EndPage(1))]).Err?
  {
    hide AbsorbPage, SampleEvent, Redacted, DecimalNumbers;
    EndPageIsAccepted(START, 1);
    PageIsAcceptedExactly(SAMPLE, secrets, EndPage(1));
    assert [EndPage(1)][..0] == [];
    assert [Delivered(Some(secrets), EndPage(1))][..0] == [];
    assert Copies(1) != [];
  }

  // ------------------------------------------------------------ the runs that read the most

  /** Sizes that pages can be charged one after the other. */
  predicate ArePageSizes(sizes: seq<nat>)
    ensures ArePageSizes(sizes) ==> Sum(sizes) <= MAX_TOTAL_RAW
  {
    if sizes == [] then true
    else
      var front, last := sizes[..|sizes| - 1], sizes[|sizes| - 1];
      ArePageSizes(front) && last <= PAGE_LIMIT && Sum(front) + last <= MAX_TOTAL_RAW
  }

  function PageCursor(page: nat): Option<string> {
    if page == 0 then None else Some(Digits(page - 1))
  }

  /** A rate-limited attempt with the longest body that the remaining bytes let it read. */
  function Refusal(page: nat, remaining: nat, position: nat): Request {
    Request(page, PageCursor(page), position as real, true, remaining, Min(PAGE_LIMIT, remaining) < ERROR_LIMIT,
            LongestRefusal(remaining), LIMITED)
  }

  function Answer(page: nat, remaining: nat, position: nat, size: nat): Request {
    Request(page, PageCursor(page), position as real, true, remaining, false, size, None)
  }

  /** Every page refused twice and then accepted, one request a second. */
  function LongestLog(sizes: seq<nat>): (log: seq<Request>)
    requires ArePageSizes(sizes)
    ensures |log| == 3 * |sizes|
  {
    if sizes == [] then []
    else
      var front, page := sizes[..|sizes| - 1], |sizes| - 1;
      var remaining := MAX_TOTAL_RAW - Sum(front);
      LongestLog(front) + [
        Refusal(page, remaining, 3 * page),
        Refusal(page, remaining, 3 * page + 1),
        Answer(page, remaining, 3 * page + 2, sizes[page])]
  }

  function OpenPages(n: nat): seq<map<string, Value>> {
    seq(n, i requires 0 <= i < n => OpenPage(1, Digits(i)))
  }

  function Cursors(n: nat): seq<string> {
    seq(n, i requires 0 <= i < n => Digits(i))
  }

  lemma {:induction false} OpenPagesAreCollected(n: nat)
    ensures Collect(SAMPLE, OpenPages(n))
         == Ok(Progress(if n == 0 then [] else [SampleEvent()], None, Cursors(n), false))
    ensures LastCursor(Collect(SAMPLE, OpenPages(n)).value) == PageCursor(n)
  {
    hide AbsorbPage, OpenPage, SampleEvent, Digits, ToNat;
    if n > 0 {
      OpenPagesAreCollected(n - 1);
      assert OpenPages(n)[..n - 1] == OpenPages(n - 1);
      CursorIsNew(n - 1);
      OpenPageIsAccepted(Collect(SAMPLE, OpenPages(n - 1)).value, 1, Digits(n - 1));
      assert Cursors(n) == Cursors(n - 1) + [Digits(n - 1)];
    } else {
      assert OpenPages(0) == [] && Cursors(0) == [];
    }
  }

  lemma CursorIsNew(n: nat)
    ensures Digits(n) != "" && Digits(n) !in Cursors(n)
  {
    hide Digits, ToNat;
    forall i | 0 <= i < n ensures Cursors(n)[i] != Digits(n) {
      assert ToNat(Digits(i)) == i && ToNat(Digits(n)) == n;
    }
  }

  lemma LongestLogStep(sizes: seq<nat>)
    requires ArePageSizes(sizes) && sizes != []
    ensures
      var front, page := sizes[..|sizes| - 1], |sizes| - 1;
      && ArePageSizes(front) && LongestLog(front) <= LongestLog(sizes)
      && AreAttempts(LongestLog(sizes), 3 * page, page, PageCursor(page))
      && LongestLog(sizes)[3 * page + 2].error.None?
  {
    hide PageCursor, LongestRefusal;
    var front, page := sizes[..|sizes| - 1], |sizes| - 1;
    var log, remaining := LongestLog(sizes), MAX_TOTAL_RAW - Sum(front);
    assert log[3 * page] == Refusal(page, remaining, 3 * page);
    assert log[3 * page + 1] == Refusal(page, remaining, 3 * page + 1);
    assert log[3 * page + 2] == Answer(page, remaining, 3 * page + 2, sizes[page]);
  }

  lemma {:induction false} LongestLogIsSettled(sizes: seq<nat>)
    requires ArePageSizes(sizes)
    ensures IsSettled(SAMPLE, LongestLog(sizes), OpenPages(|sizes|))
  {
    hide IsSettled, AreAttempts, Collect, LastCursor, OpenPage, FollowsPages, Digits, Refusal, Answer, ArePageSizes, Sum;
    if sizes == [] {
      NothingIsSettled(SAMPLE, 1.0, 0.0);
      assert OpenPages(0) == [];
    } else {
      var front, page := sizes[..|sizes| - 1], |sizes| - 1;
      LongestLogStep(sizes);
      LongestLogIsSettled(front);
      LongestLogFollows(sizes);
      AnswerSettles(SAMPLE, LongestLog(front), LongestLog(sizes), OpenPages(page), PageCursor(page), OpenPage(1, Digits(page)));
      assert OpenPages(page + 1) == OpenPages(page) + [OpenPage(1, Digits(page))];
    }
  }

  lemma LongestLogFollows(sizes: seq<nat>)
    requires ArePageSizes(sizes) && sizes != [] && IsSettled(SAMPLE, LongestLog(sizes[..|sizes| - 1]), OpenPages(|sizes| - 1))
    ensures FollowsPages(SAMPLE, LongestLog(sizes), OpenPages(|sizes| - 1))
  {
    hide IsSettled, LongestLog, AreAttempts, Collect, LastCursor, OpenPage, FollowsPages, SampleEvent, Digits;
    LongestLogStep(sizes);
    OpenPagesAreCollected(|sizes| - 1);
    AttemptsFollow(SAMPLE, LongestLog(sizes[..|sizes| - 1]), LongestLog(sizes), OpenPages(|sizes| - 1));
  }

  lemma {:induction false} LongestLogIsPaced(sizes: seq<nat>)
    requires ArePageSizes(sizes)
    ensures forall i | 0 <= i < 3 * |sizes| :: LongestLog(sizes)[i].start == i as real && LongestLog(sizes)[i].live
  {
    if sizes != [] {
      LongestLogIsPaced(sizes[..|sizes| - 1]);
    }
  }

  lemma AttemptsReadWithin(page: nat, remaining: nat, position: nat, size: nat)
    requires size <= PAGE_LIMIT && size <= remaining
    ensures ReadsWithin(Refusal(page, remaining, position)) && ReadsWithin(Answer(page, remaining, position, size))
  {
  }

  lemma ThreeMoreRequests(log: seq<Request>, a: Request, b: Request, c: Request)
    requires IsBudgeted(log) && ReadsWithin(a) && ReadsWithin(b) && ReadsWithin(c)
    requires a.allowance + Charged(log) == b.allowance + Charged(log) == c.allowance + Charged(log) == MAX_TOTAL_RAW
    requires a.error.Some? && b.error.Some? && c.error.None?
    ensures IsBudgeted(log + [a, b, c]) && Charged(log + [a, b, c]) == Charged(log) + c.read
    ensures Read(log + [a, b, c]) == Read(log) + a.read + b.read + c.read
  {
    hide IsBudgeted, Charged, Read, ReadsWithin;
    OneMoreRequest(log, a);
    OneMoreRequest(log + [a], b);
    OneMoreRequest(log + [a] + [b], c);
    ChargedGrows(log, a);
    ChargedGrows(log + [a], b);
    ChargedGrows(log + [a] + [b], c);
    assert log + [a, b, c] == log + [a] + [b] + [c];
  }

  lemma {:induction false} LongestLogReads(sizes: seq<nat>)
    requires ArePageSizes(sizes)
    ensures IsBudgeted(LongestLog(sizes)) && Charged(LongestLog(sizes)) == Sum(sizes)
    ensures Read(LongestLog(sizes)) == Most(sizes)
  {
    hide IsBudgeted, Charged, Read;
    if sizes != [] {
      LongestLogReads(sizes[..|sizes| - 1]);
      OneMorePageRead(sizes);
    } else {
      NothingRead();
    }
  }

  lemma OneMorePageRead(sizes: seq<nat>)
    requires ArePageSizes(sizes) && sizes != [] && ArePageSizes(sizes[..|sizes| - 1])
    requires
      var before := LongestLog(sizes[..|sizes| - 1]);
      IsBudgeted(before) && Charged(before) == Sum(sizes[..|sizes| - 1]) && Read(before) == Most(sizes[..|sizes| - 1])
    ensures IsBudgeted(LongestLog(sizes)) && Charged(LongestLog(sizes)) == Sum(sizes)
    ensures Read(LongestLog(sizes)) == Most(sizes)
  {
    hide IsBudgeted, Charged, Read, ReadsWithin, LongestRefusal, PageCursor;
    var front, page := sizes[..|sizes| - 1], |sizes| - 1;
    var remaining := MAX_TOTAL_RAW - Sum(front);
    var a, b := Refusal(page, remaining, 3 * page), Refusal(page, remaining, 3 * page + 1);
    var c := Answer(page, remaining, 3 * page + 2, sizes[page]);
    AttemptsReadWithin(page, remaining, 3 * page, sizes[page]);
    AttemptsReadWithin(page, remaining, 3 * page + 1, sizes[page]);
    AttemptsReadWithin(page, remaining, 3 * page + 2, sizes[page]);
    ThreeMoreRequests(LongestLog(front), a, b, c);
  }

  lemma NothingRead()
    ensures IsBudgeted([]) && Charged([]) == 0 && Read([]) == 0
  {
  }

  /**
   * For any page sizes there is a run that reads the most: it follows its pages, is paced before any later
   * deadline, stays within the budget, and ends with a whole history.
   */
  lemma SomeRunReadsTheMost(sizes: seq<nat>, deadline: real) returns (requests: seq<Request>, pages: seq<map<string, Value>>)
    requires ArePageSizes(sizes) && 0 < |sizes| <= MAX_PAGES && deadline > 3.0 * |sizes| as real
    ensures FollowsPages(SAMPLE, requests, pages) && OpenBefore(SAMPLE, pages) && |pages| == |sizes|
    ensures IsPaced(requests, deadline) && IsBudgeted(requests) && Charged(requests) == Sum(sizes)
    ensures Collect(SAMPLE, pages).Ok? && Collect(SAMPLE, pages).value.finished
    ensures Read(requests) == Most(sizes)
  {
    hide FollowsPages, OpenBefore, Collect, IsBudgeted, Charged, Read, IsSettled, OpenPage, EndPage, SampleEvent, Digits;
    var front, page := sizes[..|sizes| - 1], |sizes| - 1;
    requests, pages := LongestLog(sizes), OpenPages(page) + [EndPage(1)];
    LongestLogIsSettled(front);
    LongestLogFollows(sizes);
    AcceptedPageFollows(SAMPLE, requests, OpenPages(page), EndPage(1));
    OpenPagesAreCollected(page);
    OneMorePage(SAMPLE, OpenPages(page), EndPage(1));
    EndPageIsAccepted(Collect(SAMPLE, OpenPages(page)).value, 1);
    OpenPagesAreOpen(page);
    OpenSoFar(SAMPLE, OpenPages(page), EndPage(1));
    LongestLogIsPaced(sizes);
    LongestLogReads(sizes);
  }

  lemma {:induction false} OpenPagesAreOpen(n: nat)
    ensures OpenBefore(SAMPLE, OpenPages(n))
  {
    hide Collect, OpenPage, Digits, SampleEvent;
    forall k | 0 <= k < n ensures OpenPages(n)[..k] == OpenPages(k) {
    }
    forall k | 0 <= k < n ensures Collect(SAMPLE, OpenPages(k)).Ok? && !Collect(SAMPLE, OpenPages(k)).value.finished {
      OpenPagesAreCollected(k);
    }
  }

  /** Four pages of 1 MiB, each refused twice with a body of 1 MiB: 12 MiB are read for 4 MiB of history. */
  lemma MoreThanTenMebibytes() returns (requests: seq<Request>, pages: seq<map<string, Value>>)
    ensures FollowsPages(SAMPLE, requests, pages) && IsPaced(requests, 30.0) && IsBudgeted(requests)
    ensures Collect(SAMPLE, pages).Ok? && Collect(SAMPLE, pages).value.finished
    ensures Charged(requests) == 4 * PAGE_LIMIT && Read(requests) == 12 * PAGE_LIMIT > MAX_TOTAL_RAW
  {
    hide FollowsPages, OpenBefore, Collect, IsPaced, IsBudgeted, Charged, Read, ArePageSizes, Most, Sum;
    NoSizes();
    OneMoreSize([], PAGE_LIMIT);
    OneMoreSize([] + [PAGE_LIMIT], PAGE_LIMIT);
    OneMoreSize([] + [PAGE_LIMIT] + [PAGE_LIMIT], PAGE_LIMIT);
    OneMoreSize([] + [PAGE_LIMIT] + [PAGE_LIMIT] + [PAGE_LIMIT], PAGE_LIMIT);
    requests, pages := SomeRunReadsTheMost([] + [PAGE_LIMIT] + [PAGE_LIMIT] + [PAGE_LIMIT] + [PAGE_LIMIT], 30.0);
  }

  lemma NoSizes()
    ensures ArePageSizes([]) && Sum([]) == 0 && Most([]) == 0
  {
  }
}
