/**
 * From fetched events to stored daily readings: time conversions, the reduction to the
 * earliest event of each local date, and the import workflow
 * (src/tatatuya/services/cloud_history_service.py).
 *
 * Instants are microseconds since the Unix epoch. A time zone is any function from instants
 * to local dates, numbered by day.
 */
module CloudHistory {
  import opened Cancellation
  import opened Common
  import opened Decimals
  import opened Energy
  import opened Fingerprint
  import Json
  import opened Readings
  import opened ReadingStore
  import opened RedactedHistory
  import opened ReportLogs

  const RECENT_LOCAL_DAYS := 7

  type Zone = int -> int

  // ------------------------------------------------------------ instants and milliseconds

  /** `_epoch_milliseconds`, over the days, seconds and microseconds of the difference to the epoch. */
  function EpochMilliseconds(instant: int): int {
    var days := instant / 86_400_000_000;
    var rest := instant % 86_400_000_000;
    days * 86_400_000 + rest / 1_000_000 * 1_000 + rest % 1_000_000 / 1_000
  }

  /** `_datetime_from_epoch_milliseconds` */
  function FromEpochMilliseconds(ms: int): int {
    ms * 1_000
  }

  /** To an instant and back is the identity; the other way rounds down by less than a millisecond. */
  lemma ConversionsUndo(ms: int, instant: int)
    ensures EpochMilliseconds(FromEpochMilliseconds(ms)) == ms
    ensures 0 <= instant - FromEpochMilliseconds(EpochMilliseconds(instant)) < 1_000
  {
    MillisecondFloor(instant);
    MillisecondFloor(ms * 1_000);
  }

  lemma MillisecondFloor(instant: int)
    ensures EpochMilliseconds(instant) == instant / 1_000
  {
    var days, rest := instant / 86_400_000_000, instant % 86_400_000_000;
    assert rest / 1_000 == rest / 1_000_000 * 1_000 + rest % 1_000_000 / 1_000;
  }

  /** `recent_utc_milliseconds`: from local midnight six days before today up to now. */
  function RecentBounds(zone: Zone, midnight: int -> int, now: int): (int, int) {
    (EpochMilliseconds(midnight(zone(now) - (RECENT_LOCAL_DAYS - 1))), EpochMilliseconds(now))
  }

  // ------------------------------------------------------------ the reduction

  datatype Specification = Specification(code: string, unit: string, scale: int, rawJson: string)

  /** `MAX_NORMALIZED_KWH` */
  const MAX_NORMALIZED: Decimal := DecimalParts.Decimal(false, "1", 30)

  datatype ReductionError = Normalization(error: EnergyError) | OutOfRange

  function LocalDate(zone: Zone, e: Event): int {
    zone(FromEpochMilliseconds(e.timeMs))
  }

  /** The reading a chosen event becomes. */
  function Candidate(e: Event, spec: Specification, date: int, details: string): Result<Reading, ReductionError> {
    var normalized := NormalizeEnergy(Numeric(Finite(e.value)), spec.scale, spec.unit);
    if normalized.Err? then Err(Normalization(normalized.error))
    else if (normalized.value.negative && !IsZero(normalized.value)) || Less(MAX_NORMALIZED, normalized.value) then
      Err(OutOfRange)
    else
      var raw := CanonicalDecimal(Finite(e.value));
      if raw.Err? then Err(Normalization(raw.error))
      else
        Ok(Reading(e.deviceId, FromEpochMilliseconds(e.timeMs), raw.value, spec.scale, spec.unit, normalized.value,
                   CLOUD_DAILY, Some(EventKeyBytes(e.deviceId, e.code, e.timeMs, raw.value)), Some(e.code),
                   Some(date), details))
  }

  /** The earliest event of a date, the first in the given order among equals. */
  function EarliestOn(zone: Zone, sorted: seq<Event>, date: int): (r: Option<Event>)
    ensures r.Some? ==> r.value in sorted && LocalDate(zone, r.value) == date
    ensures r.None? ==> forall e | e in sorted :: LocalDate(zone, e) != date
  {
    if sorted == [] then None
    else
      assert sorted == [sorted[0]] + sorted[1..];
      if LocalDate(zone, sorted[0]) == date then Some(sorted[0]) else EarliestOn(zone, sorted[1..], date)
  }

  function InsertDate(date: int, dates: seq<int>): (r: seq<int>)
    ensures forall d | d in r :: d == date || d in dates
    ensures forall d | d == date || d in dates :: d in r
  {
    if dates == [] || date < dates[0] then [date] + dates
    else
      assert dates == [dates[0]] + dates[1..];
      [dates[0]] + InsertDate(date, dates[1..])
  }

  function SortDates(dates: seq<int>): (r: seq<int>)
    ensures forall d | d in r :: d in dates
    ensures forall d | d in dates :: d in r
  {
    if dates == [] then []
    else
      assert dates == dates[..|dates| - 1] + [dates[|dates| - 1]];
      InsertDate(dates[|dates| - 1], SortDates(dates[..|dates| - 1]))
  }

  predicate IncreasingDates(dates: seq<int>) {
    forall i, j | 0 <= i < j < |dates| :: dates[i] < dates[j]
  }

  lemma {:induction false} InsertDateKeepsOrder(date: int, dates: seq<int>)
    requires IncreasingDates(dates) && date !in dates
    ensures IncreasingDates(InsertDate(date, dates))
  {
    if dates != [] && date > dates[0] {
      InsertDateKeepsOrder(date, dates[1..]);
      var rest := InsertDate(date, dates[1..]);
      forall i | 0 <= i < |rest| ensures dates[0] < rest[i] {
        assert rest[i] == date || rest[i] in dates[1..];
      }
    }
  }

  lemma {:induction false} DatesAreSorted(dates: seq<int>)
    requires forall i, j | 0 <= i < j < |dates| :: dates[i] != dates[j]
    ensures IncreasingDates(SortDates(dates))
  {
    if dates != [] {
      var front, last := dates[..|dates| - 1], dates[|dates| - 1];
      DatesAreSorted(front);
      assert last !in SortDates(front);
      InsertDateKeepsOrder(last, SortDates(front));
    }
  }

  /**
   * What a reduction is: the distinct local dates of the events in order, each with an event of
   * that date that no other event of the date precedes, the first in the given order of its moment.
   */
  ghost predicate IsDailyReduction(zone: Zone, events: seq<Event>, dates: seq<int>, chosen: seq<Event>) {
    && |dates| == |chosen|
    && IncreasingDates(dates)
    && (forall i | 0 <= i < |dates| :: chosen[i] in events && LocalDate(zone, chosen[i]) == dates[i])
    && (forall e | e in events :: LocalDate(zone, e) in dates)
    && (forall i, e | 0 <= i < |dates| && e in events && LocalDate(zone, e) == dates[i] :: chosen[i].timeMs <= e.timeMs)
    && (forall i | 0 <= i < |dates| :: IsFirstOfItsMoment(events, chosen[i]))
  }

  predicate IsFirstOfItsMoment(events: seq<Event>, e: Event) {
    var moment := AtTime(events, e.timeMs);
    moment != [] && moment[0] == e
  }

  /** No event of the moment stands before the first with its time. */
  lemma {:induction false} FirstAtTime(events: seq<Event>, i: nat)
    requires i < |events| && forall j | 0 <= j < i :: events[j].timeMs != events[i].timeMs
    ensures IsFirstOfItsMoment(events, events[i])
    decreases |events|
  {
    var front := events[..|events| - 1];
    if i < |front| {
      assert front[i] == events[i] && forall j | 0 <= j < i :: front[j] == events[j];
      FirstAtTime(front, i);
    } else {
      assert forall j | 0 <= j < |front| :: front[j] == events[j];
      NoneAtTime(front, events[i].timeMs);
    }
  }

  lemma {:induction false} NoneAtTime(events: seq<Event>, timeMs: int)
    requires forall j | 0 <= j < |events| :: events[j].timeMs != timeMs
    ensures AtTime(events, timeMs) == []
  {
    if events != [] {
      NoneAtTime(events[..|events| - 1], timeMs);
    }
  }

  /** `earliest.setdefault(local_date, event)` over the events in time order; `found` keeps the dictionary's order. */
  method FillEarliest(sorted: seq<Event>, zone: Zone) returns (earliest: map<int, Event>, found: seq<int>)
    requires InTimeOrder(sorted)
    ensures forall a, b | 0 <= a < b < |found| :: found[a] != found[b]
    ensures forall d :: d in found <==> d in earliest
    ensures forall j | 0 <= j < |sorted| ::
      LocalDate(zone, sorted[j]) in earliest && earliest[LocalDate(zone, sorted[j])].timeMs <= sorted[j].timeMs
    ensures forall d | d in earliest :: earliest[d] in sorted && LocalDate(zone, earliest[d]) == d
    ensures forall d | d in earliest :: IsFirstOfItsMoment(sorted, earliest[d])
  {
    hide IsFirstOfItsMoment, InTimeOrder;
    TimeOrder(sorted);
    earliest := map[];
    found := [];
    for i := 0 to |sorted|
      invariant forall a, b | 0 <= a < b < |found| :: found[a] != found[b]
      invariant forall d :: d in found <==> d in earliest
      invariant forall j | 0 <= j < i ::
        LocalDate(zone, sorted[j]) in earliest && earliest[LocalDate(zone, sorted[j])].timeMs <= sorted[j].timeMs
      invariant forall d | d in earliest :: earliest[d] in sorted && LocalDate(zone, earliest[d]) == d
      invariant forall d, j | d in earliest && i <= j < |sorted| :: earliest[d].timeMs <= sorted[j].timeMs
      invariant forall d | d in earliest :: IsFirstOfItsMoment(sorted, earliest[d])
    {
      var date := LocalDate(zone, sorted[i]);
      if date !in earliest {
        FirstAtTime(sorted, i);
        earliest := earliest[date := sorted[i]];
        found := found + [date];
      }
    }
  }

  lemma TimeOrder(sorted: seq<Event>)
    requires InTimeOrder(sorted)
    ensures forall i, j | 0 <= i <= j < |sorted| :: sorted[i].timeMs <= sorted[j].timeMs
  {
  }

  /** `reduce_daily_events`: the dictionary filled in time order, then the candidates in date order. */
  method ReduceDailyEvents(events: seq<Event>, spec: Specification, zone: Zone, details: string)
    returns (r: Result<seq<Reading>, ReductionError>)
    ensures IsReduced(zone, events, spec, details, r)
  {
    hide Candidate, SortByTime, IsDailyReduction, LocalDate, SortDates, AreAnswered, IsFirstOfItsMoment, InTimeOrder;
    var sorted := SortByTime(events);
    SortingOrders(events);
    var earliest, found := FillEarliest(sorted, zone);
    var dates := SortDates(found);
    DatesAreSorted(found);
    assert forall i | 0 <= i < |dates| :: dates[i] in dates && dates[i] in found;
    var chosen := seq(|dates|, i requires 0 <= i < |dates| => earliest[dates[i]]);
    ReductionHolds(zone, events, sorted, earliest, dates, chosen);
    r := BuildCandidates(chosen, spec, dates, details);
  }

  method BuildCandidates(chosen: seq<Event>, spec: Specification, dates: seq<int>, details: string)
    returns (r: Result<seq<Reading>, ReductionError>)
    requires |chosen| == |dates|
    ensures AreAnswered(chosen, spec, dates, details, r)
  {
    hide Candidate;
    var candidates: seq<Reading> := [];
    for i := 0 to |dates|
      invariant |candidates| == i
      invariant forall j | 0 <= j < i :: Candidate(chosen[j], spec, dates[j], details) == Ok(candidates[j])
    {
      var candidate := Candidate(chosen[i], spec, dates[i], details);
      if candidate.Err? { return Err(candidate.error); }
      candidates := candidates + [candidate.value];
    }
    return Ok(candidates);
  }

  /** All chosen events become candidates, or the first that cannot says why. */
  predicate AreAnswered(chosen: seq<Event>, spec: Specification, dates: seq<int>, details: string,
                        r: Result<seq<Reading>, ReductionError>)
    requires |chosen| == |dates|
  {
    match r
    case Ok(batch) => AreCandidates(chosen, spec, dates, details, batch)
    case Err(error) =>
      exists i | 0 <= i < |dates| ::
        Candidate(chosen[i], spec, dates[i], details) == Err(error)
        && forall j | 0 <= j < i :: Candidate(chosen[j], spec, dates[j], details).Ok?
  }

  /** What `reduce_daily_events` returns: the answer over the earliest events of the distinct dates, in date order. */
  ghost predicate IsReduced(zone: Zone, events: seq<Event>, spec: Specification, details: string,
                            r: Result<seq<Reading>, ReductionError>) {
    exists dates, chosen ::
      IsDailyReduction(zone, events, dates, chosen) && |chosen| == |dates| && AreAnswered(chosen, spec, dates, details, r)
  }

  predicate AreCandidates(chosen: seq<Event>, spec: Specification, dates: seq<int>, details: string, batch: seq<Reading>) {
    && |batch| == |dates| == |chosen|
    && forall i | 0 <= i < |dates| :: Candidate(chosen[i], spec, dates[i], details) == Ok(batch[i])
  }

  lemma ReductionHolds(zone: Zone, events: seq<Event>, sorted: seq<Event>, earliest: map<int, Event>,
                       dates: seq<int>, chosen: seq<Event>)
    requires sorted == SortByTime(events) && IncreasingDates(dates) && |dates| == |chosen|
    requires forall d | d in dates :: d in earliest
    requires forall d | d in earliest :: d in dates
    requires forall i | 0 <= i < |dates| :: chosen[i] == earliest[dates[i]]
    requires forall j | 0 <= j < |sorted| ::
      LocalDate(zone, sorted[j]) in earliest && earliest[LocalDate(zone, sorted[j])].timeMs <= sorted[j].timeMs
    requires forall d | d in earliest :: earliest[d] in sorted && LocalDate(zone, earliest[d]) == d
    requires forall d | d in earliest :: IsFirstOfItsMoment(sorted, earliest[d])
    ensures IsDailyReduction(zone, events, dates, chosen)
  {
    hide SortByTime, AtTime;
    forall i | 0 <= i < |dates|
      ensures chosen[i] in events && LocalDate(zone, chosen[i]) == dates[i] && IsFirstOfItsMoment(events, chosen[i])
    {
      assert dates[i] in dates;
      SortingKeepsMembers(events, chosen[i]);
      SortingKeepsMoments(events, chosen[i].timeMs);
    }
    forall e | e in events
      ensures LocalDate(zone, e) in earliest && earliest[LocalDate(zone, e)].timeMs <= e.timeMs
    {
      SortingKeepsMembers(events, e);
      var j :| 0 <= j < |sorted| && sorted[j] == e;
    }
  }

  /** One list of events has one reduction. */
  lemma ReductionIsDetermined(zone: Zone, events: seq<Event>, dates: seq<int>, chosen: seq<Event>,
                              dates': seq<int>, chosen': seq<Event>)
    requires IsDailyReduction(zone, events, dates, chosen) && IsDailyReduction(zone, events, dates', chosen')
    ensures dates == dates' && chosen == chosen'
  {
    hide AtTime;
    SameReductionDates(zone, events, events, dates, chosen, dates', chosen');
    forall i | 0 <= i < |dates| ensures chosen[i] == chosen'[i] {
      assert chosen[i].timeMs <= chosen'[i].timeMs <= chosen[i].timeMs;
      assert IsFirstOfItsMoment(events, chosen[i]) && IsFirstOfItsMoment(events, chosen'[i]);
    }
  }

  lemma SameReductionDates(zone: Zone, events: seq<Event>, others: seq<Event>,
                           dates: seq<int>, chosen: seq<Event>, dates': seq<int>, chosen': seq<Event>)
    requires forall e :: e in events <==> e in others
    requires IsDailyReduction(zone, events, dates, chosen) && IsDailyReduction(zone, others, dates', chosen')
    ensures dates == dates'
  {
    hide IsFirstOfItsMoment;
    forall d | d in dates ensures d in dates' {
      var i :| 0 <= i < |dates| && dates[i] == d;
      assert chosen[i] in others;
    }
    forall d | d in dates' ensures d in dates {
      var i :| 0 <= i < |dates'| && dates'[i] == d;
      assert chosen'[i] in events;
    }
    SameDates(dates, dates');
  }

  /** A reduction is determined by the set of events: neither their order nor repetition matters. */
  lemma ReductionIgnoresOrder(zone: Zone, events: seq<Event>, others: seq<Event>,
                              dates: seq<int>, chosen: seq<Event>, dates': seq<int>, chosen': seq<Event>)
    requires DistinctTimes(events) && forall e :: e in events <==> e in others
    requires IsDailyReduction(zone, events, dates, chosen) && IsDailyReduction(zone, others, dates', chosen')
    ensures dates == dates' && chosen == chosen'
  {
    hide IsFirstOfItsMoment;
    SameReductionDates(zone, events, others, dates, chosen, dates', chosen');
    forall i | 0 <= i < |dates| ensures chosen[i] == chosen'[i] {
      assert chosen[i].timeMs <= chosen'[i].timeMs <= chosen[i].timeMs;
      var x :| 0 <= x < |events| && events[x] == chosen[i];
      var y :| 0 <= y < |events| && events[y] == chosen'[i];
      assert x == y;
    }
  }

  /** Dropping the last of an increasing sequence drops exactly its greatest member. */
  lemma WithoutLast(a: seq<int>, d: int)
    requires IncreasingDates(a) && a != []
    ensures a[|a| - 1] in a && (d in a ==> d <= a[|a| - 1])
    ensures d in a[..|a| - 1] <==> d in a && d != a[|a| - 1]
    ensures IncreasingDates(a[..|a| - 1])
  {
    assert a == a[..|a| - 1] + [a[|a| - 1]];
  }

  /** Increasing sequences with the same members are equal. */
  lemma {:induction false} SameDates(a: seq<int>, b: seq<int>)
    requires IncreasingDates(a) && IncreasingDates(b)
    requires forall d :: d in a <==> d in b
    ensures a == b
  {
    if a != [] {
      assert a[0] in a;
    }
    if b != [] {
      assert b[0] in b;
    }
    if a != [] {
      hide IncreasingDates;
      var x, y := a[|a| - 1], b[|b| - 1];
      var a', b' := a[..|a| - 1], b[..|b| - 1];
      WithoutLast(a, y);
      WithoutLast(b, x);
      forall d ensures d in a' <==> d in b' {
        WithoutLast(a, d);
        WithoutLast(b, d);
      }
      SameDates(a', b');
      assert a == a' + [x] && b == b' + [y];
    }
  }

  /** A zone whose dates never go back, with midnights that open their dates. */
  ghost predicate IsCalendar(zone: Zone, midnight: int -> int) {
    && (forall s, t | s <= t :: zone(s) <= zone(t))
    && (forall d :: zone(midnight(d)) == d && midnight(d) % 1_000 == 0)
  }

  /** Events inside the recent bounds of a calendar fall on at most seven local dates. */
  lemma AtMostSevenDays(zone: Zone, midnight: int -> int, now: int, events: seq<Event>, dates: seq<int>, chosen: seq<Event>)
    requires IsCalendar(zone, midnight) && IsDailyReduction(zone, events, dates, chosen)
    requires var (low, high) := RecentBounds(zone, midnight, now);
      forall e | e in events :: low <= e.timeMs <= high
    ensures |dates| <= 7
    ensures forall d | d in dates :: zone(now) - 6 <= d <= zone(now)
  {
    hide IsFirstOfItsMoment;
    var first := zone(now) - 6;
    MillisecondFloor(midnight(first));
    MillisecondFloor(now);
    forall d | d in dates ensures first <= d <= zone(now) {
      var i :| 0 <= i < |dates| && dates[i] == d;
      var instant := FromEpochMilliseconds(chosen[i].timeMs);
      assert midnight(first) <= instant <= now;
      assert zone(midnight(first)) == first;
    }
    SpreadBound(dates, first, zone(now));
  }

  /** Midnight is the first instant of its date: every earlier one has an earlier date. */
  ghost predicate OpensDates(zone: Zone, midnight: int -> int) {
    forall d, t | t < midnight(d) :: zone(t) < d
  }

  /**
   * The window is exact: a whole millisecond lies in it exactly when it is not later than now and on one of the
   * seven dates.
   */
  lemma RecentWindowIsExact(zone: Zone, midnight: int -> int, now: int, ms: int)
    requires IsCalendar(zone, midnight) && OpensDates(zone, midnight)
    ensures var (low, high) := RecentBounds(zone, midnight, now);
      low <= ms <= high <==> zone(now) - 6 <= zone(ms * 1_000) && ms * 1_000 <= now
  {
    var first := zone(now) - 6;
    MillisecondFloor(midnight(first));
    MillisecondFloor(now);
    assert zone(midnight(first)) == first;
    assert ms * 1_000 >= midnight(first) ==> zone(ms * 1_000) >= first;
  }

  lemma {:induction false} SpreadBound(dates: seq<int>, low: int, high: int)
    requires IncreasingDates(dates) && low <= high + 1
    requires forall d | d in dates :: low <= d <= high
    ensures |dates| <= high - low + 1
  {
    if dates != [] {
      var front, last := dates[..|dates| - 1], dates[|dates| - 1];
      assert last in dates;
      forall d | d in front ensures low <= d <= last - 1 {
        var i :| 0 <= i < |front| && front[i] == d;
        assert dates[i] == d && d in dates;
      }
      SpreadBound(front, low, last - 1);
    }
  }

  // ------------------------------------------------------------ what the import needs

  /** Everything a batch made from a fetch owes to the import: complete, keyed apart, one per device and day. */
  predicate IsImportable(batch: seq<Reading>) {
    && (forall i | 0 <= i < |batch| :: IsComplete(batch[i]) && Fits(batch[i].valueKwh))
    && DistinctKeys(batch)
    && (forall i, j | 0 <= i < j < |batch| :: batch[i].localDate != batch[j].localDate)
  }

  lemma CandidateShape(e: Event, spec: Specification, date: int, details: string)
    requires Candidate(e, spec, date, details).Ok?
    ensures
      var c := Candidate(e, spec, date, details).value;
      && IsComplete(c) && c.localDate == Some(date) && c.deviceId == e.deviceId
      && c.eventKey == Some(EventKeyBytes(e.deviceId, e.code, e.timeMs, CanonicalText(e.value)))
      && NormalizeEnergy(Numeric(Finite(e.value)), spec.scale, spec.unit) == Ok(c.valueKwh)
      && c.rawValue == CanonicalText(e.value) && c.recordedAt == FromEpochMilliseconds(e.timeMs)
      && c.scale == spec.scale && c.sourceUnit == spec.unit && c.sourceCode == Some(e.code) && c.details == details
      && c.source == "cloud_daily" && c.recordedAt == e.timeMs * 1_000
      && !Less(DecimalParts.Decimal(false, "1", 30), c.valueKwh) && (IsZero(c.valueKwh) || !c.valueKwh.negative)
  {
    hide NormalizeEnergy, EventKeyBytes, CanonicalText, Less;
  }

  /** A cloud reading carries its own evidence: its raw text, scale and unit give its value again. */
  lemma CandidateIsReproducible(e: Event, spec: Specification, date: int, details: string)
    requires Candidate(e, spec, date, details).Ok?
    ensures
      var c := Candidate(e, spec, date, details).value;
      var again := NormalizeEnergy(Text(c.rawValue), c.scale, c.sourceUnit);
      again.Ok? && NumEq(again.value, c.valueKwh)
  {
    hide CanonicalText, CanonicalEnergyUnit, EventKeyBytes, ReadDecimal, Less, At, Pow10, ToNat;
    var c := Candidate(e, spec, date, details).value;
    var text := CanonicalText(e.value);
    assert c.rawValue == text && c.scale == spec.scale && c.sourceUnit == spec.unit;
    CanonicalTextReadsBack(e.value);
    StripTwice(text);
    var d := ReadDecimal(text).value;
    assert RawDecimal(Text(text)) == Some(d) && NumEq(d, e.value);
    SameNumberNormalizes(d, e.value, spec.scale, spec.unit);
  }

  lemma SameNumberNormalizes(d: Decimal, e: Decimal, scale: int, unit: string)
    requires NumEq(d, e) && NormalizeEnergy(Numeric(Finite(e)), scale, unit).Ok?
    ensures NormalizeEnergy(Numeric(Finite(d)), scale, unit).Ok?
    ensures NumEq(NormalizeEnergy(Numeric(Finite(d)), scale, unit).value,
                  NormalizeEnergy(Numeric(Finite(e)), scale, unit).value)
  {
    hide CanonicalText, CanonicalEnergyUnit, At, Pow10, ToNat, NumEq;
    var places := Places(scale, CanonicalEnergyUnit(unit).value);
    TextIdentifiesNumber(d, e);
    ShiftKeepsEquality(d, e, places);
    TextIdentifiesNumber(ShiftDecimal(d, places), ShiftDecimal(e, places));
  }

  lemma ShiftKeepsEquality(d: Decimal, e: Decimal, places: int)
    requires NumEq(d, e)
    ensures NumEq(ShiftDecimal(d, places), ShiftDecimal(e, places))
  {
    var k := Min(d.exponent, e.exponent);
    ShiftIsExact(d, places, k);
    ShiftIsExact(e, places, k);
  }

  /** An event of a fetched history has a bounded, non-negative value. */
  lemma FetchedValueIsBounded(q: Query, events: seq<Event>, rows: seq<Json.Value>, i: nat)
    requires IsExactHistory(q, events, rows) && i < |events|
    ensures Fits(events[i].value) && (IsZero(events[i].value) || !events[i].value.negative)
  {
    hide ParseEvent, Fits, StrictlyIncreasing, HoldsRow, DistinctTimes, NumEq;
    assert ComesFrom(q, rows, events[i]);
    var j :| 0 <= j < |rows| && ParseEvent(q, rows[j]) == Ok(events[i]);
    ParsedValueIsBounded(q, rows[j]);
  }

  lemma ParsedValueIsBounded(q: Query, row: Json.Value)
    requires ParseEvent(q, row).Ok?
    ensures var v := ParseEvent(q, row).value.value; Fits(v) && (IsZero(v) || !v.negative)
  {
    hide Json.ParseReportDecimal, Json.NonNegativeInteger, Json.DiagnosticFits, CanonicalText;
    Json.AcceptedValueIsRenderable(Json.Field(row.fields, "value"));
  }

  /**
   * A fetched event makes a candidate exactly when the specification's scale and unit are supported and the
   * shifted value fits its text and the upper limit; its sign and its raw text cannot be what fails.
   */
  lemma FetchedEventIsReducedExactly(q: Query, events: seq<Event>, rows: seq<Json.Value>, i: nat, spec: Specification,
                                     date: int, details: string)
    requires IsExactHistory(q, events, rows) && i < |events|
    ensures
      var spelling := Remove(Remove(Lower(Strip(spec.unit)), ' '), '\U{B7}');
      var places := if spelling == "kwh" then spec.scale else spec.scale + 3;
      var n := events[i].value.(exponent := events[i].value.exponent - places);
      && (Candidate(events[i], spec, date, details).Ok? <==>
            && 0 <= spec.scale <= 123 && spelling in {"kwh", "wh"}
            && |CanonicalText(n)| <= 128 && !Less(DecimalParts.Decimal(false, "1", 30), n))
      && (Candidate(events[i], spec, date, details).Ok? ==> Candidate(events[i], spec, date, details).value.valueKwh == n)
  {
    hide IsExactHistory, CanonicalText, Less, EventKeyBytes, Remove, Lower, Strip;
    FetchedValueIsBounded(q, events, rows, i);
  }

  lemma NormalizedFits(raw: RawValue, scale: int, unit: string)
    ensures NormalizeEnergy(raw, scale, unit).Ok? ==> Fits(NormalizeEnergy(raw, scale, unit).value)
  {
    hide RawDecimal, CanonicalEnergyUnit, CanonicalText;
  }

  /** The stages compose: reducing a fetched history gives a batch the import never refuses for its shape. */
  lemma ReductionIsImportable(zone: Zone, events: seq<Event>, spec: Specification, details: string,
                              batch: seq<Reading>)
    requires IsReduced(zone, events, spec, details, Ok(batch))
    ensures IsImportable(batch)
  {
    hide AreCandidates, IsDailyReduction, IsImportable;
    var answer: Result<seq<Reading>, ReductionError> := Ok(batch);
    var dates: seq<int>, chosen: seq<Event> :|
      IsDailyReduction(zone, events, dates, chosen) && |chosen| == |dates|
      && AreAnswered(chosen, spec, dates, details, answer);
    CandidatesAreImportable(zone, events, spec, details, dates, chosen, batch);
  }

  lemma CandidatesAreImportable(zone: Zone, events: seq<Event>, spec: Specification, details: string,
                                dates: seq<int>, chosen: seq<Event>, batch: seq<Reading>)
    requires IsDailyReduction(zone, events, dates, chosen)
    requires AreCandidates(chosen, spec, dates, details, batch)
    ensures IsImportable(batch)
  {
    hide Candidate, EventKeyBytes, NormalizeEnergy, CanonicalText;
    forall i | 0 <= i < |batch|
      ensures IsComplete(batch[i]) && Fits(batch[i].valueKwh) && batch[i].localDate == Some(dates[i])
      ensures batch[i].eventKey == Some(EventKeyBytes(chosen[i].deviceId, chosen[i].code, chosen[i].timeMs,
                                                      CanonicalText(chosen[i].value)))
    {
      CandidateShape(chosen[i], spec, dates[i], details);
      NormalizedFits(Numeric(Finite(chosen[i].value)), spec.scale, spec.unit);
    }
    forall i, j | 0 <= i < j < |batch| ensures batch[i].eventKey != batch[j].eventKey {
      PayloadIsDecodable(chosen[i].deviceId, chosen[i].code, chosen[i].timeMs, CanonicalText(chosen[i].value),
                         chosen[j].deviceId, chosen[j].code, chosen[j].timeMs, CanonicalText(chosen[j].value));
      assert LocalDate(zone, chosen[i]) != LocalDate(zone, chosen[j]);
    }
  }

  /** The device and local day that a fingerprint belongs to in one time zone. */
  ghost function FingerprintDay(zone: Zone, key: seq<int>): (string, int) {
    if exists d, c, t, raw :: key == EventKeyBytes(d, c, t, raw) then
      var d, c, t, raw :| key == EventKeyBytes(d, c, t, raw);
      (d, zone(FromEpochMilliseconds(t)))
    else ("", 0)
  }

  lemma FingerprintFixesDay(zone: Zone, d: string, c: string, t: int, raw: string)
    ensures FingerprintDay(zone, EventKeyBytes(d, c, t, raw)) == (d, zone(FromEpochMilliseconds(t)))
  {
    hide EventKeyBytes;
    var key := EventKeyBytes(d, c, t, raw);
    forall d', c', t', raw' | key == EventKeyBytes(d', c', t', raw') ensures d == d' && t == t' {
      PayloadIsDecodable(d, c, t, raw, d', c', t', raw');
    }
  }

  lemma CandidateFixesDay(zone: Zone, e: Event, spec: Specification, details: string)
    requires Candidate(e, spec, LocalDate(zone, e), details).Ok?
    ensures KeyFixesDay(Candidate(e, spec, LocalDate(zone, e), details).value, key => FingerprintDay(zone, key))
  {
    hide Candidate, EventKeyBytes, FingerprintDay, CanonicalText;
    CandidateShape(e, spec, LocalDate(zone, e), details);
    FingerprintFixesDay(zone, e.deviceId, e.code, e.timeMs, CanonicalText(e.value));
  }

  // ------------------------------------------------------------ the workflow

  datatype ImportError =
    | NotVerified
    | SpecificationUnavailable
    | SpecificationChanged
    | History(historyError: HistoryError)
    | Reduction(reductionError: ReductionError)
    | Store(storeError: StoreError)
    | Stopped(stop: Stop)

  /**
   * Read off the pages themselves: every row's local date has a reading at or before that row's moment, and every
   * reading is a row's, with that row's moment and text and its number shifted by the places of scale and unit.
   */
  lemma DailyReadingsComeFromRows(zone: Zone, q: Query, pages: seq<map<string, Json.Value>>, spec: Specification,
                                  batch: seq<Reading>, details: string)
    requires Collect(q, pages).Ok? && IsReductionOfHistory(zone, q, pages, spec, batch, details)
    ensures forall j, e | 0 <= j < |AllRows(q, pages)| && IsEventOf(q, AllRows(q, pages)[j], e) ::
      HasReadingBy(batch, zone(e.timeMs * 1_000), e.timeMs * 1_000)
    ensures forall k | 0 <= k < |batch| :: IsReadingOfARow(zone, q, AllRows(q, pages), spec, batch[k])
  {
    hide Collect, SortByTime, Candidate, AllRows, IsEventOf, IsReadingOfARow, HasReadingBy, Represents, StrictlyIncreasing;
    hide HoldsRow, ParseEvent, IsDailyReduction, IsToldByARow;
    var events, rows := SortByTime(Collect(q, pages).value.events), AllRows(q, pages);
    var answer: Result<seq<Reading>, ReductionError> := Ok(batch);
    var dates: seq<int>, chosen: seq<Event> :|
      IsDailyReduction(zone, events, dates, chosen) && |chosen| == |dates|
      && AreAnswered(chosen, spec, dates, details, answer);
    forall j, e | 0 <= j < |rows| && IsEventOf(q, rows[j], e)
      ensures HasReadingBy(batch, zone(e.timeMs * 1_000), e.timeMs * 1_000)
    {
      RowHasReading(zone, q, events, rows, j, e, spec, details, dates, chosen, batch);
    }
    forall k | 0 <= k < |batch| ensures IsReadingOfARow(zone, q, rows, spec, batch[k]) {
      ReadingHasRow(zone, q, events, rows, k, spec, details, dates, chosen, batch);
    }
  }

  /** A reading of the local date stands in the batch, taken no later than the instant. */
  predicate HasReadingBy(batch: seq<Reading>, date: int, instant: int) {
    exists k | 0 <= k < |batch| :: batch[k].localDate == Some(date) && batch[k].recordedAt <= instant
  }

  /** The reading is what some row says, in the unit kWh. */
  ghost predicate IsReadingOfARow(zone: Zone, q: Query, rows: seq<Json.Value>, spec: Specification, r: Reading) {
    exists j, e | 0 <= j < |rows| && IsEventOf(q, rows[j], e) :: IsReadingOf(zone, q, spec, r, e)
  }

  predicate IsReadingOf(zone: Zone, q: Query, spec: Specification, r: Reading, e: Event) {
    var spelling := Remove(Remove(Lower(Strip(spec.unit)), ' '), '\U{B7}');
    && r.deviceId == q.deviceId && r.sourceCode == Some(q.code) && r.source == "cloud_daily"
    && r.recordedAt == e.timeMs * 1_000 && r.localDate == Some(zone(r.recordedAt))
    && r.rawValue == CanonicalText(e.value) && r.scale == spec.scale && r.sourceUnit == spec.unit
    && spelling in {"kwh", "wh"}
    && r.valueKwh == e.value.(exponent := e.value.exponent - (if spelling == "kwh" then spec.scale else spec.scale + 3))
  }

  lemma RowHasReading(zone: Zone, q: Query, events: seq<Event>, rows: seq<Json.Value>, j: nat, e: Event,
                      spec: Specification, details: string, dates: seq<int>, chosen: seq<Event>, batch: seq<Reading>)
    requires IsExactHistory(q, events, rows) && j < |rows| && IsEventOf(q, rows[j], e)
    requires IsDailyReduction(zone, events, dates, chosen) && AreCandidates(chosen, spec, dates, details, batch)
    ensures HasReadingBy(batch, zone(e.timeMs * 1_000), e.timeMs * 1_000)
  {
    hide Candidate, IsEventOf, ParseEvent, NumEq, IsToldByARow, ComesFrom;
    EventIsAcceptedExactly(q, rows[j], e);
    assert HoldsRow(events, e);
    var i :| 0 <= i < |events| && events[i].timeMs == e.timeMs && NumEq(events[i].value, e.value);
    assert events[i] in events;
    assert LocalDate(zone, events[i]) == zone(e.timeMs * 1_000);
    var k :| 0 <= k < |dates| && dates[k] == LocalDate(zone, events[i]);
    assert chosen[k].timeMs <= events[i].timeMs;
    CandidateShape(chosen[k], spec, dates[k], details);
    assert batch[k].localDate == Some(zone(e.timeMs * 1_000)) && batch[k].recordedAt <= e.timeMs * 1_000;
  }

  lemma ChosenPosition(zone: Zone, events: seq<Event>, dates: seq<int>, chosen: seq<Event>, k: nat) returns (i: nat)
    requires IsDailyReduction(zone, events, dates, chosen) && k < |chosen|
    ensures i < |events| && events[i] == chosen[k] && dates[k] == zone(chosen[k].timeMs * 1_000)
  {
    assert chosen[k] in events && LocalDate(zone, chosen[k]) == dates[k];
    i :| 0 <= i < |events| && events[i] == chosen[k];
  }

  lemma TellingRow(q: Query, events: seq<Event>, rows: seq<Json.Value>, i: nat) returns (j: nat)
    requires IsExactHistory(q, events, rows) && i < |events|
    ensures j < |rows| && IsEventOf(q, rows[j], events[i])
    ensures events[i].deviceId == q.deviceId && events[i].code == q.code
  {
    hide IsEventOf, ParseEvent, NumEq, IsRetold, ComesFrom, HoldsRow, DistinctTimes, StrictlyIncreasing;
    assert IsToldByARow(q, events[i], rows);
    j :| 0 <= j < |rows| && IsEventOf(q, rows[j], events[i]);
  }

  lemma ReadingHasRow(zone: Zone, q: Query, events: seq<Event>, rows: seq<Json.Value>, k: nat,
                      spec: Specification, details: string, dates: seq<int>, chosen: seq<Event>, batch: seq<Reading>)
    requires IsExactHistory(q, events, rows) && k < |batch|
    requires IsDailyReduction(zone, events, dates, chosen) && AreCandidates(chosen, spec, dates, details, batch)
    ensures IsReadingOfARow(zone, q, rows, spec, batch[k])
  {
    hide IsExactHistory, Candidate, IsEventOf, CanonicalText, Less, Remove, Lower, Strip, EventKeyBytes, IsDailyReduction;
    var e := chosen[k];
    var i := ChosenPosition(zone, events, dates, chosen, k);
    var j := TellingRow(q, events, rows, i);
    CandidateShape(e, spec, dates[k], details);
    FetchedEventIsReducedExactly(q, events, rows, i, spec, dates[k], details);
    assert IsReadingOf(zone, q, spec, batch[k], e);
  }

  /** `_specification_identity` agrees; the raw JSON may differ. */
  predicate SameSpecification(a: Specification, b: Specification) {
    a.code == b.code && a.unit == b.unit && a.scale == b.scale
  }

  /** The remote energy specification of the device, which may differ from one call to the next. */
  class SpecificationSource {
    ghost var delivered: seq<Specification>

    method Fetch() returns (r: Option<Specification>)
      modifies this
      ensures r.Some? ==> delivered == old(delivered) + [r.value]
      ensures r.None? ==> delivered == old(delivered)
    {
      var available: bool := *;
      if !available { return None; }
      var spec: Specification := *;
      delivered := delivered + [spec];
      return Some(spec);
    }
  }

  /**
   * `import_recent`: bounds, specification, fetch, specification again, reduction, store. Only a
   * run in which every stage succeeds changes the table, and then by exactly one import of the
   * reduction of the fetched history.
   */
  method ImportRecent(deviceId: string, verified: bool, zone: Zone, midnight: int -> int, now: int, details: string,
                      source: SpecificationSource, gateway: TuyaReportLogGateway, repository: ReadingRepository,
                      ctx: CancellationContext)
    returns (r: Result<Import, ImportError>, ghost batch: seq<Reading>, ghost query: Query)
    requires repository.connection.Valid() && !repository.connection.inTransaction && source.delivered == []
    requires gateway.client.ctx == ctx && gateway.client.IsUnused()
    modifies source, gateway.client, repository.connection, ctx.clock, ctx`cancelled
    ensures repository.connection.Valid() && !repository.connection.inTransaction
    ensures r.Err? ==> repository.connection.committed == old(repository.connection.committed)
    ensures r.Ok? ==> !ctx.MustStop()
    ensures !verified ==>
      r.Err? && (r.error.NotVerified? || r.error.Stopped?) && source.delivered == [] && gateway.client.IsUnused()
    ensures r == Err(SpecificationChanged) <==>
      && |source.delivered| == 2
      && (source.delivered[0].code != source.delivered[1].code || source.delivered[0].unit != source.delivered[1].unit
          || source.delivered[0].scale != source.delivered[1].scale)
    ensures r.Ok? ==>
      && IsImportable(batch)
      && ImportBatch(old(repository.connection.committed), batch) == Ok(r.value)
      && repository.connection.committed == r.value.table
      && Collect(query, gateway.client.pages).Ok? && Collect(query, gateway.client.pages).value.finished
      && |source.delivered| == 2
      && query.code == source.delivered[0].code
      && IsReductionOfHistory(zone, query, gateway.client.pages, source.delivered[0], batch, details)
    ensures gateway.client.secrets.Some? && r.Ok? ==>
      && r.value == Import(old(repository.connection.committed), [], 0, 0)
      && IsEmptyHistory(query, gateway.client.secrets.value, gateway.client.payloads)
    ensures r.Ok? ==>
      && query.deviceId == deviceId
      && (query.startMs, query.endMs) == RecentBounds(zone, midnight, now)
  {
    hide IsImportable, WellFormed, ImportBatch, Collect, IsReductionOfHistory, AddAllTo, SortByTime, IsReduced;
    hide RecentBounds, FollowsPages, IsPaced, IsHistoryFailure, ValidQuery, IsEmptyHistory;
    hide AreDelivered, OpenBefore, IsBudgeted, Charged, CancellationContext.MustStop;
    batch, query := [], Query("", "", 0, 0);
    var live := ctx.Checkpoint();
    if live.Err? { r := Err(Stopped(live.error)); return; }
    if !verified { r := Err(NotVerified); return; }
    var (startMs, endMs) := RecentBounds(zone, midnight, now);
    var first := source.Fetch();
    if first.None? { r := Err(SpecificationUnavailable); return; }
    live := ctx.Checkpoint();
    if live.Err? { r := Err(Stopped(live.error)); return; }
    var asked := Query(deviceId, first.value.code, startMs, endMs);
    query := asked;
    var fetched := gateway.ListEvents(asked);
    ghost var pages := gateway.client.pages;
    if fetched.Err? { r := Err(History(fetched.error)); return; }
    live := ctx.Checkpoint();
    if live.Err? { r := Err(Stopped(live.error)); return; }
    var final := source.Fetch();
    if final.None? { r := Err(SpecificationUnavailable); return; }
    if !SameSpecification(first.value, final.value) { r := Err(SpecificationChanged); return; }
    var reduced := ReduceDailyEvents(fetched.value, first.value, zone, details);
    if reduced.Err? { r := Err(Reduction(reduced.error)); return; }
    batch := reduced.value;
    ReductionIsImportable(zone, fetched.value, first.value, details, batch);
    RecordReduction(zone, query, pages, first.value, batch, details);
    live := ctx.Checkpoint();
    if live.Err? { r := Err(Stopped(live.error)); return; }
    RedactedImportIsEmpty(zone, query, gateway.client.secrets, gateway.client.payloads, pages, first.value, batch, details,
                          repository.connection.committed);
    var stored := repository.ImportConnected(reduced.value, ctx);
    if stored.Err? { r := Err(Store(stored.error)); return; }
    r := Ok(stored.value);
  }

  /** The only history that is not refused once redacted: one payload that ends it at once. */
  predicate IsEmptyHistory(q: Query, secrets: seq<string>, payloads: seq<map<string, Json.Value>>) {
    |payloads| == 1 && IsEmptyEnd(q, secrets, payloads[0])
  }

  /** Through the redacting client a history that is not refused is empty, and its import changes nothing. */
  lemma RedactedImportIsEmpty(zone: Zone, q: Query, secrets: Option<seq<string>>, payloads: seq<map<string, Json.Value>>,
                              pages: seq<map<string, Json.Value>>, spec: Specification, batch: seq<Reading>,
                              details: string, table: seq<Row>)
    requires AreDelivered(secrets, payloads, pages) && OpenBefore(q, pages)
    requires Collect(q, pages).Ok? && Collect(q, pages).value.finished
    requires IsReductionOfHistory(zone, q, pages, spec, batch, details)
    ensures secrets.Some? ==>
      && batch == [] && ImportBatch(table, batch) == Ok(Import(table, [], 0, 0))
      && IsEmptyHistory(q, secrets.value, payloads)
  {
    hide IsEmptyEnd, OpenBefore, AreDelivered, IsExactHistory, AllRows, AbsorbPage;
    if secrets.Some? {
      RedactedHistoryIsEmpty(q, secrets.value, payloads, pages);
      assert SortByTime(Collect(q, pages).value.events) == [];
      NothingReduces(zone, spec, details, batch);
    }
  }

  lemma NothingReduces(zone: Zone, spec: Specification, details: string, batch: seq<Reading>)
    requires IsReduced(zone, [], spec, details, Ok(batch))
    ensures batch == []
  {
    hide Candidate;
    var answer: Result<seq<Reading>, ReductionError> := Ok(batch);
    var dates: seq<int>, chosen: seq<Event> :|
      IsDailyReduction(zone, [], dates, chosen) && |chosen| == |dates|
      && AreAnswered(chosen, spec, dates, details, answer);
    DatesNeedEvents(zone, [], dates, chosen);
  }

  lemma DatesNeedEvents(zone: Zone, events: seq<Event>, dates: seq<int>, chosen: seq<Event>)
    requires IsDailyReduction(zone, events, dates, chosen)
    ensures dates != [] ==> events != []
  {
    if dates != [] {
      assert chosen[0] in events;
    }
  }

  /** The batch is the daily reduction of the exact history that the pages hold. */
  ghost predicate IsReductionOfHistory(zone: Zone, q: Query, pages: seq<map<string, Json.Value>>, spec: Specification,
                                       batch: seq<Reading>, details: string)
    requires Collect(q, pages).Ok?
  {
    var events := SortByTime(Collect(q, pages).value.events);
    IsExactHistory(q, events, AllRows(q, pages)) && IsReduced(zone, events, spec, details, Ok(batch))
  }

  lemma RecordReduction(zone: Zone, q: Query, pages: seq<map<string, Json.Value>>, spec: Specification,
                        batch: seq<Reading>, details: string)
    requires Collect(q, pages).Ok?
    requires IsReduced(zone, SortByTime(Collect(q, pages).value.events), spec, details, Ok(batch))
    ensures IsReductionOfHistory(zone, q, pages, spec, batch, details)
  {
    hide Collect, SortByTime, IsReduced, IsExactHistory, AllRows;
    ReturnedHistoryIsExact(q, pages);
  }

  /**
   * The whole pipeline is idempotent in one time zone: a batch reduced from a fetched history and
   * imported once imports again, after any later imports and captures of that zone, without a new row.
   */
  lemma PipelineIsIdempotent(zone: Zone, q: Query, pages: seq<map<string, Json.Value>>, spec: Specification,
                             batch: seq<Reading>, details: string, table: seq<Row>, ops: seq<Operation>)
    requires Collect(q, pages).Ok? && IsReductionOfHistory(zone, q, pages, spec, batch, details)
    requires WellFormed(table) && ImportBatch(table, batch).Ok?
    requires KeysFixDays(table, key => FingerprintDay(zone, key))
    requires OperationsFixDays(ops, key => FingerprintDay(zone, key))
    ensures
      var first := ImportBatch(table, batch).value;
      var later := ApplyAll(first.table, ops);
      ImportBatch(later, batch) == Ok(Import(later, first.saved, 0, |batch|))
  {
    hide *;
    var dayOf: DayOf := key => FingerprintDay(zone, key);
    ReducedKeysFixDays(zone, q, pages, spec, batch, details);
    ReimportAfterAnyHistory(table, batch, ops, dayOf);
  }

  lemma ReducedKeysFixDays(zone: Zone, q: Query, pages: seq<map<string, Json.Value>>, spec: Specification,
                           batch: seq<Reading>, details: string)
    requires Collect(q, pages).Ok? && IsReductionOfHistory(zone, q, pages, spec, batch, details)
    ensures AllFixDays(batch, key => FingerprintDay(zone, key))
  {
    hide Collect, SortByTime, Candidate, IsExactHistory, AllRows, FingerprintDay, KeyFixesDay;
    var events := SortByTime(Collect(q, pages).value.events);
    var answer: Result<seq<Reading>, ReductionError> := Ok(batch);
    var dates: seq<int>, chosen: seq<Event> :|
      IsDailyReduction(zone, events, dates, chosen) && |chosen| == |dates|
      && AreAnswered(chosen, spec, dates, details, answer);
    var dayOf: DayOf := key => FingerprintDay(zone, key);
    forall i | 0 <= i < |batch| ensures KeyFixesDay(batch[i], dayOf) {
      assert Candidate(chosen[i], spec, dates[i], details) == Ok(batch[i]);
      assert LocalDate(zone, chosen[i]) == dates[i];
      CandidateFixesDay(zone, chosen[i], spec, details);
    }
  }
}
