/**
 * Status capture: the batch refresh of every listed device and the capture of a single one
 * (src/tatatuya/services/reading_service.py).
 */
module ReadingService {
  import opened Cancellation
  import opened Client
  import opened Common
  import opened Decimals
  import Devices
  import opened Energy
  import opened Fingerprint
  import Json
  import opened Readings
  import opened ReadingStore

  const MAX_BATCH_SIZE: nat := 20
  const SAVE_RESERVE: real := 5.0

  // ------------------------------------------------------------ chunks

  /** `_chunks`: consecutive pieces of at most `size`. */
  function Chunks(values: seq<string>, size: nat): (chunks: seq<seq<string>>)
    requires size > 0
    ensures forall c | c in chunks :: 0 < |c| <= size
  {
    if values == [] then []
    else if |values| <= size then [values]
    else [values[..size]] + Chunks(values[size..], size)
  }

  function Flatten(chunks: seq<seq<string>>): seq<string> {
    if chunks == [] then [] else Flatten(chunks[..|chunks| - 1]) + chunks[|chunks| - 1]
  }

  lemma FlattenNothing()
    ensures Flatten([]) == []
  {
  }

  lemma FlattenOne(chunk: seq<string>)
    ensures Flatten([chunk]) == chunk
  {
    assert [chunk][..0] == [];
  }

  lemma {:induction false} FlattenFirst(first: seq<string>, rest: seq<seq<string>>)
    ensures Flatten([first] + rest) == first + Flatten(rest)
  {
    if rest == [] {
      FlattenOne(first);
      assert [first] + rest == [first];
    } else {
      FlattenFirst(first, rest[..|rest| - 1]);
      assert ([first] + rest)[..|rest|] == [first] + rest[..|rest| - 1];
    }
  }

  /** The chunks are the values, in order, all of them, and only the last may be short. */
  lemma {:induction false} ChunksFlatten(values: seq<string>, size: nat)
    requires size > 0
    ensures Flatten(Chunks(values, size)) == values
    ensures forall k | 0 <= k < |Chunks(values, size)| - 1 :: |Chunks(values, size)[k]| == size
    decreases |values|
  {
    hide Flatten;
    if values == [] {
      FlattenNothing();
    } else if |values| <= size {
      FlattenOne(values);
    } else {
      var first, rest := values[..size], values[size..];
      assert values == first + rest;
      ChunksFlatten(rest, size);
      FlattenFirst(first, Chunks(rest, size));
    }
  }

  // ------------------------------------------------------------ one reading

  datatype StatusValue = StatusValue(code: string, value: RawValue)

  datatype DeviceStatus = DeviceStatus(statuses: seq<StatusValue>, rawJson: string)

  datatype Failure =
    | SpecificationFailed(specification: Devices.SpecificationError)
    | StatusUnavailable
    | StatusMissing
    | NotUnique
    | Unusable(energy: EnergyError)
    | NotSaved

  predicate IsOnlyStatus(statuses: seq<StatusValue>, code: string, i: nat)
    requires i < |statuses|
  {
    statuses[i].code == code && forall j | 0 <= j < |statuses| :: statuses[j].code == code ==> j == i
  }

  function Matches(statuses: seq<StatusValue>, code: string): seq<RawValue> {
    if statuses == [] then []
    else
      var before, last := Matches(statuses[..|statuses| - 1], code), statuses[|statuses| - 1];
      if last.code == code then before + [last.value] else before
  }

  /** `str(raw_value)` */
  function RawText(raw: RawValue): string {
    match raw
    case Boolean(b) => if b then "True" else "False"
    case Numeric(n) => if n.Finite? then Json.ScientificText(n.value) else "NaN"
    case Integer(i) => IntegerText(i)
    case Text(s) => s
  }

  /** What is written down for a usable raw value reads back as that value, exponent and sign included. */
  lemma RawTextReadsBack(raw: RawValue)
    requires RawDecimal(raw).Some?
    ensures RawDecimal(Text(RawText(raw))) == RawDecimal(raw)
  {
    hide ReadDecimal, Json.ScientificText, Strip, FromInteger, IntegerText;
    match raw {
      case Numeric(n) =>
        Json.ScientificTextReadsBack(n.value);
        StripTwice(Json.ScientificText(n.value));
      case Integer(i) =>
        IntegerTextReadsBack(i);
        StripTwice(IntegerText(i));
      case Text(_) =>
    }
  }

  lemma IntegerTextReadsBack(i: int)
    ensures ReadDecimal(IntegerText(i)) == Some(FromInteger(i))
  {
    hide ReadDecimal, ToNat, Digits;
    ReadPlainWhole(i < 0, Digits(if i < 0 then -i else i));
  }

  /** A reading carries its own evidence: its raw text, scale and unit give its value again. */
  lemma ReadingIsReproducible(deviceId: string, status: DeviceStatus, spec: Devices.EnergySpecification, now: int,
                              source: string)
    requires BuildReading(deviceId, status, spec, now, source).Ok?
    ensures
      var r := BuildReading(deviceId, status, spec, now, source).value;
      NormalizeEnergy(Text(r.rawValue), r.scale, r.sourceUnit) == Ok(r.valueKwh)
  {
    hide RawText, RawDecimal, CanonicalEnergyUnit, CanonicalText;
    RawTextReadsBack(Matches(status.statuses, spec.code)[0]);
  }

  function BuildReading(deviceId: string, status: DeviceStatus, spec: Devices.EnergySpecification, now: int, source: string)
    : Result<Reading, Failure>
  {
    var matches := Matches(status.statuses, spec.code);
    if |matches| != 1 then Err(NotUnique)
    else
      var value := NormalizeEnergy(matches[0], spec.scale, spec.unit);
      if value.Err? then Err(Unusable(value.error))
      else
        Ok(Reading(deviceId, now, RawText(matches[0]), spec.scale, spec.unit, value.value, source, None, None, None,
                   status.rawJson + spec.rawJson))
  }

  lemma {:induction false} NoMatch(statuses: seq<StatusValue>, code: string)
    ensures Matches(statuses, code) == [] <==> forall j | 0 <= j < |statuses| :: statuses[j].code != code
  {
    if statuses != [] {
      NoMatch(statuses[..|statuses| - 1], code);
    }
  }

  lemma {:induction false} SingleMatch(statuses: seq<StatusValue>, code: string) returns (i: nat)
    ensures |Matches(statuses, code)| == 1 ==>
      i < |statuses| && IsOnlyStatus(statuses, code, i) && Matches(statuses, code) == [statuses[i].value]
  {
    if statuses == [] {
      i := 0;
    } else {
      var front := statuses[..|statuses| - 1];
      NoMatch(front, code);
      i := SingleMatch(front, code);
      if statuses[|statuses| - 1].code == code {
        i := |statuses| - 1;
      }
    }
  }

  lemma {:induction false} OnlyMatch(statuses: seq<StatusValue>, code: string, i: nat)
    requires i < |statuses| && IsOnlyStatus(statuses, code, i)
    ensures Matches(statuses, code) == [statuses[i].value]
    decreases |statuses|
  {
    var front := statuses[..|statuses| - 1];
    if i < |front| {
      OnlyMatch(front, code, i);
    } else {
      NoMatch(front, code);
    }
  }

  /**
   * A reading is made exactly when one status entry, and no other, carries the specified code and its
   * value normalizes; the reading then holds that value.
   */
  lemma OneUsableStatusMakesAReading(deviceId: string, status: DeviceStatus, spec: Devices.EnergySpecification, now: int,
                                     source: string)
    ensures
      BuildReading(deviceId, status, spec, now, source).Ok? <==>
      exists i | 0 <= i < |status.statuses| ::
        IsOnlyStatus(status.statuses, spec.code, i)
        && NormalizeEnergy(status.statuses[i].value, spec.scale, spec.unit).Ok?
    ensures forall i | 0 <= i < |status.statuses| && IsOnlyStatus(status.statuses, spec.code, i) ::
      BuildReading(deviceId, status, spec, now, source).Ok? ==>
        var r := BuildReading(deviceId, status, spec, now, source).value;
        && NormalizeEnergy(status.statuses[i].value, spec.scale, spec.unit) == Ok(r.valueKwh)
        && r.rawValue == RawText(status.statuses[i].value)
        && r.deviceId == deviceId && r.recordedAt == now && r.scale == spec.scale && r.sourceUnit == spec.unit
        && r.source == source && r.details == status.rawJson + spec.rawJson
        && r.eventKey.None? && r.sourceCode.None? && r.localDate.None?
  {
    hide NormalizeEnergy, RawText, Matches, IsOnlyStatus;
    var k := SingleMatch(status.statuses, spec.code);
    forall i | 0 <= i < |status.statuses| && IsOnlyStatus(status.statuses, spec.code, i)
      ensures Matches(status.statuses, spec.code) == [status.statuses[i].value]
    {
      OnlyMatch(status.statuses, spec.code, i);
    }
  }

  // ------------------------------------------------------------ what a refresh keeps account of

  datatype RefreshError =
    | Listing(api: ApiError)
    | Halted(stop: Stop)
    | StoreFailed(store: StoreError)
    | UnknownDevice
    | NoSpecification(specification: Devices.SpecificationError)
    | NoStatus

  type Prepared = map<string, (Devices.Device, Devices.EnergySpecification)>

  /** The dictionaries of `refresh` after the specification stage. */
  datatype Progress = Progress(failures: map<string, Failure>, statuses: set<string>, captured: map<string, Row>)

  /** Each appended row is the captured row of its device. */
  ghost predicate RowsAreCaptured(captured: map<string, Row>, appended: seq<Row>) {
    && (forall k | 0 <= k < |appended| ::
          appended[k].reading.deviceId in captured && captured[appended[k].reading.deviceId] == appended[k])
    && (forall id | id in captured :: captured[id] in appended && captured[id].reading.deviceId == id)
  }

  /** Every processed device failed or was captured, never both; every capture is an appended row. */
  ghost predicate Accounts(p: Progress, processed: seq<string>, appended: seq<Row>) {
    && (forall id | id in processed :: (id in p.failures) != (id in p.captured))
    && (forall id | id in p.captured :: id in processed && id in p.statuses)
    && RowsAreCaptured(p.captured, appended)
  }

  // ------------------------------------------------------------ what the remote service said

  /** One status request and its response, if one came. */
  datatype StatusExchange = StatusExchange(ids: seq<string>, response: Option<map<string, DeviceStatus>>)

  /** What a device was told: no response, a response without it, or its status. */
  datatype Answer = Unavailable | Missing | Got(status: DeviceStatus)

  /** The remote status endpoints; `exchanges` is every request made, in order, with its response. */
  class StatusGateway {
    ghost var exchanges: seq<StatusExchange>

    /** `get_devices_status` for one batch; it may fail, and may answer for any devices. */
    method GetDevicesStatus(ids: seq<string>, answered: bool) returns (response: Option<map<string, DeviceStatus>>)
      modifies this
      ensures exchanges == old(exchanges) + [StatusExchange(ids, response)]
      ensures response.Some? == answered
    {
      var statuses: map<string, DeviceStatus> := *;
      response := if answered then Some(statuses) else None;
      exchanges := exchanges + [StatusExchange(ids, response)];
    }

    /** `get_device_status` */
    method GetDeviceStatus(id: string) returns (status: DeviceStatus)
      modifies this
      ensures exchanges == old(exchanges) + [StatusExchange([id], Some(map[id := status]))]
    {
      status := *;
      exchanges := exchanges + [StatusExchange([id], Some(map[id := status]))];
    }
  }

  function AnswerIn(e: StatusExchange, id: string): Answer {
    if e.response.None? then Unavailable
    else if id in e.response.value then Got(e.response.value[id])
    else Missing
  }

  /** The answer of the request that asked for the device. */
  function AnswerTo(exchanges: seq<StatusExchange>, id: string): Option<Answer> {
    if exchanges == [] then None
    else if id in exchanges[|exchanges| - 1].ids then Some(AnswerIn(exchanges[|exchanges| - 1], id))
    else AnswerTo(exchanges[..|exchanges| - 1], id)
  }

  /** What a device's answer comes to under its specification: a reading, or the reason there is none. */
  function Fate(id: string, answer: Answer, spec: Devices.EnergySpecification, now: int): Result<Reading, Failure> {
    match answer
    case Unavailable => Err(StatusUnavailable)
    case Missing => Err(StatusMissing)
    case Got(status) => BuildReading(id, status, spec, now, "batch")
  }

  /** The dictionaries hold the device's fate: its failure, or the saved row of its reading. */
  ghost predicate HasFate(p: Progress, id: string, fate: Result<Reading, Failure>) {
    if fate.Err? then id in p.failures && p.failures[id] == fate.error && id !in p.captured
    else id !in p.failures && id in p.captured && p.captured[id].reading == AsStored(fate.value)
  }

  /** Every processed device met its fate: the one its current specification and its own answer give it. */
  ghost predicate FatesHold(p: Progress, processed: seq<string>, prepared: Prepared, exchanges: seq<StatusExchange>, now: int) {
    forall id | id in processed ::
      && id in prepared && AnswerTo(exchanges, id).Some?
      && HasFate(p, id, Fate(id, AnswerTo(exchanges, id).value, prepared[id].1, now))
  }

  /** Both dictionaries agree outside the chunk. */
  ghost predicate SameElsewhere(p: Progress, q: Progress, chunk: seq<string>) {
    && (forall id | id !in chunk :: (id in p.failures <==> id in q.failures) && (id in p.captured <==> id in q.captured))
    && (forall id | id !in chunk && id in p.failures :: q.failures[id] == p.failures[id])
    && (forall id | id !in chunk && id in p.captured :: q.captured[id] == p.captured[id])
  }

  /** One more exchange settles its chunk and leaves the devices before it as they were. */
  lemma ChunkSettles(p: Progress, q: Progress, processed: seq<string>, prepared: Prepared,
                     exchanges: seq<StatusExchange>, e: StatusExchange, now: int)
    requires FatesHold(p, processed, prepared, exchanges, now) && SameElsewhere(p, q, e.ids)
    requires forall id | id in e.ids :: id !in processed && id in prepared
    requires forall id | id in e.ids :: HasFate(q, id, Fate(id, AnswerIn(e, id), prepared[id].1, now))
    ensures FatesHold(q, processed + e.ids, prepared, exchanges + [e], now)
  {
    hide Fate, AnswerIn, AsStored;
    var after := exchanges + [e];
    assert after[..|exchanges|] == exchanges;
    forall id | id in processed + e.ids
      ensures id in prepared && AnswerTo(after, id).Some?
      ensures HasFate(q, id, Fate(id, AnswerTo(after, id).value, prepared[id].1, now))
    {
      if id in e.ids {
        assert AnswerTo(after, id) == Some(AnswerIn(e, id));
      } else {
        assert id in processed && AnswerTo(after, id) == AnswerTo(exchanges, id);
      }
    }
  }

  /** The row of a batch capture: what some status of its device becomes under that device's current specification. */
  ghost predicate IsCapture(row: Row, prepared: Prepared, now: int) {
    var id := row.reading.deviceId;
    id in prepared && exists status, reading ::
      BuildReading(id, status, prepared[id].1, now, "batch") == Ok(reading) && row.reading == AsStored(reading)
  }

  ghost predicate AreCaptures(rows: seq<Row>, prepared: Prepared, now: int) {
    forall k | 0 <= k < |rows| :: IsCapture(rows[k], prepared, now)
  }

  lemma NoCaptures(table: seq<Row>, now: int)
    ensures AreCaptures(table[|table|..], map[], now)
  {
  }

  lemma SavedAreCaptures(rows: seq<Row>, pending: seq<Reading>, saved: seq<Row>, response: map<string, DeviceStatus>,
                         prepared: Prepared, now: int)
    requires AreCaptures(rows, prepared, now) && |saved| == |pending|
    requires forall k | 0 <= k < |pending| ::
      && pending[k].deviceId in response && pending[k].deviceId in prepared
      && BuildReading(pending[k].deviceId, response[pending[k].deviceId], prepared[pending[k].deviceId].1, now, "batch")
         == Ok(pending[k])
      && saved[k].reading == AsStored(pending[k])
    ensures AreCaptures(rows + saved, prepared, now)
  {
    hide BuildReading, AsStored;
    var all := rows + saved;
    forall k | 0 <= k < |all| ensures IsCapture(all[k], prepared, now) {
      if k < |rows| {
        assert all[k] == rows[k];
      } else {
        assert all[k] == saved[k - |rows|];
      }
    }
  }

  /** A captured row carries the unit and scale of its device's current specification. */
  lemma CaptureShape(row: Row, prepared: Prepared, now: int)
    requires IsCapture(row, prepared, now)
    ensures row.reading.deviceId in prepared
    ensures var spec := prepared[row.reading.deviceId].1;
      && row.reading.sourceUnit == spec.unit && row.reading.scale == spec.scale
      && row.reading.source == "batch" && row.reading.recordedAt == now && row.reading.eventKey.None?
  {
    hide NormalizeEnergy, RawText, NumEq;
  }

  function IdsOf(devices: seq<Devices.Device>): (ids: seq<string>)
    ensures |ids| == |devices| && forall i | 0 <= i < |devices| :: ids[i] == devices[i].id
  {
    seq(|devices|, i requires 0 <= i < |devices| => devices[i].id)
  }

  lemma OneMoreId(devices: seq<Devices.Device>, i: nat)
    requires i < |devices|
    requires forall j, k | 0 <= j < k < |devices| :: devices[j].id != devices[k].id
    ensures IdsOf(devices[..i + 1]) == IdsOf(devices[..i]) + [devices[i].id]
    ensures devices[i].id !in IdsOf(devices[..i])
  {
  }

  predicate Distinct(ids: seq<string>) {
    forall i, j | 0 <= i < j < |ids| :: ids[i] != ids[j]
  }

  datatype RefreshResult = RefreshResult(
    device: Devices.Device,
    reading: Option<Row>,
    latest: Option<Row>,
    failure: Option<Failure>)

  /** `latest_for_device`: the newest by time, then by id. */
  function Latest(table: seq<Row>, deviceId: string): (r: Option<Row>)
    ensures r.Some? ==> r.value in table && r.value.reading.deviceId == deviceId
    ensures r.None? ==> forall i | 0 <= i < |table| :: table[i].reading.deviceId != deviceId
  {
    if table == [] then None
    else
      var last, rest := table[|table| - 1], Latest(table[..|table| - 1], deviceId);
      if last.reading.deviceId != deviceId then rest
      else if rest.Some? && (last.reading.recordedAt < rest.value.reading.recordedAt
                             || (last.reading.recordedAt == rest.value.reading.recordedAt && last.id < rest.value.id)) then rest
      else Some(last)
  }

  /** Nothing stored for the device is newer than its latest reading. */
  lemma {:induction false} LatestIsNewest(table: seq<Row>, deviceId: string, i: nat)
    requires i < |table| && table[i].reading.deviceId == deviceId
    ensures
      var latest := Latest(table, deviceId);
      && latest.Some?
      && (table[i].reading.recordedAt < latest.value.reading.recordedAt
          || (table[i].reading.recordedAt == latest.value.reading.recordedAt && table[i].id <= latest.value.id))
    decreases |table|
  {
    if i < |table| - 1 {
      LatestIsNewest(table[..|table| - 1], deviceId, i);
    }
  }

  predicate IsPending(pending: seq<Reading>, id: string) {
    exists k | 0 <= k < |pending| :: pending[k].deviceId == id
  }

  lemma NothingPending()
    ensures forall id :: !IsPending([], id)
  {
  }

  lemma PendingGrows(pending: seq<Reading>, r: Reading, id: string)
    ensures IsPending(pending + [r], id) <==> IsPending(pending, id) || r.deviceId == id
  {
    var after := pending + [r];
    assert after[|pending|] == r;
    assert forall k | 0 <= k < |pending| :: after[k] == pending[k];
  }

  // ------------------------------------------------------------ the service

  class ReadingService {
    const service: Devices.DeviceService
    const repository: ReadingRepository
    const gateway: StatusGateway
    const ctx: CancellationContext

    constructor (service: Devices.DeviceService, repository: ReadingRepository, gateway: StatusGateway,
                 ctx: CancellationContext)
      ensures this.service == service && this.repository == repository && this.gateway == gateway && this.ctx == ctx
    {
      this.service, this.repository, this.gateway, this.ctx := service, repository, gateway, ctx;
    }

    /** The readings of one response, in chunk order; whatever cannot be built is a failure of its device. */
    method BuildPending(chunk: seq<string>, prepared: Prepared, response: map<string, DeviceStatus>,
                        known: map<string, Failure>, now: int)
      returns (pending: seq<Reading>, failures: map<string, Failure>)
      requires Distinct(chunk) && forall id | id in chunk :: id in prepared && id !in known
      ensures forall k | 0 <= k < |pending| :: pending[k].deviceId in chunk && pending[k].deviceId in response
      ensures forall j, k | 0 <= j < k < |pending| :: pending[j].deviceId != pending[k].deviceId
      ensures forall id | id in chunk ::
        (id in failures) != IsPending(pending, id)
      ensures forall id | id !in chunk :: id in failures <==> id in known
      ensures forall id | id in known :: id in failures && failures[id] == known[id]
      ensures forall k | 0 <= k < |pending| ::
        var id := pending[k].deviceId;
        BuildReading(id, response[id], prepared[id].1, now, "batch") == Ok(pending[k])
      ensures forall id | id in chunk && id in failures ::
        Fate(id, if id in response then Got(response[id]) else Missing, prepared[id].1, now) == Err(failures[id])
      ensures forall id | id in failures && id !in chunk :: failures[id] == known[id]
    {
      hide BuildReading, IsPending;
      NothingPending();
      pending := [];
      failures := known;
      for i := 0 to |chunk|
        invariant forall k | 0 <= k < |pending| :: pending[k].deviceId in chunk[..i] && pending[k].deviceId in response
        invariant forall j, k | 0 <= j < k < |pending| :: pending[j].deviceId != pending[k].deviceId
        invariant forall id | id !in chunk[..i] :: !IsPending(pending, id)
        invariant forall id | id in chunk[..i] ::
          (id in failures) != IsPending(pending, id)
        invariant forall id | id !in chunk[..i] :: id in failures <==> id in known
        invariant forall id | id in known :: id in failures && failures[id] == known[id]
        invariant forall k | 0 <= k < |pending| ::
          var id := pending[k].deviceId;
          BuildReading(id, response[id], prepared[id].1, now, "batch") == Ok(pending[k])
        invariant forall id | id in chunk[..i] && id in failures ::
          Fate(id, if id in response then Got(response[id]) else Missing, prepared[id].1, now) == Err(failures[id])
        invariant forall id | id in failures && id !in chunk[..i] :: failures[id] == known[id]
      {
        var id := chunk[i];
        assert id !in chunk[..i] && chunk[..i + 1] == chunk[..i] + [id];
        if id !in response {
          failures := failures[id := StatusMissing];
        } else {
          var reading := BuildReading(id, response[id], prepared[id].1, now, "batch");
          BuiltForDevice(id, response[id], prepared[id].1, now, "batch");
          if reading.Err? {
            failures := failures[id := reading.error];
          } else {
            forall d ensures IsPending(pending + [reading.value], d) <==> IsPending(pending, d) || d == id {
              PendingGrows(pending, reading.value, d);
            }
            pending := pending + [reading.value];
          }
        }
      }
      assert chunk[..|chunk|] == chunk;
    }

    /** `captured[device_id] = reading` for every saved reading, in step with the pending ones. */
    method MergeCaptured(known: map<string, Row>, pending: seq<Reading>, saved: seq<Row>)
      returns (captured: map<string, Row>)
      requires |pending| == |saved|
      requires forall j, k | 0 <= j < k < |pending| :: pending[j].deviceId != pending[k].deviceId
      ensures forall k | 0 <= k < |pending| ::
        pending[k].deviceId in captured && captured[pending[k].deviceId] == saved[k]
      ensures forall id :: id in captured <==> id in known || IsPending(pending, id)
      ensures forall id | id in known && !IsPending(pending, id) :: captured[id] == known[id]
    {
      captured := known;
      for i := 0 to |pending|
        invariant forall k | 0 <= k < i :: pending[k].deviceId in captured && captured[pending[k].deviceId] == saved[k]
        invariant forall id :: id in captured <==> id in known || exists k | 0 <= k < i :: pending[k].deviceId == id
        invariant forall id | id in known && !IsPending(pending, id) :: captured[id] == known[id]
      {
        captured := captured[pending[i].deviceId := saved[i]];
      }
    }

    /** The capture loop of `refresh` over its chunks. */
    method CaptureAll(prepared: Prepared, eligible: seq<string>, failures: map<string, Failure>, now: int)
      returns (r: Result<Progress, RefreshError>, ghost staged: bool)
      requires repository.connection.Valid() && ctx.Valid()
      requires repository.connection.working == repository.connection.committed
      requires Distinct(eligible) && forall id | id in eligible :: id in prepared && id !in failures
      modifies repository.connection, service.devices`committed, gateway, ctx.clock, ctx`cancelled, ctx`calls, ctx`reserve
      ensures repository.connection.Valid() && ctx.Valid()
      ensures old(repository.connection.committed) <= repository.connection.committed
      ensures if staged then service.devices.committed == service.devices.rows
              else service.devices.committed == old(service.devices.committed)
                   && repository.connection.committed == old(repository.connection.committed)
      ensures AreCaptures(repository.connection.committed[|old(repository.connection.committed)|..], prepared, now)
      ensures r.Ok? ==>
        && repository.connection.working == repository.connection.committed
        && Accounts(r.value, eligible, repository.connection.committed[|old(repository.connection.committed)|..])
        && SameElsewhere(Progress(failures, {}, map[]), r.value, eligible)
        && old(gateway.exchanges) <= gateway.exchanges
        && AskedFor(old(gateway.exchanges), gateway.exchanges, Chunks(eligible, 20))
        && FatesHold(r.value, eligible, prepared, gateway.exchanges[|old(gateway.exchanges)|..], now)
    {
      hide WellFormed, CapturedSoFar, Accounts, Flatten, Distinct, Chunks, AreCaptures, FatesHold, SameElsewhere, AskedFor;
      hide Fate, HasFate;
      staged := false;
      var progress := Progress(failures, {}, map[]);
      ghost var base, asked, start := repository.connection.committed, gateway.exchanges, progress;
      assert base[|base|..] == [];
      CaptureStarts(progress, prepared, asked, now);
      CapturedMeans(start, progress, [], prepared, asked, asked, [], now);
      if eligible == [] {
        NoChunks();
        r := Ok(progress);
        return;
      }
      var committed := CommitMetadata();
      staged := committed;
      if !committed { r := Err(StoreFailed(Faulted)); return; }
      var live := ctx.Checkpoint();
      if live.Err? { r := Err(Halted(live.error)); return; }
      var chunks := Chunks(eligible, MAX_BATCH_SIZE);
      ChunksFlatten(eligible, MAX_BATCH_SIZE);
      for c := 0 to |chunks|
        invariant repository.connection.Valid() && !repository.connection.inTransaction && ctx.Valid()
        invariant base <= repository.connection.committed && service.devices.committed == service.devices.rows
        invariant CapturedSoFar(start, progress, chunks[..c], prepared, asked, gateway.exchanges,
                                repository.connection.committed[|base|..], now)
      {
        NextChunk(chunks, eligible, c);
        assert chunks[..c + 1] == chunks[..c] + [chunks[c]];
        ghost var before, appended := gateway.exchanges, repository.connection.committed[|base|..];
        CapturedMeans(start, progress, chunks[..c], prepared, asked, before, appended, now);
        FreeElsewhere(start, progress, Flatten(chunks[..c]), chunks[c]);
        var captured;
        ghost var exchange;
        captured, exchange := CaptureChunk(chunks[c], prepared, progress, now, Flatten(chunks[..c]), base);
        if captured.Err? { r := Err(captured.error); return; }
        OneMoreCaptured(start, progress, captured.value, chunks[..c], prepared, asked, before, exchange, appended,
                        repository.connection.committed[|base|..], now);
        progress := captured.value;
      }
      assert chunks[..|chunks|] == chunks;
      CapturedMeans(start, progress, chunks, prepared, asked, gateway.exchanges, repository.connection.committed[|base|..],
                    now);
      r := Ok(progress);
    }

    /** `prepare_capture_phase`: one commit for everything this connection has written, device rows included. */
    method CommitMetadata() returns (ok: bool)
      requires repository.connection.Valid()
      modifies repository.connection, service.devices`committed
      ensures repository.connection.Valid() && repository.connection.working == old(repository.connection.working)
      ensures ok ==>
        && repository.connection.committed == repository.connection.working && !repository.connection.inTransaction
        && service.devices.committed == service.devices.rows
      ensures !ok ==>
        && repository.connection.committed == old(repository.connection.committed)
        && service.devices.committed == old(service.devices.committed)
    {
      ok := repository.PrepareCapturePhase();
      if ok {
        service.devices.Commit();
      }
    }

    /** `refresh` */
    method Refresh(listing: DeviceListing, now: int)
      returns (r: Result<seq<RefreshResult>, RefreshError>, ghost listed: seq<string>, ghost delivered: Delivered,
               ghost prepared: Prepared, ghost appended: seq<Row>, ghost staged: bool)
      requires listing.rows == [] && listing.cursors == [] && listing.pages == []
      requires repository.connection.Valid() && ctx.Valid() && Devices.KeyedById(service.devices.rows)
      requires repository.connection.working == repository.connection.committed
      modifies listing, service.devices, service.gateway, gateway, repository.connection
      modifies ctx.clock, ctx`cancelled, ctx`calls, ctx`reserve
      ensures repository.connection.Valid() && ctx.Valid() && Devices.KeyedById(service.devices.rows)
      ensures old(repository.connection.committed) <= repository.connection.committed
      ensures if staged then service.devices.committed == service.devices.rows
              else service.devices.committed == old(service.devices.committed)
                   && repository.connection.committed == old(repository.connection.committed)
      ensures AreCaptures(repository.connection.committed[|old(repository.connection.committed)|..], prepared, now)
      ensures old(service.gateway.exchanges) <= service.gateway.exchanges
      ensures forall id | id in prepared ::
        Devices.SpecificationExchange(id, Devices.Valid(prepared[id].1))
          in service.gateway.exchanges[|old(service.gateway.exchanges)|..]
      ensures r.Ok? ==>
        && IsWhole(listing.pages) && listed == ListedIds(FirstOfEachId(listing.rows))
        && AskedOnceEach(old(service.gateway.exchanges), service.gateway.exchanges, listed, delivered)
        && AskedInBatches(old(gateway.exchanges), gateway.exchanges, listed, delivered)
        && appended == repository.connection.committed[|old(repository.connection.committed)|..]
        && IsFullReport(r.value, listed, delivered, gateway.exchanges[|old(gateway.exchanges)|..], now, appended,
                        repository.connection.committed)
        && AreStoredOnce(r.value, |listed|, service.devices.rows)
        && forall id | id in service.devices.rows && id !in listed && service.devices.rows[id].present == Some(false) ::
             HasResult(r.value, id)
    {
      hide WellFormed, Accounts, IsSorted, IsFullReport, FirstOfEachId, DistinctRows, Distinct, DistinctIds;
      hide Devices.KeyedById, Devices.Discovered, Devices.UpsertAll, Devices.AllMissing;
      hide IsCapture, IsWhole, FollowsCursors, HasResult, CancellationContext.MustStop, FatesHold, SameElsewhere;
      hide AreStoredOnce;
      hide AskedFor, AskedOnceEach, Chunks, AreCaptures, WithValid, Latest, ListedIds, IdsOf, MinReal, Max;
      listed, delivered, prepared, appended, staged := [], map[], map[], [], false;
      ghost var base := repository.connection.committed;
      NoCaptures(base, now);
      var devices, current, eligible, failures, refused;
      ghost var outcomes;
      devices, current, eligible, failures, refused, outcomes := ListAndSpecify(listing, now);
      if devices.Err? { r := Err(devices.error); return; }
      prepared, delivered := current, outcomes;
      var captured;
      captured, staged := CaptureAll(current, eligible, failures, now);
      if captured.Err? { r := Err(captured.error); return; }
      ghost var rows := repository.connection.committed[|base|..];
      AppendedAreDistinct(repository.connection.committed, |base|);
      var report := Report(devices.value, outcomes, current, eligible, failures, refused, captured.value,
                           gateway.exchanges[|old(gateway.exchanges)|..], rows, now);
      listed, appended := IdsOf(devices.value), rows;
      r := Ok(report);
    }

    /** The first half of `refresh`: the listing, its discovery, and the specifications. Nothing is committed yet. */
    method ListAndSpecify(listing: DeviceListing, now: int)
      returns (r: Result<seq<Devices.Device>, RefreshError>, prepared: Prepared, eligible: seq<string>,
               failures: map<string, Failure>, unsupported: set<string>, ghost delivered: Delivered)
      requires listing.rows == [] && listing.cursors == [] && listing.pages == []
      requires repository.connection.Valid() && ctx.Valid() && Devices.KeyedById(service.devices.rows)
      modifies listing, service.devices`rows, service.gateway, repository.connection`inTransaction
      modifies ctx.clock, ctx`cancelled
      ensures repository.connection.Valid() && ctx.Valid() && Devices.KeyedById(service.devices.rows)
      ensures old(service.gateway.exchanges) <= service.gateway.exchanges
      ensures r.Ok? ==>
        && IsWhole(listing.pages) && IdsOf(r.value) == ListedIds(FirstOfEachId(listing.rows))
        && AskedOnceEach(old(service.gateway.exchanges), service.gateway.exchanges, IdsOf(r.value), delivered)
        && IsSorted(IdsOf(r.value), delivered, prepared, eligible, failures, unsupported)
        && Distinct(eligible) && eligible == WithValid(IdsOf(r.value), delivered)
        && (forall id | id in eligible :: id in prepared && id !in failures)
        && (forall id | id in prepared ::
              Devices.SpecificationExchange(id, Devices.Valid(prepared[id].1))
                in service.gateway.exchanges[|old(service.gateway.exchanges)|..])
    {
      hide WellFormed, IsSorted, FirstOfEachId, Distinct, DistinctIds, Devices.KeyedById, Devices.Discovered;
      hide IsWhole, FollowsCursors, CancellationContext.MustStop, AskedOnceEach, WithValid, ListedIds;
      prepared, eligible, failures, unsupported, delivered := map[], [], map[], {}, map[];
      var live := ctx.Checkpoint();
      if live.Err? { r := Err(Halted(live.error)); return; }
      var remote := ListDevices(listing, ctx);
      var devices := service.Discover(remote, now);
      if devices.Err? { r := Err(Listing(devices.error)); return; }
      repository.connection.inTransaction := true;
      DiscoveredIds(devices.value, remote.value);
      var ready;
      ready, prepared, eligible, failures, unsupported, delivered := PrepareSpecifications(devices.value, now);
      if ready.Err? { r := Err(ready.error); return; }
      live := ctx.Checkpoint();
      if live.Err? { r := Err(Halted(live.error)); return; }
      EligibleAreFree(IdsOf(devices.value), delivered, prepared, eligible, failures, unsupported);
      PreparedWereAsked(old(service.gateway.exchanges), service.gateway.exchanges, IdsOf(devices.value), delivered,
                        prepared, eligible, failures, unsupported);
      r := Ok(devices.value);
    }

    /**
     * `refresh` inside `Database.connect`: what is left at the end is committed. An error before the metadata
     * stage was committed leaves both tables as they were; one after it keeps the device rows of that stage
     * and every capture of an earlier response.
     */
    method RefreshConnected(listing: DeviceListing, now: int)
      returns (r: Result<seq<RefreshResult>, RefreshError>, ghost staged: bool)
      requires listing.rows == [] && listing.cursors == [] && listing.pages == []
      requires repository.connection.Valid() && ctx.Valid() && Devices.KeyedById(service.devices.rows)
      requires repository.connection.working == repository.connection.committed
      requires service.devices.rows == service.devices.committed
      modifies listing, service.devices, service.gateway, gateway, repository.connection
      modifies ctx.clock, ctx`cancelled, ctx`calls, ctx`reserve
      ensures repository.connection.Valid() && !repository.connection.inTransaction
      ensures service.devices.rows == service.devices.committed && Devices.KeyedById(service.devices.rows)
      ensures old(repository.connection.committed) <= repository.connection.committed
      ensures r.Ok? ==> !ctx.MustStop()
      ensures r.Err? && !staged ==>
        && service.devices.rows == old(service.devices.rows)
        && repository.connection.committed == old(repository.connection.committed)
    {
      hide WellFormed, IsFullReport, Devices.KeyedById, HasResult, AreStoredOnce, IsWhole, AreCaptures;
      hide CancellationContext.MustStop;
      hide AskedOnceEach, AskedInBatches;
      ghost var listed, delivered, prepared, appended;
      r, listed, delivered, prepared, appended, staged := Refresh(listing, now);
      if r.Ok? {
        var live := ctx.Checkpoint();
        if live.Err? {
          r := Err(Halted(live.error));
        } else {
          var committed := CommitMetadata();
          if !committed { r := Err(StoreFailed(Faulted)); }
        }
      }
      if r.Err? {
        repository.connection.Rollback();
        service.devices.Rollback();
      }
    }

    /**
     * `capture_individual_status`: a normal return either saved exactly one row for the device or says
     * why the status could not become a reading; every error leaves the readings as they were.
     */
    method CaptureIndividualStatus(deviceId: string, now: int)
      returns (r: Result<(DeviceStatus, Result<Row, Failure>), RefreshError>, ghost spec: Devices.EnergySpecification)
      requires repository.connection.Valid() && ctx.Valid() && Devices.KeyedById(service.devices.rows)
      requires repository.connection.working == repository.connection.committed
      modifies service.devices, service.gateway, gateway, repository.connection
      modifies ctx.clock, ctx`cancelled, ctx`calls, ctx`reserve
      ensures repository.connection.Valid() && ctx.Valid()
      ensures old(deviceId !in service.devices.rows) ==> r.Err?
      ensures r.Ok? ==>
        && service.gateway.exchanges == old(service.gateway.exchanges)
             + [Devices.SpecificationExchange(deviceId, Devices.Valid(spec))]
        && gateway.exchanges == old(gateway.exchanges) + [StatusExchange([deviceId], Some(map[deviceId := r.value.0]))]
      ensures r.Ok? && r.value.1.Ok? ==>
        && repository.connection.committed == old(repository.connection.committed) + [r.value.1.value]
        && r.value.1.value.reading.deviceId == deviceId && r.value.1.value.reading.source == "status"
        && BuildReading(deviceId, r.value.0, spec, now, "status").Ok?
        && r.value.1.value.reading == AsStored(BuildReading(deviceId, r.value.0, spec, now, "status").value)
      ensures r.Ok? && r.value.1.Err? && r.value.1.error != NotSaved ==>
        BuildReading(deviceId, r.value.0, spec, now, "status") == Err(r.value.1.error)
      ensures r.Ok? && r.value.1 == Err(NotSaved) ==>
        Answered(|old(ctx.calls)|) && ctx.clock.now >= ctx.calls[|ctx.calls| - 1].ended + 5.0
      ensures r.Err? || r.value.1.Err? ==>
        repository.connection.committed == old(repository.connection.committed)
    {
      hide WellFormed, BuildReading, AsStored, Devices.Specified, CancellationContext.MustStop, Devices.KeyedById;
      hide Devices.HasCompleteSpecification;
      spec := Devices.EnergySpecification("", "", 0, "");
      var live := ctx.Checkpoint();
      if live.Err? { r := Err(Halted(live.error)); return; }
      if deviceId !in service.devices.rows { r := Err(UnknownDevice); return; }
      var device := service.devices.rows[deviceId];
      assert device.id == deviceId by { KeyIsId(service.devices.rows, deviceId); }
      var specified;
      ghost var outcome;
      specified, outcome := service.EnsureEnergySpecification(device, true, now);
      if specified.Err? { r := Err(NoSpecification(specified.error)); return; }
      spec := specified.value.1;
      repository.connection.inTransaction := true;
      live := ctx.Checkpoint();
      if live.Err? { r := Err(Halted(live.error)); return; }
      var prepared := CommitMetadata();
      if !prepared { r := Err(StoreFailed(Faulted)); return; }
      var answered := RequestUnderReserve();
      if answered.Err? { r := Err(answered.error); return; }
      if !answered.value { r := Err(NoStatus); return; }
      var status := gateway.GetDeviceStatus(deviceId);
      var captured := CaptureStatus(deviceId, status, specified.value.1, now, ctx.clock.now);
      if captured.Err? { r := Err(captured.error); return; }
      r := Ok((status, captured.value));
    }

    /** What one device's status becomes: one saved row, or the reason there is none. */
    method CaptureStatus(deviceId: string, status: DeviceStatus, spec: Devices.EnergySpecification, now: int,
                         ghost answeredAt: real)
      returns (r: Result<Result<Row, Failure>, RefreshError>)
      requires repository.connection.Valid() && !repository.connection.inTransaction
      requires answeredAt <= ctx.clock.now && answeredAt + 5.0 <= ctx.deadline
      modifies repository.connection, ctx.clock
      ensures repository.connection.Valid()
      ensures r.Ok? && r.value.Ok? ==>
        && repository.connection.committed == old(repository.connection.committed) + [r.value.value]
        && r.value.value.reading.deviceId == deviceId && r.value.value.reading.source == "status"
        && BuildReading(deviceId, status, spec, now, "status").Ok?
        && r.value.value.reading == AsStored(BuildReading(deviceId, status, spec, now, "status").value)
      ensures r.Ok? && r.value.Err? ==>
        if r.value.error == NotSaved then ctx.clock.now >= answeredAt + 5.0
        else BuildReading(deviceId, status, spec, now, "status") == Err(r.value.error)
      ensures r.Err? || r.value.Err? ==> repository.connection.committed == old(repository.connection.committed)
    {
      hide WellFormed, BuildReading, AsStored, CancellationContext.MustStop;
      var remaining := ctx.RemainingSeconds();
      ghost var respondedAt := ctx.clock.now;
      var reading := BuildReading(deviceId, status, spec, now, "status");
      BuiltForDevice(deviceId, status, spec, now, "status");
      if reading.Err? { return Ok(Err(reading.error)); }
      var saved := SavePending([reading.value], remaining, respondedAt, answeredAt);
      if saved.Err? {
        if saved.error.Halted? { return Ok(Err(NotSaved)); }
        return Err(saved.error);
      }
      assert saved.value == [saved.value[0]];
      return Ok(Ok(saved.value[0]));
    }

    /** The result loop of `refresh`: the listed devices in order, then the cached ones that are gone. */
    method Report(devices: seq<Devices.Device>, ghost delivered: Delivered, prepared: Prepared, ghost eligible: seq<string>,
                  ghost failures: map<string, Failure>, unsupported: set<string>, p: Progress,
                  ghost exchanges: seq<StatusExchange>, ghost appended: seq<Row>, ghost now: int)
      returns (results: seq<RefreshResult>)
      requires Devices.KeyedById(service.devices.rows)
      requires IsSorted(IdsOf(devices), delivered, prepared, eligible, failures, unsupported)
      requires Accounts(p, eligible, appended) && DistinctRows(appended) && AreCaptures(appended, prepared, now)
      requires SameElsewhere(Progress(failures, {}, map[]), p, eligible)
      requires FatesHold(p, eligible, prepared, exchanges, now)
      ensures IsFullReport(results, IdsOf(devices), delivered, exchanges, now, appended, repository.connection.working)
      ensures forall id | id in service.devices.rows && id !in IdsOf(devices)
          && service.devices.rows[id].present == Some(false) :: HasResult(results, id)
      ensures AreStoredOnce(results, |devices|, service.devices.rows)
    {
      hide Accounts, IsSorted, DistinctRows, HasResult, IsResultOf, Latest, AreCaptures, Devices.KeyedById;
      hide SameElsewhere, FatesHold;
      OneRowPerDevice(p, eligible, IdsOf(devices), delivered, prepared, failures, unsupported, appended);
      results := [];
      for i := 0 to |devices|
        invariant |results| == i
        invariant forall j | 0 <= j < i ::
          IsResultOf(results[j], IdsOf(devices)[j], delivered, exchanges, now, appended, repository.connection.working)
      {
        assert IdsOf(devices)[i] == devices[i].id;
        var result := ResultOf(devices[i], prepared, unsupported, p, IdsOf(devices), delivered, eligible, failures,
                               exchanges, appended, now);
        results := results + [result];
      }
      var cached := service.devices.ListAll();
      for i := 0 to |cached|
        invariant |results| >= |devices|
        invariant forall j | 0 <= j < |devices| ::
          IsResultOf(results[j], IdsOf(devices)[j], delivered, exchanges, now, appended, repository.connection.working)
        invariant forall j | |devices| <= j < |results| ::
          IsSilent(results[j], repository.connection.working) && results[j].device.id !in IdsOf(devices)
        invariant forall j | 0 <= j < i && cached[j].id !in IdsOf(devices) && cached[j].present == Some(false) ::
          HasResult(results, cached[j].id)
        invariant AreStoredOnce(results, |devices|, service.devices.rows)
        invariant forall j, k | |devices| <= j < |results| && i <= k < |cached| :: results[j].device.id != cached[k].id
      {
        if cached[i].id !in IdsOf(devices) && cached[i].present == Some(false) {
          ResultsGrow(results, cached[i]);
          results := results + [RefreshResult(cached[i], None, Latest(repository.connection.working, cached[i].id), None)];
        }
      }
    }

    /** The result of one listed device. */
    method ResultOf(device: Devices.Device, prepared: Prepared, unsupported: set<string>, p: Progress,
                    ghost ids: seq<string>, ghost delivered: Delivered, ghost eligible: seq<string>,
                    ghost failures: map<string, Failure>, ghost exchanges: seq<StatusExchange>,
                    ghost appended: seq<Row>, ghost now: int)
      returns (result: RefreshResult)
      requires Devices.KeyedById(service.devices.rows) && device.id in ids
      requires IsSorted(ids, delivered, prepared, eligible, failures, unsupported) && Accounts(p, eligible, appended)
      requires AreCaptures(appended, prepared, now)
      requires SameElsewhere(Progress(failures, {}, map[]), p, eligible)
      requires FatesHold(p, eligible, prepared, exchanges, now)
      ensures IsResultOf(result, device.id, delivered, exchanges, now, appended, repository.connection.working)
    {
      hide IsCapture, Latest, IsSorted, Accounts, SameElsewhere, FatesHold, Fate, AnswerTo, AsStored;
      SettledResult(ids, delivered, prepared, eligible, failures, unsupported, p, exchanges, appended, device.id, now);
      if device.id in p.captured {
        assert IsCapture(p.captured[device.id], prepared, now);
        CaptureShape(p.captured[device.id], prepared, now);
      }
      var id := device.id;
      var current :=
        if id in prepared then prepared[id].0
        else if id in service.devices.rows then service.devices.rows[id] else device;
      var failure: Option<Failure> := if id in p.failures then Some(p.failures[id]) else None;
      var reading: Option<Row> := None;
      if id !in unsupported && failure.None? {
        if id !in p.statuses {
          failure := Some(StatusMissing);
        } else if id in p.captured {
          reading := Some(p.captured[id]);
        } else {
          failure := Some(NotSaved);
        }
      }
      result := RefreshResult(
        current, reading, if reading.Some? then reading else Latest(repository.connection.working, id), failure);
    }

    /** The specification loop of `refresh`: every listed device is revalidated before any capture. */
    method PrepareSpecifications(devices: seq<Devices.Device>, now: int)
      returns (r: Result<(), RefreshError>, prepared: Prepared, eligible: seq<string>,
               failures: map<string, Failure>, unsupported: set<string>, ghost delivered: Delivered)
      requires Devices.KeyedById(service.devices.rows)
      requires forall i, j | 0 <= i < j < |devices| :: devices[i].id != devices[j].id
      modifies service.devices`rows, service.gateway, ctx.clock, ctx`cancelled
      ensures Devices.KeyedById(service.devices.rows)
      ensures old(service.gateway.exchanges) <= service.gateway.exchanges
      ensures r.Ok? ==>
        && IsSorted(IdsOf(devices), delivered, prepared, eligible, failures, unsupported)
        && AskedOnceEach(old(service.gateway.exchanges), service.gateway.exchanges, IdsOf(devices), delivered)
    {
      hide Devices.KeyedById, Devices.Specified, CancellationContext.MustStop, IsSorted, AskedOnceEach;
      hide Devices.HasCompleteSpecification;
      prepared, eligible, failures, unsupported, delivered := map[], [], map[], {}, map[];
      NothingIsSorted();
      NothingAsked(service.gateway.exchanges);
      r := Ok(());
      for i := 0 to |devices|
        invariant Devices.KeyedById(service.devices.rows)
        invariant old(service.gateway.exchanges) <= service.gateway.exchanges
        invariant IsSorted(IdsOf(devices[..i]), delivered, prepared, eligible, failures, unsupported)
        invariant AskedOnceEach(old(service.gateway.exchanges), service.gateway.exchanges, IdsOf(devices[..i]), delivered)
      {
        var live := ctx.Checkpoint();
        if live.Err? { r := Err(Halted(live.error)); return; }
        var device := devices[i];
        OneMoreId(devices, i);
        ghost var ids, rows := IdsOf(devices[..i]), service.devices.rows;
        var specified;
        ghost var outcome;
        specified, outcome := service.EnsureEnergySpecification(device, true, now);
        Devices.SpecificationKeepsKeys(rows, device, outcome.value, now);
        OneMoreAsked(old(service.gateway.exchanges), service.gateway.exchanges, ids, delivered, device.id, outcome.value);
        if specified.Ok? {
          OneMorePrepared(ids, delivered, prepared, eligible, failures, unsupported, device.id, specified.value);
          prepared := prepared[device.id := specified.value];
          eligible := eligible + [device.id];
        } else if specified.error.NotSupported? {
          OneMoreUnsupported(ids, delivered, prepared, eligible, failures, unsupported, device.id, outcome.value);
          unsupported := unsupported + {device.id};
        } else {
          OneMoreFailed(ids, delivered, prepared, eligible, failures, unsupported, device.id, outcome.value,
                        SpecificationFailed(specified.error));
          failures := failures[device.id := SpecificationFailed(specified.error)];
        }
        delivered := delivered[device.id := outcome.value];
      }
      assert devices[..|devices|] == devices;
    }

    /** A call made since there were `n` was answered, and it was the last one. */
    ghost predicate Answered(n: nat)
      reads ctx
    {
      |ctx.calls| > n && !ctx.calls[|ctx.calls| - 1].failed
    }

    /**
     * One status request, with a token request before it if needed, under the save reserve: false if it
     * failed. At a normal return after an answer the five seconds for saving are still left.
     */
    method RequestUnderReserve() returns (r: Result<bool, RefreshError>)
      requires ctx.Valid()
      modifies ctx.clock, ctx`cancelled, ctx`calls, ctx`reserve
      ensures ctx.Valid() && ctx.reserve == old(ctx.reserve) && ctx.clock.now >= old(ctx.clock.now)
      ensures old(ctx.calls) <= ctx.calls
      ensures forall i | |old(ctx.calls)| <= i < |ctx.calls| ::
        ctx.calls[i].reserve == Max(ctx.reserve, 5.0) && ctx.calls[i].ended + 5.0 <= ctx.deadline
      ensures r == Err(Halted(NoTimeToSave)) ==> ctx.clock.now + Max(ctx.reserve, 5.0) >= ctx.deadline
      ensures r == Ok(true) ==> Answered(|old(ctx.calls)|) && ctx.calls[|ctx.calls| - 1].ended == ctx.clock.now
      ensures r == Ok(true) ==> ctx.clock.now + 5.0 <= ctx.deadline
      ensures r == Ok(false) && |ctx.calls| > |old(ctx.calls)| && ctx.calls[|ctx.calls| - 1].failed ==>
        ctx.clock.now + 5.0 <= ctx.deadline
      ensures r == Err(Halted(NoTimeToSave)) ==> !Answered(|old(ctx.calls)|)
    {
      var live := ctx.Checkpoint();
      if live.Err? { return Err(Halted(live.error)); }
      var needsToken: bool := *;
      var work := if needsToken then [Call, Call] else [Call];
      assert EndsWithCall(work) && IsFlat(work) by { assert work[|work| - 1] == Call; }
      var called := ctx.ReserveAfterRemote(SAVE_RESERVE, work);
      if called.Ok? { return Ok(true); }
      if called.error.RemoteFailed? { return Ok(false); }
      return Err(Halted(called.error));
    }

    /** One chunk of the capture loop: request, readings, one transaction. */
    method CaptureChunk(chunk: seq<string>, prepared: Prepared, p: Progress, now: int,
                        ghost processed: seq<string>, ghost base: seq<Row>)
      returns (r: Result<Progress, RefreshError>, ghost exchange: StatusExchange)
      requires repository.connection.Valid() && !repository.connection.inTransaction && ctx.Valid()
      requires Distinct(chunk) && forall id | id in chunk :: id in prepared && id !in processed && id !in p.failures
      requires base <= repository.connection.committed
      requires Accounts(p, processed, repository.connection.committed[|base|..])
      requires AreCaptures(repository.connection.committed[|base|..], prepared, now)
      modifies repository.connection, gateway, ctx.clock, ctx`cancelled, ctx`calls, ctx`reserve
      ensures repository.connection.Valid() && !repository.connection.inTransaction && ctx.Valid()
      ensures old(repository.connection.committed) <= repository.connection.committed
      ensures AreCaptures(repository.connection.committed[|base|..], prepared, now)
      ensures r.Ok? ==> Accounts(r.value, processed + chunk, repository.connection.committed[|base|..])
      ensures r.Ok? ==>
        && SameElsewhere(p, r.value, chunk)
        && exchange.ids == chunk && gateway.exchanges == old(gateway.exchanges) + [exchange]
        && forall id | id in chunk :: HasFate(r.value, id, Fate(id, AnswerIn(exchange, id), prepared[id].1, now))
      ensures r == Err(Halted(NoTimeToSave)) && Answered(|old(ctx.calls)|) ==>
        ctx.clock.now >= ctx.calls[|ctx.calls| - 1].ended + 5.0
      ensures |repository.connection.begins| <= |old(repository.connection.begins)| + 1
    {
      hide WellFormed, Accounts, IsPending, BuildReading, Distinct, AreCaptures;
      exchange := StatusExchange(chunk, None);
      var answered := RequestUnderReserve();
      if answered.Err? { r := Err(answered.error); return; }
      var response := gateway.GetDevicesStatus(chunk, answered.value);
      exchange := StatusExchange(chunk, response);
      if response.None? {
        var unavailable := map id | id in chunk :: StatusUnavailable;
        ChunkFailed(p, processed, chunk, unavailable, repository.connection.committed[|base|..]);
        r := Ok(p.(failures := p.failures + unavailable));
        return;
      }
      r := CaptureResponse(chunk, prepared, p, response.value, now, processed, base, ctx.clock.now);
    }

    /** What one response is turned into: readings, failures, and one transaction for the readings. */
    method CaptureResponse(chunk: seq<string>, prepared: Prepared, p: Progress, response: map<string, DeviceStatus>,
                           now: int, ghost processed: seq<string>, ghost base: seq<Row>, ghost answeredAt: real)
      returns (r: Result<Progress, RefreshError>)
      requires repository.connection.Valid() && !repository.connection.inTransaction
      requires Distinct(chunk) && forall id | id in chunk :: id in prepared && id !in processed && id !in p.failures
      requires base <= repository.connection.committed
      requires Accounts(p, processed, repository.connection.committed[|base|..])
      requires AreCaptures(repository.connection.committed[|base|..], prepared, now)
      requires answeredAt <= ctx.clock.now && answeredAt + 5.0 <= ctx.deadline
      modifies repository.connection, ctx.clock
      ensures repository.connection.Valid() && !repository.connection.inTransaction
      ensures old(repository.connection.committed) <= repository.connection.committed
      ensures AreCaptures(repository.connection.committed[|base|..], prepared, now)
      ensures r.Ok? ==> Accounts(r.value, processed + chunk, repository.connection.committed[|base|..])
      ensures r.Ok? ==>
        && SameElsewhere(p, r.value, chunk)
        && forall id | id in chunk ::
             HasFate(r.value, id, Fate(id, if id in response then Got(response[id]) else Missing, prepared[id].1, now))
      ensures r.Err? && r.error.Halted? ==> ctx.clock.now >= answeredAt + 5.0
      ensures |repository.connection.begins| <= |old(repository.connection.begins)| + 1
    {
      hide WellFormed, Accounts, IsPending, BuildReading, Distinct, AsStored, AreCaptures, HasFate, SameElsewhere, Fate;
      var remaining := ctx.RemainingSeconds();
      ghost var respondedAt := ctx.clock.now;
      var pending, failures := BuildPending(chunk, prepared, response, p.failures, now);
      var statuses := p.statuses + response.Keys;
      if pending == [] {
        NothingPending();
        NotYetCaptured(p, processed, repository.connection.committed[|base|..], chunk);
        FatesOfChunk(p, Progress(failures, statuses, p.captured), chunk, prepared, response, [], [], now, processed);
        ChunkWithoutReadings(p, processed, chunk, failures, statuses, repository.connection.committed[|base|..]);
        return Ok(Progress(failures, statuses, p.captured));
      }
      ghost var before := repository.connection.committed;
      var saved := SavePending(pending, remaining, respondedAt, answeredAt);
      if saved.Err? { return Err(saved.error); }
      assert repository.connection.committed[|base|..] == before[|base|..] + saved.value;
      SavedAreCaptures(before[|base|..], pending, saved.value, response, prepared, now);
      var captured := MergeCaptured(p.captured, pending, saved.value);
      var after := Progress(failures, statuses, captured);
      NotYetCaptured(p, processed, before[|base|..], chunk);
      FatesOfChunk(p, after, chunk, prepared, response, pending, saved.value, now, processed);
      ChunkCaptured(p, processed, chunk, pending, saved.value, after, before[|base|..]);
      return Ok(after);
    }

    /**
     * The capture boundary: the time left for saving, then one transaction for the whole response. It is
     * refused for lack of time only when five seconds have passed since the answer.
     */
    method SavePending(pending: seq<Reading>, remaining: real, ghost respondedAt: real, ghost answeredAt: real)
      returns (r: Result<seq<Row>, RefreshError>)
      requires repository.connection.Valid() && !repository.connection.inTransaction && pending != []
      requires respondedAt <= ctx.clock.now && remaining == Max(0.0, ctx.deadline - respondedAt)
      requires answeredAt <= respondedAt && answeredAt + 5.0 <= ctx.deadline
      modifies repository.connection, ctx.clock
      ensures repository.connection.Valid() && !repository.connection.inTransaction
      ensures r.Ok? ==>
        && repository.connection.committed == old(repository.connection.committed) + r.value
        && |r.value| == |pending|
        && forall k | 0 <= k < |pending| ::
             && r.value[k].reading == AsStored(pending[k])
             && r.value[k].reading.deviceId == pending[k].deviceId && r.value[k].reading.source == pending[k].source
      ensures r.Err? ==> repository.connection.committed == old(repository.connection.committed)
      ensures r.Err? && r.error.Halted? ==> ctx.clock.now >= answeredAt + 5.0
      ensures |repository.connection.begins| <= |old(repository.connection.begins)| + 1
      ensures r.Ok? ==>
        repository.connection.begins == old(repository.connection.begins)
          + [BusyTimeoutMs(MinReal(ctx.deadline, respondedAt + 5.0) - ctx.clock.now)]
    {
      hide WellFormed, AddAllTo, AsStored, SaveTimeout, BusyTimeoutMs;
      var timeout := ctx.CaptureTimeout(remaining, respondedAt);
      if timeout.Err? {
        AnswerLeavesTimeToSave(ctx.deadline, answeredAt, respondedAt, ctx.clock.now);
        return Err(Halted(timeout.error));
      }
      var saved := repository.AddAll(pending, timeout.value);
      if saved.Err? { return Err(StoreFailed(saved.error)); }
      return Ok(saved.value);
    }
  }

  /** The devices found by key carry that key. */
  lemma KeyIsId(table: Devices.Table, id: string)
    requires Devices.KeyedById(table) && id in table
    ensures table[id].id == id
  {
  }

  lemma NotYetCaptured(p: Progress, processed: seq<string>, appended: seq<Row>, chunk: seq<string>)
    requires Accounts(p, processed, appended) && forall id | id in chunk :: id !in processed
    ensures forall id | id in chunk :: id !in p.captured
  {
  }

  /** The fates of one response: its failures, and its saved readings. */
  lemma FatesOfChunk(p: Progress, after: Progress, chunk: seq<string>, prepared: Prepared,
                     response: map<string, DeviceStatus>, pending: seq<Reading>, saved: seq<Row>, now: int,
                     processed: seq<string>)
    requires forall id | id in chunk :: id in prepared && id !in p.failures && id !in p.captured
    requires |pending| == |saved| && forall k | 0 <= k < |pending| :: saved[k].reading == AsStored(pending[k])
    requires forall k | 0 <= k < |pending| :: pending[k].deviceId in chunk && pending[k].deviceId in response
    requires forall k | 0 <= k < |pending| ::
      var id := pending[k].deviceId;
      BuildReading(id, response[id], prepared[id].1, now, "batch") == Ok(pending[k])
    requires forall id | id in chunk :: (id in after.failures) != IsPending(pending, id)
    requires forall id | id in chunk && id in after.failures ::
      Fate(id, if id in response then Got(response[id]) else Missing, prepared[id].1, now) == Err(after.failures[id])
    requires forall id | id !in chunk :: id in after.failures <==> id in p.failures
    requires forall id | id in after.failures && id !in chunk :: after.failures[id] == p.failures[id]
    requires forall k | 0 <= k < |pending| ::
      pending[k].deviceId in after.captured && after.captured[pending[k].deviceId] == saved[k]
    requires forall id :: id in after.captured <==> id in p.captured || IsPending(pending, id)
    requires forall id | id in p.captured && !IsPending(pending, id) :: after.captured[id] == p.captured[id]
    ensures SameElsewhere(p, after, chunk)
    ensures forall id | id in chunk ::
      HasFate(after, id, Fate(id, if id in response then Got(response[id]) else Missing, prepared[id].1, now))
  {
    hide BuildReading, AsStored;
    forall id | id in chunk
      ensures HasFate(after, id, Fate(id, if id in response then Got(response[id]) else Missing, prepared[id].1, now))
    {
      if IsPending(pending, id) {
        var k :| 0 <= k < |pending| && pending[k].deviceId == id;
      }
    }
    forall id | IsPending(pending, id) ensures id in chunk {
      var k :| 0 <= k < |pending| && pending[k].deviceId == id;
    }
  }

  /** The specification outcomes that this run was delivered, by device. */
  type Delivered = map<string, Devices.SpecificationOutcome>

  /** One specification request for every device, in order, and its outcome. */
  ghost predicate AskedOnceEach(before: seq<Devices.SpecificationExchange>, after: seq<Devices.SpecificationExchange>,
                                ids: seq<string>, delivered: Delivered) {
    && |after| == |before| + |ids| && before <= after
    && forall i | 0 <= i < |ids| ::
         ids[i] in delivered && after[|before| + i] == Devices.SpecificationExchange(ids[i], delivered[ids[i]])
  }

  lemma NothingAsked(exchanges: seq<Devices.SpecificationExchange>)
    ensures AskedOnceEach(exchanges, exchanges, [], map[])
  {
  }

  lemma OneMoreAsked(before: seq<Devices.SpecificationExchange>, after: seq<Devices.SpecificationExchange>,
                     ids: seq<string>, delivered: Delivered, id: string, outcome: Devices.SpecificationOutcome)
    requires id !in ids && after != [] && after[|after| - 1] == Devices.SpecificationExchange(id, outcome)
    requires AskedOnceEach(before, after[..|after| - 1], ids, delivered)
    ensures AskedOnceEach(before, after, ids + [id], delivered[id := outcome])
  {
    var shorter := after[..|after| - 1];
    assert before <= shorter;
    forall i | 0 <= i < |ids| ensures after[|before| + i] == Devices.SpecificationExchange(ids[i], delivered[ids[i]]) {
      assert shorter[|before| + i] == after[|before| + i];
    }
  }

  /** One status request for every chunk, in order. */
  ghost predicate AskedFor(before: seq<StatusExchange>, after: seq<StatusExchange>, chunks: seq<seq<string>>) {
    && |after| == |before| + |chunks| && before <= after
    && forall k | 0 <= k < |chunks| :: after[|before| + k].ids == chunks[k]
  }

  lemma NoExchanges(exchanges: seq<StatusExchange>)
    ensures AskedFor(exchanges, exchanges, []) && exchanges[|exchanges|..] == []
  {
  }

  lemma OneMoreExchange(asked: seq<StatusExchange>, before: seq<StatusExchange>, chunks: seq<seq<string>>, e: StatusExchange)
    requires AskedFor(asked, before, chunks)
    ensures AskedFor(asked, before + [e], chunks + [e.ids]) && |asked| <= |before|
    ensures (before + [e])[|asked|..] == before[|asked|..] + [e]
    ensures asked <= before
  {
    var after := before + [e];
    forall k | 0 <= k <= |chunks| ensures after[|asked| + k].ids == (chunks + [e.ids])[k] {
      assert k < |chunks| ==> after[|asked| + k] == before[|asked| + k];
    }
  }

  /** The status requests were the batches of exactly the devices with a valid specification, in listing order. */
  ghost predicate AskedInBatches(before: seq<StatusExchange>, after: seq<StatusExchange>, listed: seq<string>,
                                 delivered: Delivered) {
    AskedFor(before, after, Chunks(WithValid(listed, delivered), 20))
  }

  function WithValid(listed: seq<string>, delivered: Delivered): seq<string> {
    if listed == [] then []
    else
      var front, id := WithValid(listed[..|listed| - 1], delivered), listed[|listed| - 1];
      if id in delivered && delivered[id].Valid? then front + [id] else front
  }

  lemma {:induction false} OtherDeviceAdded(listed: seq<string>, delivered: Delivered, id: string,
                                            outcome: Devices.SpecificationOutcome)
    requires id !in listed
    ensures WithValid(listed, delivered[id := outcome]) == WithValid(listed, delivered)
  {
    if listed != [] {
      OtherDeviceAdded(listed[..|listed| - 1], delivered, id, outcome);
    }
  }

  lemma NoChunks()
    ensures Chunks([], 20) == []
  {
  }

  /** Where the capture loop stands once the chunks were captured, on every account of it. */
  ghost predicate CapturedSoFar(start: Progress, p: Progress, chunks: seq<seq<string>>, prepared: Prepared,
                                asked: seq<StatusExchange>, exchanges: seq<StatusExchange>, appended: seq<Row>, now: int) {
    && asked <= exchanges && AskedFor(asked, exchanges, chunks)
    && Accounts(p, Flatten(chunks), appended) && AreCaptures(appended, prepared, now)
    && SameElsewhere(start, p, Flatten(chunks))
    && FatesHold(p, Flatten(chunks), prepared, exchanges[|asked|..], now)
  }

  lemma CapturedMeans(start: Progress, p: Progress, chunks: seq<seq<string>>, prepared: Prepared,
                      asked: seq<StatusExchange>, exchanges: seq<StatusExchange>, appended: seq<Row>, now: int)
    requires CapturedSoFar(start, p, chunks, prepared, asked, exchanges, appended, now)
    ensures asked <= exchanges && AskedFor(asked, exchanges, chunks)
    ensures Accounts(p, Flatten(chunks), appended) && AreCaptures(appended, prepared, now)
    ensures SameElsewhere(start, p, Flatten(chunks))
    ensures FatesHold(p, Flatten(chunks), prepared, exchanges[|asked|..], now)
    ensures chunks == [] ==> Flatten(chunks) == []
  {
    hide Accounts, AreCaptures, SameElsewhere, FatesHold, AskedFor;
  }

  lemma CaptureStarts(start: Progress, prepared: Prepared, asked: seq<StatusExchange>, now: int)
    requires start.captured == map[]
    ensures CapturedSoFar(start, start, [], prepared, asked, asked, [], now)
  {
    hide Accounts, SameElsewhere, FatesHold, AskedFor;
    FlattenNothing();
    NothingToAccount(start);
    NothingSettled(start, prepared, now);
    NoExchanges(asked);
  }

  /** One more chunk: its exchange settles its devices and nobody else. */
  lemma OneMoreCaptured(start: Progress, p: Progress, q: Progress, chunks: seq<seq<string>>, prepared: Prepared,
                        asked: seq<StatusExchange>, before: seq<StatusExchange>, e: StatusExchange,
                        appended: seq<Row>, after: seq<Row>, now: int)
    requires CapturedSoFar(start, p, chunks, prepared, asked, before, appended, now) && SameElsewhere(p, q, e.ids)
    requires forall id | id in e.ids :: id !in Flatten(chunks) && id in prepared
    requires forall id | id in e.ids :: HasFate(q, id, Fate(id, AnswerIn(e, id), prepared[id].1, now))
    requires Accounts(q, Flatten(chunks) + e.ids, after) && AreCaptures(after, prepared, now)
    ensures CapturedSoFar(start, q, chunks + [e.ids], prepared, asked, before + [e], after, now)
  {
    hide Accounts, AreCaptures, SameElsewhere, FatesHold, AskedFor, Fate, HasFate, AnswerIn;
    assert (chunks + [e.ids])[..|chunks|] == chunks;
    OneMoreExchange(asked, before, chunks, e);
    ChunkSettles(p, q, Flatten(chunks), prepared, before[|asked|..], e, now);
    ElsewhereAdds(start, p, q, Flatten(chunks), e.ids);
  }

  lemma NothingSettled(p: Progress, prepared: Prepared, now: int)
    ensures FatesHold(p, [], prepared, [], now) && SameElsewhere(p, p, [])
  {
  }

  /** A later chunk's devices are still untouched. */
  lemma FreeElsewhere(start: Progress, p: Progress, processed: seq<string>, chunk: seq<string>)
    requires SameElsewhere(start, p, processed) && start.captured == map[]
    requires forall id | id in chunk :: id !in processed && id !in start.failures
    ensures forall id | id in chunk :: id !in p.failures && id !in p.captured
  {
  }

  lemma ElsewhereAdds(start: Progress, p: Progress, q: Progress, processed: seq<string>, chunk: seq<string>)
    requires SameElsewhere(start, p, processed) && SameElsewhere(p, q, chunk)
    ensures SameElsewhere(start, q, processed + chunk)
  {
  }

  predicate HasSpecification(device: Devices.Device, id: string, spec: Devices.EnergySpecification) {
    && device.id == id
    && device.energyCode == Some(spec.code) && device.energyUnit == Some(spec.unit) && device.energyScale == Some(spec.scale)
  }

  /**
   * The specification stage sorted the listed devices by what was delivered for them in this run: prepared with
   * exactly the valid specification, unsupported, or failed, each in one place only.
   */
  ghost predicate IsSorted(ids: seq<string>, delivered: Delivered, prepared: Prepared, eligible: seq<string>,
                           failures: map<string, Failure>, unsupported: set<string>) {
    && Distinct(eligible) && eligible == WithValid(ids, delivered)
    && (forall id :: id in eligible <==> id in prepared)
    && (forall id | id in prepared || id in failures || id in unsupported :: id in ids)
    && (forall id | id in ids :: id in delivered && IsPlaced(id, delivered[id], prepared, failures, unsupported))
  }

  /** Where an outcome puts its device. */
  predicate IsPlaced(id: string, outcome: Devices.SpecificationOutcome, prepared: Prepared,
                     failures: map<string, Failure>, unsupported: set<string>) {
    match outcome
    case Valid(s) =>
      && id in prepared && prepared[id].1 == s && HasSpecification(prepared[id].0, id, s)
      && id !in failures && id !in unsupported
    case Conclusive(_) => id in unsupported && id !in prepared && id !in failures
    case Malformed(_) =>
      id in failures && failures[id] == SpecificationFailed(Devices.Incompatible) && id !in prepared && id !in unsupported
    case Unreachable =>
      id in failures && failures[id] == SpecificationFailed(Devices.Inaccessible) && id !in prepared && id !in unsupported
  }

  lemma NothingIsSorted()
    ensures IsSorted([], map[], map[], [], map[], {})
  {
  }

  lemma OneMorePrepared(ids: seq<string>, delivered: Delivered, prepared: Prepared, eligible: seq<string>,
                        failures: map<string, Failure>, unsupported: set<string>, id: string,
                        item: (Devices.Device, Devices.EnergySpecification))
    requires IsSorted(ids, delivered, prepared, eligible, failures, unsupported)
    requires id !in ids && HasSpecification(item.0, id, item.1)
    ensures IsSorted(ids + [id], delivered[id := Devices.Valid(item.1)], prepared[id := item], eligible + [id],
                     failures, unsupported)
  {
    hide HasSpecification, WithValid;
    OneMoreListed(ids, delivered, id, Devices.Valid(item.1));
  }

  lemma OneMoreListed(ids: seq<string>, delivered: Delivered, id: string, outcome: Devices.SpecificationOutcome)
    requires id !in ids
    ensures WithValid(ids + [id], delivered[id := outcome])
         == WithValid(ids, delivered) + if outcome.Valid? then [id] else []
  {
    assert (ids + [id])[..|ids|] == ids;
    OtherDeviceAdded(ids, delivered, id, outcome);
  }

  lemma OneMoreUnsupported(ids: seq<string>, delivered: Delivered, prepared: Prepared, eligible: seq<string>,
                           failures: map<string, Failure>, unsupported: set<string>, id: string,
                           outcome: Devices.SpecificationOutcome)
    requires IsSorted(ids, delivered, prepared, eligible, failures, unsupported) && id !in ids && outcome.Conclusive?
    ensures IsSorted(ids + [id], delivered[id := outcome], prepared, eligible, failures, unsupported + {id})
  {
    hide HasSpecification, WithValid, Distinct;
    OneMoreListed(ids, delivered, id, outcome);
  }

  lemma OneMoreFailed(ids: seq<string>, delivered: Delivered, prepared: Prepared, eligible: seq<string>,
                      failures: map<string, Failure>, unsupported: set<string>, id: string,
                      outcome: Devices.SpecificationOutcome, failure: Failure)
    requires IsSorted(ids, delivered, prepared, eligible, failures, unsupported) && id !in ids
    requires (outcome.Malformed? && failure == SpecificationFailed(Devices.Incompatible))
          || (outcome.Unreachable? && failure == SpecificationFailed(Devices.Inaccessible))
    ensures IsSorted(ids + [id], delivered[id := outcome], prepared, eligible, failures[id := failure], unsupported)
  {
    hide HasSpecification, WithValid, Distinct;
    OneMoreListed(ids, delivered, id, outcome);
  }

  lemma NothingToAccount(p: Progress)
    requires p.captured == map[]
    ensures Accounts(p, [], [])
  {
  }

  /** A chunk's ids are new: the chunks flatten to distinct ids. */
  lemma NextChunk(chunks: seq<seq<string>>, eligible: seq<string>, c: nat)
    requires c < |chunks| && Flatten(chunks) == eligible && Distinct(eligible)
    ensures Flatten(chunks[..c + 1]) == Flatten(chunks[..c]) + chunks[c]
    ensures Distinct(chunks[c])
    ensures forall id | id in chunks[c] :: id in eligible && id !in Flatten(chunks[..c])
  {
    FlattenPrefix(chunks, c + 1);
    assert chunks[..c + 1][..c] == chunks[..c];
    DistinctPiece(Flatten(chunks[..c]), chunks[c], eligible);
  }

  lemma DistinctPiece(before: seq<string>, piece: seq<string>, all: seq<string>)
    requires before + piece <= all && Distinct(all)
    ensures Distinct(piece)
    ensures forall id | id in piece :: id in all && id !in before
  {
    forall i | 0 <= i < |piece| ensures all[|before| + i] == piece[i] {
      assert (before + piece)[|before| + i] == piece[i];
    }
    forall i | 0 <= i < |before| ensures all[i] == before[i] {
      assert (before + piece)[i] == before[i];
    }
  }

  lemma {:induction false} FlattenPrefix(chunks: seq<seq<string>>, n: nat)
    requires n <= |chunks|
    ensures Flatten(chunks[..n]) <= Flatten(chunks)
    decreases |chunks|
  {
    if n == |chunks| {
      assert chunks[..n] == chunks;
    } else {
      FlattenPrefix(chunks[..|chunks| - 1], n);
      assert chunks[..|chunks| - 1][..n] == chunks[..n];
    }
  }

  function ListedIds(listing: seq<ListedDevice>): (ids: seq<string>)
    ensures |ids| == |listing| && forall i | 0 <= i < |listing| :: ids[i] == listing[i].id
  {
    seq(|listing|, i requires 0 <= i < |listing| => listing[i].id)
  }

  lemma DiscoveredIds(devices: seq<Devices.Device>, listing: seq<ListedDevice>)
    requires |devices| == |listing| && DistinctIds(listing)
    requires forall i | 0 <= i < |listing| :: devices[i].id == listing[i].id
    ensures IdsOf(devices) == ListedIds(listing)
    ensures forall i, j | 0 <= i < j < |devices| :: devices[i].id != devices[j].id
  {
  }

  lemma EligibleAreFree(ids: seq<string>, delivered: Delivered, prepared: Prepared, eligible: seq<string>,
                        failures: map<string, Failure>, unsupported: set<string>)
    requires IsSorted(ids, delivered, prepared, eligible, failures, unsupported)
    ensures Distinct(eligible) && eligible == WithValid(ids, delivered)
    ensures forall id | id in eligible :: id in prepared && id !in failures
    ensures forall id | id in prepared :: id in delivered && delivered[id] == Devices.Valid(prepared[id].1)
  {
  }

  /** Whatever is prepared was delivered by a request of this run. */
  lemma PreparedWereAsked(before: seq<Devices.SpecificationExchange>, after: seq<Devices.SpecificationExchange>,
                          ids: seq<string>, delivered: Delivered, prepared: Prepared, eligible: seq<string>,
                          failures: map<string, Failure>, unsupported: set<string>)
    requires AskedOnceEach(before, after, ids, delivered)
    requires IsSorted(ids, delivered, prepared, eligible, failures, unsupported)
    ensures forall id | id in prepared ::
      Devices.SpecificationExchange(id, Devices.Valid(prepared[id].1)) in after[|before|..]
  {
    hide HasSpecification, WithValid, Distinct;
    forall id | id in prepared
      ensures Devices.SpecificationExchange(id, Devices.Valid(prepared[id].1)) in after[|before|..]
    {
      var i :| 0 <= i < |ids| && ids[i] == id;
      assert after[|before|..][i] == after[|before| + i];
    }
  }

  predicate DistinctRows(rows: seq<Row>) {
    forall j, k | 0 <= j < k < |rows| :: rows[j].id != rows[k].id
  }

  lemma AppendedAreDistinct(table: seq<Row>, n: nat)
    requires WellFormed(table) && n <= |table|
    ensures DistinctRows(table[n..])
  {
  }

  predicate HasResult(results: seq<RefreshResult>, id: string) {
    exists k | 0 <= k < |results| :: results[k].device.id == id
  }

  lemma ResultsGrow(results: seq<RefreshResult>, device: Devices.Device)
    ensures forall id, r: RefreshResult | HasResult(results, id) :: HasResult(results + [r], id)
    ensures forall r: RefreshResult | r.device == device :: HasResult(results + [r], device.id)
  {
    forall id, r: RefreshResult | HasResult(results, id) ensures HasResult(results + [r], id) {
      var k :| 0 <= k < |results| && results[k].device.id == id;
      assert (results + [r])[k] == results[k];
    }
    forall r: RefreshResult | r.device == device ensures HasResult(results + [r], device.id) {
      assert (results + [r])[|results|] == r;
    }
  }

  predicate HasRowOf(appended: seq<Row>, id: string) {
    exists k | 0 <= k < |appended| :: appended[k].reading.deviceId == id
  }

  predicate IsSilent(result: RefreshResult, table: seq<Row>) {
    && result.reading.None? && result.failure.None? && result.latest == Latest(table, result.device.id)
    && result.device.present == Some(false)
  }

  /** From `n` on the results show stored device rows, each once. */
  ghost predicate AreStoredOnce(results: seq<RefreshResult>, n: nat, rows: Devices.Table) {
    && (forall j | n <= j < |results| :: results[j].device.id in rows && results[j].device == rows[results[j].device.id])
    && (forall j, k | n <= j < k < |results| :: results[j].device.id != results[k].device.id)
  }

  /**
   * What the delivered specification and the device's own answer make of a listed device: a refusal shows
   * nothing, a specification that could not be read is the failure, and a valid one leads to the fate of the
   * answer under it, with the device shown in its code, unit and scale.
   */
  ghost predicate IsOutcomeOf(result: RefreshResult, id: string, outcome: Devices.SpecificationOutcome,
                              answer: Option<Answer>, now: int) {
    match outcome
    case Conclusive(_) => result.reading.None? && result.failure.None?
    case Malformed(_) => result.reading.None? && result.failure == Some(SpecificationFailed(Devices.Incompatible))
    case Unreachable => result.reading.None? && result.failure == Some(SpecificationFailed(Devices.Inaccessible))
    case Valid(spec) =>
      && HasSpecification(result.device, id, spec) && answer.Some?
      && match Fate(id, answer.value, spec, now)
         case Err(failure) => result.reading.None? && result.failure == Some(failure)
         case Ok(reading) =>
           result.failure.None? && result.reading.Some? && result.reading.value.reading == AsStored(reading)
  }

  /**
   * A listed device's result: what was delivered and answered for it in this run; its reading is its appended
   * row, in the unit and scale of the delivered specification; without a reading the latest stored one is shown.
   */
  ghost predicate IsResultOf(result: RefreshResult, id: string, delivered: Delivered, exchanges: seq<StatusExchange>,
                             now: int, appended: seq<Row>, table: seq<Row>) {
    && result.device.id == id
    && id in delivered && IsOutcomeOf(result, id, delivered[id], AnswerTo(exchanges, id), now)
    && (result.reading.Some? ==>
          && result.reading.value in appended && result.reading.value.reading.deviceId == id
          && result.device.energyUnit == Some(result.reading.value.reading.sourceUnit)
          && result.device.energyScale == Some(result.reading.value.reading.scale))
    && (result.reading.Some? <==> HasRowOf(appended, id))
    && (if result.reading.Some? then result.failure.None? && !delivered[id].Conclusive?
        else result.failure.Some? != delivered[id].Conclusive?)
    && result.latest == (if result.reading.Some? then result.reading else Latest(table, id))
  }

  /** The whole report: one result per listed device in order, silent results for the rest, one row per device. */
  ghost predicate IsFullReport(results: seq<RefreshResult>, listed: seq<string>, delivered: Delivered,
                               exchanges: seq<StatusExchange>, now: int, appended: seq<Row>, table: seq<Row>) {
    && |results| >= |listed|
    && (forall i | 0 <= i < |listed| :: IsResultOf(results[i], listed[i], delivered, exchanges, now, appended, table))
    && (forall i | |listed| <= i < |results| :: IsSilent(results[i], table) && results[i].device.id !in listed)
    && (forall k | 0 <= k < |appended| :: appended[k].reading.deviceId in listed)
    && (forall j, k | 0 <= j < k < |appended| :: appended[j].reading.deviceId != appended[k].reading.deviceId)
  }

  /** What the dictionaries say about one listed device. */
  lemma SettledResult(ids: seq<string>, delivered: Delivered, prepared: Prepared, eligible: seq<string>,
                      failures: map<string, Failure>, unsupported: set<string>, p: Progress,
                      exchanges: seq<StatusExchange>, appended: seq<Row>, id: string, now: int)
    requires IsSorted(ids, delivered, prepared, eligible, failures, unsupported) && Accounts(p, eligible, appended)
    requires SameElsewhere(Progress(failures, {}, map[]), p, eligible)
    requires FatesHold(p, eligible, prepared, exchanges, now)
    requires id in ids
    ensures id in delivered
    ensures (id in p.failures) != (id in p.captured || id in unsupported)
    ensures !(id in p.captured && id in unsupported) && (id in unsupported <==> delivered[id].Conclusive?)
    ensures id in p.captured ==> id in p.statuses && p.captured[id] in appended && p.captured[id].reading.deviceId == id
    ensures id in p.captured <==> HasRowOf(appended, id)
    ensures id in prepared <==> delivered[id].Valid?
    ensures match delivered[id]
      case Valid(s) =>
        && prepared[id].1 == s && HasSpecification(prepared[id].0, id, s) && AnswerTo(exchanges, id).Some?
        && HasFate(p, id, Fate(id, AnswerTo(exchanges, id).value, s, now))
      case Conclusive(_) => id !in p.failures
      case Malformed(_) => id in p.failures && p.failures[id] == SpecificationFailed(Devices.Incompatible)
      case Unreachable => id in p.failures && p.failures[id] == SpecificationFailed(Devices.Inaccessible)
  {
    hide Fate, AnswerTo, HasSpecification, WithValid;
  }

  lemma OneRowPerDevice(p: Progress, eligible: seq<string>, ids: seq<string>, delivered: Delivered, prepared: Prepared,
                        failures: map<string, Failure>, unsupported: set<string>, appended: seq<Row>)
    requires IsSorted(ids, delivered, prepared, eligible, failures, unsupported) && Accounts(p, eligible, appended)
    requires DistinctRows(appended)
    ensures forall k | 0 <= k < |appended| :: appended[k].reading.deviceId in ids
    ensures forall j, k | 0 <= j < k < |appended| :: appended[j].reading.deviceId != appended[k].reading.deviceId
  {
  }

  lemma ChunkFailed(p: Progress, processed: seq<string>, chunk: seq<string>, unavailable: map<string, Failure>,
                    appended: seq<Row>)
    requires Accounts(p, processed, appended) && forall id | id in chunk :: id !in processed
    requires forall id :: id in unavailable <==> id in chunk
    ensures Accounts(p.(failures := p.failures + unavailable), processed + chunk, appended)
  {
  }

  lemma ChunkWithoutReadings(p: Progress, processed: seq<string>, chunk: seq<string>, failures: map<string, Failure>,
                             statuses: set<string>, appended: seq<Row>)
    requires Accounts(p, processed, appended) && forall id | id in chunk :: id !in processed
    requires forall id | id in chunk :: id in failures
    requires forall id | id !in chunk :: id in failures <==> id in p.failures
    requires p.statuses <= statuses
    ensures Accounts(Progress(failures, statuses, p.captured), processed + chunk, appended)
  {
  }

  lemma ChunkCaptured(p: Progress, processed: seq<string>, chunk: seq<string>, pending: seq<Reading>, saved: seq<Row>,
                      after: Progress, appended: seq<Row>)
    requires Accounts(p, processed, appended) && forall id | id in chunk :: id !in processed
    requires |pending| == |saved| && forall k | 0 <= k < |pending| :: saved[k].reading.deviceId == pending[k].deviceId
    requires forall k | 0 <= k < |pending| :: pending[k].deviceId in chunk && pending[k].deviceId in after.statuses
    requires forall id | id in chunk :: (id in after.failures) != IsPending(pending, id)
    requires forall id | id !in chunk :: id in after.failures <==> id in p.failures
    requires p.statuses <= after.statuses
    requires forall k | 0 <= k < |pending| ::
      pending[k].deviceId in after.captured && after.captured[pending[k].deviceId] == saved[k]
    requires forall id :: id in after.captured <==> id in p.captured || IsPending(pending, id)
    requires forall id | id in p.captured && !IsPending(pending, id) :: after.captured[id] == p.captured[id]
    ensures Accounts(after, processed + chunk, appended + saved)
  {
    forall id | IsPending(pending, id) ensures id in chunk && id in after.statuses && id !in processed {
      var k :| 0 <= k < |pending| && pending[k].deviceId == id;
    }
    var all := appended + saved;
    forall id | id in after.captured
      ensures after.captured[id] in all && after.captured[id].reading.deviceId == id
    {
      if IsPending(pending, id) {
        var k :| 0 <= k < |pending| && pending[k].deviceId == id;
        assert all[|appended| + k] == saved[k];
      } else {
        var k :| 0 <= k < |appended| && appended[k] == p.captured[id];
        assert all[k] == appended[k];
      }
    }
    forall k | 0 <= k < |all|
      ensures all[k].reading.deviceId in after.captured && after.captured[all[k].reading.deviceId] == all[k]
    {
      if k < |appended| {
        assert all[k] == appended[k];
        assert !IsPending(pending, appended[k].reading.deviceId);
      }
    }
  }

  lemma BuiltForDevice(id: string, status: DeviceStatus, spec: Devices.EnergySpecification, now: int, source: string)
    ensures BuildReading(id, status, spec, now, source).Ok? ==>
      BuildReading(id, status, spec, now, source).value.deviceId == id
      && BuildReading(id, status, spec, now, source).value.source == source
    ensures BuildReading(id, status, spec, now, source) != Err(NotSaved)
  {
    hide NormalizeEnergy, RawText;
  }
}
