/**
 * The append-only readings table and its two uniqueness rules, and what the idempotent daily
 * import and the capture of a response make of a table, as functions
 * (src/tatatuya/infrastructure/repositories/readings.py, src/tatatuya/infrastructure/migrations.py).
 */
module Readings {
  import opened Common
  import opened Decimals
  import opened Energy

  /** `eventKey` is the fingerprint's pre-hash bytes; `details` stands for the remaining text columns. */
  datatype Reading = Reading(
    deviceId: string,
    recordedAt: int,
    rawValue: string,
    scale: int,
    sourceUnit: string,
    valueKwh: Decimal,
    source: string,
    eventKey: Option<seq<int>>,
    sourceCode: Option<string>,
    localDate: Option<int>,
    details: string)

  datatype Row = Row(id: int, reading: Reading)

  datatype StoreError = Incomplete | Conflict | TooLong | NotPrepared | Faulted

  const CLOUD_DAILY := "cloud_daily"

  // ------------------------------------------------------------ the table

  predicate HasKey(r: Row, key: seq<int>) {
    r.reading.eventKey == Some(key)
  }

  predicate HasDay(r: Row, deviceId: string, date: int) {
    r.reading.deviceId == deviceId && r.reading.source == CLOUD_DAILY && r.reading.localDate == Some(date)
  }

  function ByKey(table: seq<Row>, key: seq<int>): (r: Option<Row>)
    ensures r.Some? ==> r.value in table && HasKey(r.value, key)
    ensures r.None? ==> forall i | 0 <= i < |table| :: !HasKey(table[i], key)
  {
    if table == [] then None
    else if HasKey(table[|table| - 1], key) then Some(table[|table| - 1])
    else ByKey(table[..|table| - 1], key)
  }

  function ByDay(table: seq<Row>, deviceId: string, date: int): (r: Option<Row>)
    ensures r.Some? ==> r.value in table && HasDay(r.value, deviceId, date)
    ensures r.None? ==> forall i | 0 <= i < |table| :: !HasDay(table[i], deviceId, date)
  {
    if table == [] then None
    else if HasDay(table[|table| - 1], deviceId, date) then Some(table[|table| - 1])
    else ByDay(table[..|table| - 1], deviceId, date)
  }

  /** `max(rowid) + 1`, or one in an empty table. */
  function NextId(table: seq<Row>): (id: int)
    ensures id >= 1 && forall i | 0 <= i < |table| :: table[i].id < id
    ensures id == 1 || exists i | 0 <= i < |table| :: table[i].id == id - 1
  {
    if table == [] then 1
    else
      var before := NextId(table[..|table| - 1]);
      if table[|table| - 1].id >= before then table[|table| - 1].id + 1 else before
  }

  /** Distinct ids and the two unique indexes. */
  ghost predicate WellFormed(table: seq<Row>) {
    && (forall i, j | 0 <= i < j < |table| :: table[i].id != table[j].id)
    && (forall i, j, key | 0 <= i < j < |table| && HasKey(table[i], key) :: !HasKey(table[j], key))
    && (forall i, j, device, date | 0 <= i < j < |table| && HasDay(table[i], device, date) ::
          !HasDay(table[j], device, date))
  }

  /** What is read back after a write: the number in canonical text, everything else as written. */
  function AsStored(r: Reading): (s: Reading)
    ensures s == r.(valueKwh := s.valueKwh) && NumEq(s.valueKwh, r.valueKwh)
  {
    CanonicalTextReadsBack(r.valueKwh);
    r.(valueKwh := ReadDecimal(CanonicalText(r.valueKwh)).value)
  }

  /** Equal numbers are stored as the same value, whatever their exponents, and what is stored stays as it is. */
  lemma StoredValueIsCanonical(r: Reading, s: Reading)
    ensures NumEq(r.valueKwh, s.valueKwh) ==> AsStored(r).valueKwh == AsStored(s).valueKwh
    ensures AsStored(AsStored(r)) == AsStored(r)
  {
    hide CanonicalText, NumEq;
    TextIdentifiesNumber(r.valueKwh, s.valueKwh);
    TextIdentifiesNumber(AsStored(r).valueKwh, r.valueKwh);
  }

  /** The unique indexes would refuse this row. */
  predicate Collides(table: seq<Row>, r: Reading) {
    || (r.eventKey.Some? && ByKey(table, r.eventKey.value).Some?)
    || (r.source == CLOUD_DAILY && r.localDate.Some? && ByDay(table, r.deviceId, r.localDate.value).Some?)
  }

  function Insert(table: seq<Row>, r: Reading): Result<Row, StoreError> {
    if !Fits(r.valueKwh) then Err(TooLong)
    else if Collides(table, r) then Err(Conflict)
    else Ok(Row(NextId(table), AsStored(r)))
  }

  // ------------------------------------------------------------ the daily import

  predicate SameIdentity(existing: Reading, candidate: Reading) {
    && existing.deviceId == candidate.deviceId
    && existing.sourceCode == candidate.sourceCode
    && existing.recordedAt == candidate.recordedAt
    && existing.rawValue == candidate.rawValue
    && existing.scale == candidate.scale
    && existing.sourceUnit == candidate.sourceUnit
    && NumEq(existing.valueKwh, candidate.valueKwh)
  }

  predicate IsComplete(c: Reading) {
    c.source == CLOUD_DAILY && c.eventKey.Some? && c.localDate.Some?
  }

  /** The stored row a candidate stands for: by event key, then by cloud day. */
  function Lookup(table: seq<Row>, c: Reading): Result<Option<Row>, StoreError>
    requires IsComplete(c)
  {
    match ByKey(table, c.eventKey.value)
    case Some(existing) => if SameIdentity(existing.reading, c) then Ok(Some(existing)) else Err(Conflict)
    case None => Ok(ByDay(table, c.deviceId, c.localDate.value))
  }

  datatype Import = Import(table: seq<Row>, saved: seq<Row>, newCount: nat, reusedCount: nat)

  function ImportOne(i: Import, c: Reading): Result<Import, StoreError> {
    if !IsComplete(c) then Err(Incomplete)
    else
      var existing :- Lookup(i.table, c);
      if existing.Some? then
        Ok(i.(saved := i.saved + [existing.value], reusedCount := i.reusedCount + 1))
      else
        var row :- Insert(i.table, c);
        Ok(Import(i.table + [row], i.saved + [row], i.newCount + 1, i.reusedCount))
  }

  function ImportBatch(table: seq<Row>, batch: seq<Reading>): Result<Import, StoreError> {
    if batch == [] then Ok(Import(table, [], 0, 0))
    else
      var before :- ImportBatch(table, batch[..|batch| - 1]);
      ImportOne(before, batch[|batch| - 1])
  }

  lemma InsertKeepsRules(table: seq<Row>, r: Reading)
    requires WellFormed(table) && Insert(table, r).Ok?
    ensures WellFormed(table + [Insert(table, r).value])
  {
    hide Fits, AsStored;
    var row := Insert(table, r).value;
    var after := table + [row];
    assert forall key | HasKey(row, key) :: ByKey(table, key).None?;
    assert forall device, date | HasDay(row, device, date) :: ByDay(table, device, date).None?;
  }

  /**
   * One import: the table only grows, by exactly the new count, both uniqueness rules survive,
   * and every candidate is answered with one stored row.
   */
  lemma {:induction false} ImportAppendsOnly(table: seq<Row>, batch: seq<Reading>)
    requires WellFormed(table) && ImportBatch(table, batch).Ok?
    ensures
      var i := ImportBatch(table, batch).value;
      && WellFormed(i.table)
      && table <= i.table
      && |i.table| == |table| + i.newCount
      && i.newCount + i.reusedCount == |batch| == |i.saved|
      && forall k | 0 <= k < |i.saved| :: i.saved[k] in i.table
  {
    hide WellFormed, Lookup, Insert;
    if batch != [] {
      var front, last := batch[..|batch| - 1], batch[|batch| - 1];
      ImportAppendsOnly(table, front);
      var before := ImportBatch(table, front).value;
      if Lookup(before.table, last).value.None? {
        InsertKeepsRules(before.table, last);
      } else {
        LookupFindsStored(before.table, last);
      }
    }
  }

  lemma LookupFindsStored(table: seq<Row>, c: Reading)
    requires IsComplete(c) && Lookup(table, c).Ok? && Lookup(table, c).value.Some?
    ensures Lookup(table, c).value.value in table
    ensures var s := Lookup(table, c).value.value.reading;
      s.eventKey == c.eventKey || (s.deviceId == c.deviceId && s.source == CLOUD_DAILY && s.localDate == c.localDate)
  {
  }

  // ------------------------------------------------------------ what one candidate is answered with

  /** Every field that identifies the event agrees, the values as numbers. */
  predicate IsSameEvent(s: Reading, c: Reading) {
    && s.deviceId == c.deviceId && s.sourceCode == c.sourceCode && s.recordedAt == c.recordedAt
    && s.rawValue == c.rawValue && s.scale == c.scale && s.sourceUnit == c.sourceUnit
    && CanonicalText(s.valueKwh) == CanonicalText(c.valueKwh)
  }

  lemma OneRowWithKey(table: seq<Row>, key: seq<int>, k: nat)
    requires WellFormed(table) && k < |table| && table[k].reading.eventKey == Some(key)
    ensures ByKey(table, key) == Some(table[k])
  {
    assert HasKey(table[k], key);
  }

  lemma OneRowOfDay(table: seq<Row>, deviceId: string, date: int, k: nat)
    requires WellFormed(table) && k < |table| && HasDay(table[k], deviceId, date)
    ensures ByDay(table, deviceId, date) == Some(table[k])
  {
  }

  /**
   * A candidate whose key is stored is answered with that row if it is the same event, and is a conflict if any
   * of its device, code, moment, raw value, scale, unit or value differs.
   */
  lemma StoredKeyDecides(i: Import, c: Reading, k: nat)
    requires WellFormed(i.table) && IsComplete(c)
    requires k < |i.table| && i.table[k].reading.eventKey == c.eventKey
    ensures
      var s := i.table[k].reading;
      ImportOne(i, c) ==
        if && s.deviceId == c.deviceId && s.sourceCode == c.sourceCode && s.recordedAt == c.recordedAt
           && s.rawValue == c.rawValue && s.scale == c.scale && s.sourceUnit == c.sourceUnit
           && NumEq(s.valueKwh, c.valueKwh)
        then Ok(Import(i.table, i.saved + [i.table[k]], i.newCount, i.reusedCount + 1))
        else Err(Conflict)
  {
    hide WellFormed, NumEq;
    OneRowWithKey(i.table, c.eventKey.value, k);
  }

  /** A candidate with a new key, of a device and day already stored, is answered with the row of that day. */
  lemma StoredDayDecides(i: Import, c: Reading, k: nat)
    requires WellFormed(i.table) && IsComplete(c)
    requires forall j | 0 <= j < |i.table| :: i.table[j].reading.eventKey != c.eventKey
    requires k < |i.table|
    requires var s := i.table[k].reading;
      s.source == "cloud_daily" && s.deviceId == c.deviceId && s.localDate == c.localDate
    ensures ImportOne(i, c) == Ok(Import(i.table, i.saved + [i.table[k]], i.newCount, i.reusedCount + 1))
  {
    hide SameIdentity;
    OneRowOfDay(i.table, c.deviceId, c.localDate.value, k);
  }

  /** The row that a reading becomes: the next id, and the reading itself with the same number as its value. */
  predicate IsNextRow(table: seq<Row>, r: Reading, row: Row) {
    && (forall j | 0 <= j < |table| :: table[j].id < row.id)
    && (if table == [] then row.id == 1 else row.id == 1 || exists j | 0 <= j < |table| :: table[j].id == row.id - 1)
    && row.reading == r.(valueKwh := row.reading.valueKwh)
    && NumEq(row.reading.valueKwh, r.valueKwh)
  }

  /** A candidate with neither its key nor its device and day stored is appended, unless its value is too long. */
  lemma NewDayIsAppended(i: Import, c: Reading)
    requires WellFormed(i.table) && IsComplete(c)
    requires forall j | 0 <= j < |i.table| ::
      var s := i.table[j].reading;
      && s.eventKey != c.eventKey
      && !(s.source == "cloud_daily" && s.deviceId == c.deviceId && s.localDate == c.localDate)
    ensures
      var next := ImportOne(i, c);
      if |CanonicalText(c.valueKwh)| > 128 then next == Err(TooLong)
      else
        && next.Ok? && |next.value.table| == |i.table| + 1 && i.table <= next.value.table
        && IsNextRow(i.table, c, next.value.table[|i.table|])
        && next.value == Import(next.value.table, i.saved + [next.value.table[|i.table|]], i.newCount + 1, i.reusedCount)
  {
    hide CanonicalText, AsStored, NumEq;
    assert ByDay(i.table, c.deviceId, c.localDate.value).None?;
    assert ByKey(i.table, c.eventKey.value).None?;
  }

  /** An insert is refused for its value first, then by the two rules, and is otherwise the next row. */
  lemma InsertIsAcceptedExactly(table: seq<Row>, r: Reading)
    ensures Insert(table, r) == Err(TooLong) <==> |CanonicalText(r.valueKwh)| > 128
    ensures Insert(table, r).Ok? <==>
      && |CanonicalText(r.valueKwh)| <= 128
      && forall j | 0 <= j < |table| ::
           var s := table[j].reading;
           && !(r.eventKey.Some? && s.eventKey == r.eventKey)
           && !(r.source == "cloud_daily" && r.localDate.Some?
                && s.source == "cloud_daily" && s.deviceId == r.deviceId && s.localDate == r.localDate)
    ensures Insert(table, r).Err? ==> Insert(table, r).error in {TooLong, Conflict}
    ensures Insert(table, r).Ok? ==> IsNextRow(table, r, Insert(table, r).value)
  {
    hide CanonicalText, AsStored, NumEq;
    if r.eventKey.Some? && ByKey(table, r.eventKey.value).Some? {
      var j :| 0 <= j < |table| && HasKey(table[j], r.eventKey.value);
    }
    if r.source == CLOUD_DAILY && r.localDate.Some? && ByDay(table, r.deviceId, r.localDate.value).Some? {
      var j :| 0 <= j < |table| && HasDay(table[j], r.deviceId, r.localDate.value);
    }
    if Insert(table, r).Ok? {
      forall j | 0 <= j < |table|
        ensures r.eventKey.Some? ==> table[j].reading.eventKey != r.eventKey
        ensures r.source == CLOUD_DAILY && r.localDate.Some? ==> !HasDay(table[j], r.deviceId, r.localDate.value)
      {
        assert r.eventKey.Some? ==> !HasKey(table[j], r.eventKey.value);
      }
    }
  }

  /** What answers a candidate: a row with its key that is the same event, or a cloud row of its device and day. */
  predicate IsAnswer(row: Row, c: Reading) {
    || (row.reading.eventKey == c.eventKey && IsSameEvent(row.reading, c))
    || (row.reading.source == "cloud_daily" && row.reading.deviceId == c.deviceId && row.reading.localDate == c.localDate)
  }

  /** An imported batch answers every candidate in its own place, and every row it adds is one of the answers. */
  lemma {:induction false} EveryCandidateIsAnswered(table: seq<Row>, batch: seq<Reading>)
    requires WellFormed(table) && ImportBatch(table, batch).Ok?
    ensures
      var i := ImportBatch(table, batch).value;
      && |i.saved| == |batch| && table <= i.table
      && (forall k | 0 <= k < |batch| ::
            && batch[k].source == "cloud_daily" && batch[k].eventKey.Some? && batch[k].localDate.Some?
            && i.saved[k] in i.table && IsAnswer(i.saved[k], batch[k]))
      && (forall j | |table| <= j < |i.table| :: i.table[j] in i.saved)
  {
    hide WellFormed, ImportOne, IsAnswer;
    ImportAppendsOnly(table, batch);
    if batch != [] {
      var front, last := batch[..|batch| - 1], batch[|batch| - 1];
      EveryCandidateIsAnswered(table, front);
      var before, after := ImportBatch(table, front).value, ImportBatch(table, batch).value;
      assert ImportOne(before, last) == Ok(after);
      StepAnswers(before, last);
      forall k | 0 <= k < |batch|
        ensures batch[k].source == "cloud_daily" && batch[k].eventKey.Some? && batch[k].localDate.Some?
        ensures IsAnswer(after.saved[k], batch[k])
      {
        if k < |front| {
          assert front[k] == batch[k] && after.saved[k] == before.saved[k];
        }
      }
    }
  }

  lemma StepAnswers(before: Import, c: Reading)
    requires ImportOne(before, c).Ok?
    ensures
      var after := ImportOne(before, c).value;
      && IsComplete(c) && |after.saved| == |before.saved| + 1 && before.saved <= after.saved
      && IsAnswer(after.saved[|before.saved|], c)
      && before.table <= after.table
      && forall j | |before.table| <= j < |after.table| :: after.table[j] == after.saved[|before.saved|]
  {
    hide CanonicalText, AsStored, NumEq;
    var row := ImportOne(before, c).value.saved[|before.saved|];
    TextIdentifiesNumber(row.reading.valueKwh, c.valueKwh);
  }

  /** A refused prefix refuses every longer batch that starts the same way. */
  lemma {:induction false} ImportRefusalStays(table: seq<Row>, batch: seq<Reading>, n: nat)
    requires n <= |batch| && ImportBatch(table, batch[..n]).Err?
    ensures ImportBatch(table, batch) == ImportBatch(table, batch[..n])
    decreases |batch|
  {
    hide Insert, Lookup;
    if n == |batch| {
      assert batch[..n] == batch;
    } else {
      assert batch[..|batch| - 1][..n] == batch[..n];
      ImportRefusalStays(table, batch[..|batch| - 1], n);
    }
  }

  /** One candidate that contradicts its stored event stops the whole import and leaves the table as it was. */
  lemma ConflictStopsTheBatch(table: seq<Row>, batch: seq<Reading>, n: nat, k: nat)
    requires WellFormed(table) && n < |batch| && IsComplete(batch[n]) && ImportBatch(table, batch[..n]).Ok?
    requires
      var stored := ImportBatch(table, batch[..n]).value.table;
      && k < |stored| && stored[k].reading.eventKey == batch[n].eventKey && !IsSameEvent(stored[k].reading, batch[n])
    ensures ImportBatch(table, batch) == Err(Conflict)
    ensures Apply(table, DailyImport(batch)) == table
  {
    hide WellFormed, ImportOne;
    var before := ImportBatch(table, batch[..n]).value;
    ImportAppendsOnly(table, batch[..n]);
    StoredKeyDecides(before, batch[n], k);
    TextIdentifiesNumber(before.table[k].reading.valueKwh, batch[n].valueKwh);
    assert batch[..n + 1][..n] == batch[..n];
    ImportRefusalStays(table, batch, n + 1);
  }

  // ------------------------------------------------------------ importing again

  /** Every candidate of the batch is found in the table as the row saved for it. */
  predicate Answered(table: seq<Row>, batch: seq<Reading>, saved: seq<Row>) {
    && |saved| == |batch|
    && forall k | 0 <= k < |batch| :: IsComplete(batch[k]) && Lookup(table, batch[k]) == Ok(Some(saved[k]))
  }

  /** An answered batch imports without adding anything, with the same rows in the same order. */
  lemma {:induction false} AnsweredBatchAddsNothing(table: seq<Row>, batch: seq<Reading>, saved: seq<Row>)
    requires Answered(table, batch, saved)
    ensures ImportBatch(table, batch) == Ok(Import(table, saved, 0, |batch|))
  {
    hide Lookup, Insert;
    if batch != [] {
      var front, last := batch[..|batch| - 1], batch[|batch| - 1];
      assert Lookup(table, last) == Ok(Some(saved[|saved| - 1]));
      forall k | 0 <= k < |front|
        ensures IsComplete(front[k]) && Lookup(table, front[k]) == Ok(Some(saved[..|saved| - 1][k]))
      {
        assert front[k] == batch[k];
      }
      AnsweredBatchAddsNothing(table, front, saved[..|saved| - 1]);
      assert saved[..|saved| - 1] + [saved[|saved| - 1]] == saved;
    } else {
      assert saved == [];
    }
  }

  predicate DistinctKeys(batch: seq<Reading>) {
    forall i, j | 0 <= i < j < |batch| :: batch[i].eventKey != batch[j].eventKey
  }

  /** A found row stays found in a longer well-formed table that holds no further row with the key. */
  lemma FoundRowStaysFound(table: seq<Row>, later: seq<Row>, c: Reading, row: Row)
    requires WellFormed(later) && table <= later && IsComplete(c)
    requires Lookup(table, c) == Ok(Some(row))
    requires forall i | |table| <= i < |later| :: !HasKey(later[i], c.eventKey.value)
    ensures Lookup(later, c) == Ok(Some(row))
  {
    hide SameIdentity;
    var key := c.eventKey.value;
    var j :| 0 <= j < |table| && table[j] == row;
    assert later[j] == row;
    if ByKey(table, key).Some? {
      var found := ByKey(later, key).value;
      var i :| 0 <= i < |later| && later[i] == found;
      assert i == j;
    } else {
      assert forall i | 0 <= i < |later| :: !HasKey(later[i], key) by {
        forall i | 0 <= i < |later| ensures !HasKey(later[i], key) {
          if i < |table| { assert later[i] == table[i]; }
        }
      }
      assert ByKey(later, key).None?;
      var found := ByDay(later, c.deviceId, c.localDate.value).value;
      var i :| 0 <= i < |later| && later[i] == found;
      assert i == j;
    }
  }

  /** A row just inserted is what its candidate finds from then on. */
  lemma InsertedRowIsFound(table: seq<Row>, c: Reading)
    requires WellFormed(table) && IsComplete(c) && Insert(table, c).Ok?
    ensures Lookup(table + [Insert(table, c).value], c) == Ok(Some(Insert(table, c).value))
  {
    hide AsStored, Fits, NumEq;
    var row := Insert(table, c).value;
    assert HasKey(row, c.eventKey.value);
    assert (table + [row])[..|table|] == table;
    assert ByKey(table + [row], c.eventKey.value) == Some(row);
  }

  /** Importing a batch with pairwise distinct keys a second time adds nothing and returns the same rows. */
  lemma ReimportAddsNothing(table: seq<Row>, batch: seq<Reading>)
    requires WellFormed(table) && DistinctKeys(batch) && ImportBatch(table, batch).Ok?
    ensures
      var first := ImportBatch(table, batch).value;
      ImportBatch(first.table, batch) == Ok(Import(first.table, first.saved, 0, |batch|))
  {
    ImportAnswers(table, batch);
    var first := ImportBatch(table, batch).value;
    AnsweredBatchAddsNothing(first.table, batch, first.saved);
  }

  lemma {:induction false} ImportAnswers(table: seq<Row>, batch: seq<Reading>)
    requires WellFormed(table) && DistinctKeys(batch) && ImportBatch(table, batch).Ok?
    ensures var first := ImportBatch(table, batch).value; Answered(first.table, batch, first.saved)
  {
    hide WellFormed, Lookup, Insert;
    ImportAppendsOnly(table, batch);
    if batch != [] {
      var front, last := batch[..|batch| - 1], batch[|batch| - 1];
      ImportAnswers(table, front);
      ImportAppendsOnly(table, front);
      var before, first := ImportBatch(table, front).value, ImportBatch(table, batch).value;
      assert first == ImportOne(before, last).value;
      forall k | 0 <= k < |batch| ensures IsComplete(batch[k]) && Lookup(first.table, batch[k]) == Ok(Some(first.saved[k])) {
        if k < |front| {
          assert front[k] == batch[k] && first.saved[k] == before.saved[k];
          AddedRowHasItsKey(before, last);
          FoundRowStaysFound(before.table, first.table, batch[k], first.saved[k]);
        } else if Lookup(before.table, last).value.None? {
          InsertedRowIsFound(before.table, last);
        }
      }
    }
  }

  /** The only row one import step can add carries the candidate's own key. */
  lemma AddedRowHasItsKey(before: Import, c: Reading)
    requires ImportOne(before, c).Ok?
    ensures var after := ImportOne(before, c).value;
      && before.table <= after.table
      && forall i | |before.table| <= i < |after.table| :: after.table[i].reading.eventKey == c.eventKey
  {
    hide Lookup, AsStored;
  }

  // ------------------------------------------------------------ any sequence of imports and captures

  /** `add_all` on a table: every reading is inserted in turn or the whole capture fails. */
  function AddAllTo(table: seq<Row>, readings: seq<Reading>): Result<seq<Row>, StoreError> {
    if readings == [] then Ok(table)
    else
      var before :- AddAllTo(table, readings[..|readings| - 1]);
      var row :- Insert(before, readings[|readings| - 1]);
      Ok(before + [row])
  }

  datatype Operation = DailyImport(batch: seq<Reading>) | Capture(readings: seq<Reading>)

  /** A workflow commits the whole operation or, on any error, nothing. */
  function Apply(table: seq<Row>, op: Operation): seq<Row> {
    match op
    case DailyImport(batch) =>
      var r := ImportBatch(table, batch);
      if r.Ok? then r.value.table else table
    case Capture(readings) =>
      var r := AddAllTo(table, readings);
      if r.Ok? then r.value else table
  }

  function ApplyAll(table: seq<Row>, ops: seq<Operation>): seq<Row> {
    if ops == [] then table else Apply(ApplyAll(table, ops[..|ops| - 1]), ops[|ops| - 1])
  }

  lemma {:induction false} CaptureAppendsOnly(table: seq<Row>, readings: seq<Reading>)
    requires WellFormed(table) && AddAllTo(table, readings).Ok?
    ensures
      var after := AddAllTo(table, readings).value;
      && WellFormed(after) && table <= after && |after| == |table| + |readings|
      && forall k | 0 <= k < |readings| :: after[|table| + k].reading == AsStored(readings[k])
  {
    hide WellFormed, AsStored, Collides, Fits;
    if readings != [] {
      var front := readings[..|readings| - 1];
      CaptureAppendsOnly(table, front);
      InsertKeepsRules(AddAllTo(table, front).value, readings[|readings| - 1]);
    }
  }

  /** Over any sequence of imports and captures no stored row changes and both rules hold. */
  lemma {:induction false} HistoryAppendsOnly(table: seq<Row>, ops: seq<Operation>)
    requires WellFormed(table)
    ensures WellFormed(ApplyAll(table, ops)) && table <= ApplyAll(table, ops)
  {
    hide WellFormed, ImportBatch, AddAllTo;
    if ops != [] {
      var before := ApplyAll(table, ops[..|ops| - 1]);
      HistoryAppendsOnly(table, ops[..|ops| - 1]);
      match ops[|ops| - 1] {
        case DailyImport(batch) => if ImportBatch(before, batch).Ok? { ImportAppendsOnly(before, batch); }
        case Capture(readings) => if AddAllTo(before, readings).Ok? { CaptureAppendsOnly(before, readings); }
      }
    }
  }

  /** An event key that fixes its device and cloud day, as a fingerprint of device and moment does. */
  type DayOf = seq<int> -> (string, int)

  predicate KeyFixesDay(r: Reading, dayOf: DayOf) {
    r.eventKey.Some? ==>
      r.source == CLOUD_DAILY && r.localDate.Some? && dayOf(r.eventKey.value) == (r.deviceId, r.localDate.value)
  }

  predicate KeysFixDays(table: seq<Row>, dayOf: DayOf) {
    forall i | 0 <= i < |table| :: KeyFixesDay(table[i].reading, dayOf)
  }

  predicate AllFixDays(readings: seq<Reading>, dayOf: DayOf) {
    forall i | 0 <= i < |readings| :: KeyFixesDay(readings[i], dayOf)
  }

  predicate OperationsFixDays(ops: seq<Operation>, dayOf: DayOf) {
    forall i | 0 <= i < |ops| :: AllFixDays(if ops[i].DailyImport? then ops[i].batch else ops[i].readings, dayOf)
  }

  lemma {:induction false} ImportKeepsDays(table: seq<Row>, batch: seq<Reading>, dayOf: DayOf)
    requires KeysFixDays(table, dayOf) && AllFixDays(batch, dayOf) && ImportBatch(table, batch).Ok?
    ensures KeysFixDays(ImportBatch(table, batch).value.table, dayOf)
  {
    hide Lookup, Collides, Fits;
    if batch != [] {
      ImportKeepsDays(table, batch[..|batch| - 1], dayOf);
      assert KeyFixesDay(batch[|batch| - 1], dayOf);
    }
  }

  lemma {:induction false} CaptureKeepsDays(table: seq<Row>, readings: seq<Reading>, dayOf: DayOf)
    requires KeysFixDays(table, dayOf) && AllFixDays(readings, dayOf) && AddAllTo(table, readings).Ok?
    ensures KeysFixDays(AddAllTo(table, readings).value, dayOf)
  {
    hide Collides, Fits;
    if readings != [] {
      CaptureKeepsDays(table, readings[..|readings| - 1], dayOf);
      assert KeyFixesDay(readings[|readings| - 1], dayOf);
    }
  }

  lemma {:induction false} HistoryKeepsDays(table: seq<Row>, ops: seq<Operation>, dayOf: DayOf)
    requires KeysFixDays(table, dayOf) && OperationsFixDays(ops, dayOf)
    ensures KeysFixDays(ApplyAll(table, ops), dayOf)
  {
    hide ImportBatch, AddAllTo, KeysFixDays, AllFixDays;
    if ops != [] {
      var before := ApplyAll(table, ops[..|ops| - 1]);
      HistoryKeepsDays(table, ops[..|ops| - 1], dayOf);
      var last := ops[|ops| - 1];
      assert AllFixDays(if last.DailyImport? then last.batch else last.readings, dayOf);
      match last {
        case DailyImport(batch) => if ImportBatch(before, batch).Ok? { ImportKeepsDays(before, batch, dayOf); }
        case Capture(readings) => if AddAllTo(before, readings).Ok? { CaptureKeepsDays(before, readings, dayOf); }
      }
    }
  }

  /** With keys that fix their days, a found row stays found in every later table. */
  lemma FoundRowStaysFoundByDay(table: seq<Row>, later: seq<Row>, c: Reading, row: Row, dayOf: DayOf)
    requires WellFormed(later) && table <= later && IsComplete(c)
    requires KeysFixDays(later, dayOf) && KeyFixesDay(c, dayOf)
    requires Lookup(table, c) == Ok(Some(row))
    ensures Lookup(later, c) == Ok(Some(row))
  {
    hide SameIdentity;
    var key, date := c.eventKey.value, c.localDate.value;
    var j :| 0 <= j < |table| && table[j] == row;
    assert later[j] == row && KeyFixesDay(row.reading, dayOf);
    assert HasDay(later[j], c.deviceId, date);
    forall i | |table| <= i < |later| ensures !HasKey(later[i], key) {
      assert KeyFixesDay(later[i].reading, dayOf);
      assert HasKey(later[i], key) ==> HasDay(later[i], c.deviceId, date);
    }
    FoundRowStaysFound(table, later, c, row);
  }

  /**
   * Idempotence over a whole history: a batch once imported, followed by any imports and captures,
   * imports again without adding a row, and returns the very rows it returned the first time.
   */
  lemma ReimportAfterAnyHistory(table: seq<Row>, batch: seq<Reading>, ops: seq<Operation>, dayOf: DayOf)
    requires WellFormed(table) && KeysFixDays(table, dayOf)
    requires AllFixDays(batch, dayOf) && OperationsFixDays(ops, dayOf)
    requires ImportBatch(table, batch).Ok?
    ensures
      var first := ImportBatch(table, batch).value;
      var later := ApplyAll(first.table, ops);
      ImportBatch(later, batch) == Ok(Import(later, first.saved, 0, |batch|))
  {
    hide WellFormed, KeysFixDays, OperationsFixDays, ImportBatch, ApplyAll;
    var first := ImportBatch(table, batch).value;
    ImportAppendsOnly(table, batch);
    ImportKeepsDays(table, batch, dayOf);
    HistoryAppendsOnly(first.table, ops);
    HistoryKeepsDays(first.table, ops, dayOf);
    var later := ApplyAll(first.table, ops);
    ImportAnswersLater(table, batch, later, dayOf);
    AnsweredBatchAddsNothing(later, batch, first.saved);
  }

  lemma {:induction false} ImportAnswersLater(table: seq<Row>, batch: seq<Reading>, later: seq<Row>, dayOf: DayOf)
    requires WellFormed(table) && WellFormed(later) && KeysFixDays(later, dayOf) && AllFixDays(batch, dayOf)
    requires ImportBatch(table, batch).Ok? && ImportBatch(table, batch).value.table <= later
    ensures Answered(later, batch, ImportBatch(table, batch).value.saved)
  {
    hide WellFormed, KeysFixDays, Lookup, Insert, KeyFixesDay;
    ImportAppendsOnly(table, batch);
    if batch != [] {
      var front, last := batch[..|batch| - 1], batch[|batch| - 1];
      ImportAppendsOnly(table, front);
      var before, first := ImportBatch(table, front).value, ImportBatch(table, batch).value;
      AddedRowHasItsKey(before, last);
      assert before.table <= later;
      ImportAnswersLater(table, front, later, dayOf);
      assert KeyFixesDay(last, dayOf);
      if Lookup(before.table, last).value.None? {
        InsertedRowIsFound(before.table, last);
        FoundRowStaysFoundByDay(first.table, later, last, first.saved[|front|], dayOf);
      } else {
        FoundRowStaysFoundByDay(before.table, later, last, first.saved[|front|], dayOf);
      }
      forall k | 0 <= k < |batch| ensures IsComplete(batch[k]) && Lookup(later, batch[k]) == Ok(Some(first.saved[k])) {
        if k < |front| {
          assert front[k] == batch[k] && first.saved[k] == before.saved[k];
        }
      }
    }
  }
}
