/**
 * The readings repository over one database connection: inserts inside a transaction, the
 * daily import in a loop, the atomic capture, and the commit or rollback around a workflow
 * (src/tatatuya/infrastructure/repositories/readings.py, src/tatatuya/infrastructure/database.py).
 */
module ReadingStore {
  import opened Cancellation
  import opened Common
  import opened Readings

  /**
   * What other connections see is `committed`; this one works on `working`. `begins` is the busy timeout of
   * every immediate transaction asked for, in order.
   */
  class Connection {
    var committed: seq<Row>
    var working: seq<Row>
    var inTransaction: bool
    var busyTimeout: int
    ghost var begins: seq<int>

    ghost predicate Valid()
      reads this
    {
      && WellFormed(committed) && WellFormed(working)
      && committed <= working
      && (!inTransaction ==> working == committed)
    }

    constructor (table: seq<Row>)
      requires WellFormed(table)
      ensures Valid() && committed == table && !inTransaction
    {
      committed, working, inTransaction, busyTimeout, begins := table, table, false, 5000, [];
    }

    /** `BEGIN IMMEDIATE`: the write lock is taken within the busy timeout of that moment, or the call fails. */
    method Begin() returns (ok: bool)
      requires Valid() && !inTransaction
      modifies this`inTransaction, this`begins
      ensures Valid() && inTransaction == ok && begins == old(begins) + [busyTimeout]
    {
      ok := *;
      inTransaction := ok;
      begins := begins + [busyTimeout];
    }

    /** Atomic: everything written since the last commit becomes visible, or the call fails and nothing does. */
    method Commit() returns (ok: bool)
      requires Valid()
      modifies this`committed, this`inTransaction
      ensures Valid()
      ensures ok ==> committed == working && !inTransaction
      ensures !ok ==> committed == old(committed) && inTransaction == old(inTransaction)
    {
      ok := *;
      if ok {
        committed, inTransaction := working, false;
      }
    }

    method Rollback()
      requires Valid()
      modifies this`working, this`inTransaction
      ensures Valid() && working == committed && !inTransaction
    {
      working, inTransaction := committed, false;
    }

    /** One INSERT: it opens a transaction, and a rule or a fault can refuse it. */
    method InsertRow(r: Reading) returns (saved: Result<Row, StoreError>)
      requires Valid()
      modifies this`working, this`inTransaction
      ensures Valid() && inTransaction
      ensures saved.Ok? ==> saved == Insert(old(working), r) && working == old(working) + [saved.value]
      ensures saved.Err? ==> working == old(working) && (saved.error.Faulted? || saved == Insert(working, r))
    {
      hide WellFormed, Insert;
      inTransaction := true;
      var faulted: bool := *;
      if faulted { return Err(Faulted); }
      saved := Insert(working, r);
      if saved.Ok? {
        InsertKeepsRules(working, r);
        working := working + [saved.value];
      }
    }
  }

  /** `max(1, min(5_000, int(seconds * 1_000)))`: within the granted time, but never zero, which SQLite reads as no wait. */
  function BusyTimeoutMs(seconds: real): (ms: int)
    ensures 1 <= ms <= 5000
    ensures seconds >= 0.001 ==> ms as real <= seconds * 1000.0
    ensures 0.001 <= seconds <= 5.0 ==> seconds * 1000.0 < ms as real + 1.0
    ensures seconds < 0.001 ==> ms == 1
    ensures seconds >= 5.0 ==> ms == 5000
  {
    var whole := if seconds >= 0.0 then (seconds * 1000.0).Floor else -(-seconds * 1000.0).Floor;
    if whole < 1 then 1 else if whole > 5000 then 5000 else whole
  }

  class ReadingRepository {
    const connection: Connection

    constructor (connection: Connection)
      ensures this.connection == connection
    {
      this.connection := connection;
    }

    /** Commits the metadata stage before status requests begin. */
    method PrepareCapturePhase() returns (ok: bool)
      requires connection.Valid()
      modifies connection
      ensures connection.Valid() && connection.working == old(connection.working)
      ensures ok ==> connection.committed == connection.working && !connection.inTransaction
      ensures !ok ==> connection.committed == old(connection.committed)
    {
      ok := connection.Commit();
    }

    /** One response's readings in one transaction: all of them are committed, or none is. */
    method AddAll(readings: seq<Reading>, busyTimeoutSeconds: real) returns (r: Result<seq<Row>, StoreError>)
      requires connection.Valid()
      modifies connection
      ensures connection.Valid() && connection.busyTimeout == old(connection.busyTimeout)
      ensures readings != [] && old(connection.inTransaction) ==> r == Err(NotPrepared)
      ensures connection.begins == old(connection.begins)
        + if readings != [] && !old(connection.inTransaction) then [BusyTimeoutMs(busyTimeoutSeconds)] else []
      ensures r.Ok? && readings != [] ==>
        && AddAllTo(old(connection.committed), readings) == Ok(connection.committed)
        && connection.committed == old(connection.committed) + r.value
        && |r.value| == |readings|
        && (forall i | 0 <= i < |readings| :: r.value[i].reading == AsStored(readings[i]))
        && !connection.inTransaction
      ensures r.Ok? && readings == [] ==> r.value == []
      ensures r.Err? || readings == [] ==> connection.committed == old(connection.committed)
      ensures !old(connection.inTransaction) ==> !connection.inTransaction
      ensures old(connection.inTransaction) ==>
        connection.working == old(connection.working) && connection.inTransaction
    {
      if readings == [] { return Ok([]); }
      if connection.inTransaction { return Err(NotPrepared); }
      var previousTimeout := connection.busyTimeout;
      connection.busyTimeout := BusyTimeoutMs(busyTimeoutSeconds);
      var locked := connection.Begin();
      if !locked {
        connection.busyTimeout := previousTimeout;
        return Err(Faulted);
      }
      r := InsertInTurn(readings);
      if r.Ok? {
        ghost var before := connection.committed;
        var committed := connection.Commit();
        if committed {
          SavedAreTheAppended(before, readings, r.value);
        } else {
          r := Err(Faulted);
        }
      }
      if r.Err? {
        connection.Rollback();
      }
      connection.busyTimeout := previousTimeout;
    }

    /** `tuple(self.add(reading) for reading in readings)` inside an open transaction. */
    method InsertInTurn(readings: seq<Reading>) returns (r: Result<seq<Row>, StoreError>)
      requires connection.Valid() && connection.inTransaction
      modifies connection`working, connection`inTransaction
      ensures connection.Valid() && connection.inTransaction
      ensures r.Ok? ==>
        && AddAllTo(old(connection.working), readings) == Ok(connection.working)
        && connection.working == old(connection.working) + r.value
      ensures r.Err? ==> r.error.Faulted? || AddAllTo(old(connection.working), readings) == Err(r.error)
    {
      hide WellFormed, Insert;
      var saved: seq<Row> := [];
      for i := 0 to |readings|
        invariant connection.Valid() && connection.inTransaction
        invariant AddAllTo(old(connection.working), readings[..i]) == Ok(connection.working)
        invariant connection.working == old(connection.working) + saved
      {
        assert readings[..i + 1][..i] == readings[..i];
        var row := connection.InsertRow(readings[i]);
        if row.Err? {
          if !row.error.Faulted? {
            CaptureRefusalStays(old(connection.working), readings, i + 1);
          }
          return Err(row.error);
        }
        saved := saved + [row.value];
      }
      assert readings[..|readings|] == readings;
      return Ok(saved);
    }

    /** `import_cloud_daily`: the loop over candidates with its list and counters. */
    method ImportCloudDaily(batch: seq<Reading>) returns (r: Result<Import, StoreError>)
      requires connection.Valid()
      modifies connection`working, connection`inTransaction
      ensures connection.Valid()
      ensures r.Ok? ==> r == ImportBatch(old(connection.working), batch) && connection.working == r.value.table
      ensures r.Err? ==> r.error.Faulted? || r == ImportBatch(old(connection.working), batch)
    {
      hide WellFormed, Insert, Lookup;
      var saved: seq<Row> := [];
      var newCount, reusedCount := 0, 0;
      for i := 0 to |batch|
        invariant connection.Valid()
        invariant ImportBatch(old(connection.working), batch[..i])
               == Ok(Import(connection.working, saved, newCount, reusedCount))
      {
        assert batch[..i + 1][..i] == batch[..i];
        var candidate := batch[i];
        if !IsComplete(candidate) {
          ImportRefusalStays(old(connection.working), batch, i + 1);
          return Err(Incomplete);
        }
        var existing := Lookup(connection.working, candidate);
        if existing.Err? {
          ImportRefusalStays(old(connection.working), batch, i + 1);
          return Err(existing.error);
        }
        if existing.value.Some? {
          saved := saved + [existing.value.value];
          reusedCount := reusedCount + 1;
        } else {
          var row := connection.InsertRow(candidate);
          if row.Err? {
            if !row.error.Faulted? {
              ImportRefusalStays(old(connection.working), batch, i + 1);
            }
            return Err(row.error);
          }
          saved := saved + [row.value];
          newCount := newCount + 1;
        }
      }
      assert batch[..|batch|] == batch;
      return Ok(Import(connection.working, saved, newCount, reusedCount));
    }

    /**
     * The import inside `Database.connect`: what is committed is the whole batch, and any
     * refusal, fault or cancellation leaves the table as it was.
     */
    method ImportConnected(batch: seq<Reading>, ctx: CancellationContext) returns (r: Result<Import, StoreError>)
      requires connection.Valid() && !connection.inTransaction
      modifies connection, ctx.clock, ctx`cancelled
      ensures connection.Valid() && !connection.inTransaction
      ensures connection.committed == connection.working
      ensures r.Ok? ==>
        && r == ImportBatch(old(connection.committed), batch)
        && connection.committed == r.value.table
        && connection.committed == Apply(old(connection.committed), DailyImport(batch))
      ensures r.Err? ==> connection.committed == old(connection.committed)
      ensures r.Ok? ==> !ctx.MustStop()
      ensures ImportBatch(old(connection.committed), batch).Err? ==> r.Err?
      ensures r.Err? ==> r.error.Faulted? || r == ImportBatch(old(connection.committed), batch)
    {
      hide WellFormed, ImportBatch;
      var live := ctx.Checkpoint();
      if live.Err? { return Err(Faulted); }
      r := ImportCloudDaily(batch);
      ctx.Elapse();
      if r.Ok? {
        live := ctx.Checkpoint();
        if live.Err? {
          r := Err(Faulted);
        } else {
          var committed := connection.Commit();
          if !committed {
            r := Err(Faulted);
          }
        }
      }
      if r.Err? {
        connection.Rollback();
      }
    }
  }

  lemma {:induction false} CaptureRefusalStays(table: seq<Row>, readings: seq<Reading>, n: nat)
    requires n <= |readings| && AddAllTo(table, readings[..n]).Err?
    ensures AddAllTo(table, readings) == AddAllTo(table, readings[..n])
    decreases |readings|
  {
    hide Insert;
    if n == |readings| {
      assert readings[..n] == readings;
    } else {
      assert readings[..|readings| - 1][..n] == readings[..n];
      CaptureRefusalStays(table, readings[..|readings| - 1], n);
    }
  }

  lemma SavedAreTheAppended(before: seq<Row>, readings: seq<Reading>, saved: seq<Row>)
    requires WellFormed(before) && AddAllTo(before, readings) == Ok(before + saved)
    ensures |saved| == |readings| && forall i | 0 <= i < |readings| :: saved[i].reading == AsStored(readings[i])
  {
    hide WellFormed, AsStored, AddAllTo;
    CaptureAppendsOnly(before, readings);
    forall i | 0 <= i < |readings| ensures saved[i].reading == AsStored(readings[i]) {
      assert (before + saved)[|before| + i] == saved[i];
    }
  }
}
