/**
 * The device cache: the upsert's merge rules, discovery, and the outcomes of reading an energy
 * specification (src/tatatuya/infrastructure/repositories/devices.py,
 * src/tatatuya/services/device_service.py).
 */
module Devices {
  import opened Client
  import opened Common
  import opened Energy

  datatype Eligibility = Unknown | Supported | Unsupported

  datatype Device = Device(
    id: string,
    name: string,
    productId: Option<string>,
    online: Option<bool>,
    energyCode: Option<string>,
    energyUnit: Option<string>,
    energyScale: Option<int>,
    rawDevice: string,
    firstSeen: Option<int>,
    lastSeen: Option<int>,
    eligibility: Eligibility,
    present: Option<bool>,
    rawSpecification: Option<string>)

  type Table = map<string, Device>

  function Coalesce<T>(a: Option<T>, b: Option<T>): Option<T> {
    if a.Some? then a else b
  }

  /** The `ON CONFLICT DO UPDATE` clause; `stored` is the row found, `excluded` the row offered. */
  function Merge(stored: Device, excluded: Device): Device {
    var changed := stored.productId != excluded.productId;
    var replace := changed || excluded.eligibility.Unsupported?;
    excluded.(
      energyCode := if replace then excluded.energyCode else Coalesce(excluded.energyCode, stored.energyCode),
      energyUnit := if replace then excluded.energyUnit else Coalesce(excluded.energyUnit, stored.energyUnit),
      energyScale := if replace then excluded.energyScale else Coalesce(excluded.energyScale, stored.energyScale),
      eligibility :=
        if changed then excluded.eligibility
        else if excluded.eligibility.Unknown? && excluded.rawSpecification.None? then stored.eligibility
        else excluded.eligibility,
      rawSpecification :=
        if changed then excluded.rawSpecification
        else Coalesce(excluded.rawSpecification, stored.rawSpecification),
      firstSeen := stored.firstSeen)
  }

  /** The row offered by `upsert`. */
  function Offered(device: Device, seenAt: int): Device {
    device.(firstSeen := Coalesce(device.firstSeen, Some(seenAt)), lastSeen := Some(seenAt))
  }

  function UpsertInto(table: Table, device: Device, seenAt: int): Table {
    var offered := Offered(device, seenAt);
    table[device.id := if device.id in table then Merge(table[device.id], offered) else offered]
  }

  function AllMissing(table: Table): Table {
    map id | id in table :: table[id].(present := Some(false))
  }

  /** A row of the remote listing as a device: present, and silent about energy. */
  function FromListing(d: ListedDevice): Device {
    Device(d.id, d.name, d.productId, d.online, None, None, None, d.rawJson, None, None, Unknown, Some(true), None)
  }

  function UpsertAll(table: Table, listing: seq<ListedDevice>, seenAt: int): Table {
    if listing == [] then table
    else UpsertInto(UpsertAll(table, listing[..|listing| - 1], seenAt), FromListing(listing[|listing| - 1]), seenAt)
  }

  /** A completed discovery. */
  function Discovered(table: Table, listing: seq<ListedDevice>, seenAt: int): Table {
    UpsertAll(AllMissing(table), listing, seenAt)
  }

  // ------------------------------------------------------------ specifications

  datatype EnergySpecification = EnergySpecification(code: string, unit: string, scale: int, rawJson: string)

  /** How reading a specification can end; `Unreachable` is any error that is not about the specification. */
  datatype SpecificationOutcome =
    | Valid(specification: EnergySpecification)
    | Conclusive(rawJson: string)
    | Malformed(rawJson: string)
    | Unreachable

  /** The table after `ensure_energy_specification` met this outcome. */
  function Specified(table: Table, device: Device, outcome: SpecificationOutcome, seenAt: int): Table {
    match outcome
    case Valid(s) =>
      UpsertInto(table, device.(energyCode := Some(s.code), energyUnit := Some(s.unit), energyScale := Some(s.scale),
                                eligibility := Supported, rawSpecification := Some(s.rawJson)), seenAt)
    case Conclusive(raw) =>
      UpsertInto(table, device.(energyCode := None, energyUnit := None, energyScale := None,
                                eligibility := Unsupported, rawSpecification := Some(raw)), seenAt)
    case Malformed(raw) =>
      UpsertInto(table, device.(eligibility := Unknown, rawSpecification := Some(raw)), seenAt)
    case Unreachable => table
  }

  predicate HasCompleteSpecification(d: Device) {
    && d.energyCode.Some? && d.energyCode.value != ""
    && d.eligibility.Supported?
    && d.energyUnit.Some? && d.energyUnit.value != ""
    && d.energyScale.Some? && 0 <= d.energyScale.value <= MAX_ENERGY_SCALE
  }

  // ------------------------------------------------------------ the invariant over any run

  /** A supported row has all three energy fields, an unsupported row none. */
  predicate IsConsistent(d: Device) {
    && (d.eligibility.Supported? ==> d.energyCode.Some? && d.energyUnit.Some? && d.energyScale.Some?)
    && (d.eligibility.Unsupported? ==> d.energyCode.None? && d.energyUnit.None? && d.energyScale.None?)
  }

  predicate AllConsistent(table: Table) {
    forall id | id in table :: IsConsistent(table[id])
  }

  datatype Operation =
    | Discover(listing: seq<ListedDevice>, seenAt: int)
    | Specify(device: Device, outcome: SpecificationOutcome, seenAt: int)

  function Apply(table: Table, op: Operation): Table {
    match op
    case Discover(listing, seenAt) => Discovered(table, listing, seenAt)
    case Specify(device, outcome, seenAt) => Specified(table, device, outcome, seenAt)
  }

  function ApplyAll(table: Table, ops: seq<Operation>): Table {
    if ops == [] then table else Apply(ApplyAll(table, ops[..|ops| - 1]), ops[|ops| - 1])
  }

  lemma {:induction false} ListingKeepsConsistency(table: Table, listing: seq<ListedDevice>, seenAt: int)
    requires AllConsistent(table)
    ensures AllConsistent(UpsertAll(table, listing, seenAt))
  {
    if listing != [] {
      ListingKeepsConsistency(table, listing[..|listing| - 1], seenAt);
    }
  }

  lemma SpecificationKeepsConsistency(table: Table, device: Device, outcome: SpecificationOutcome, seenAt: int)
    requires AllConsistent(table)
    ensures AllConsistent(Specified(table, device, outcome, seenAt))
    ensures table.Keys <= Specified(table, device, outcome, seenAt).Keys
  {
  }

  lemma MissingKeepsConsistency(table: Table)
    requires AllConsistent(table)
    ensures AllConsistent(AllMissing(table)) && AllMissing(table).Keys == table.Keys
  {
  }

  /**
   * Whatever the sequence of discoveries and specification outcomes, and whichever device value a
   * caller passes, every row stays consistent and no row is ever removed.
   */
  lemma {:induction false} EveryRunIsConsistent(table: Table, ops: seq<Operation>)
    requires AllConsistent(table)
    ensures AllConsistent(ApplyAll(table, ops))
    ensures table.Keys <= ApplyAll(table, ops).Keys
  {
    hide AllConsistent, UpsertAll, AllMissing, Specified;
    if ops != [] {
      var before := ApplyAll(table, ops[..|ops| - 1]);
      EveryRunIsConsistent(table, ops[..|ops| - 1]);
      match ops[|ops| - 1] {
        case Discover(listing, seenAt) =>
          MissingKeepsConsistency(before);
          ListingKeepsConsistency(AllMissing(before), listing, seenAt);
          ListedRow(AllMissing(before), listing, seenAt);
        case Specify(device, outcome, seenAt) =>
          SpecificationKeepsConsistency(before, device, outcome, seenAt);
      }
    }
  }

  /** The primary key of a row is its device id. */
  predicate KeyedById(table: Table) {
    forall id | id in table :: table[id].id == id
  }

  lemma {:induction false} DiscoveryKeepsKeys(table: Table, listing: seq<ListedDevice>, seenAt: int)
    requires KeyedById(table)
    ensures KeyedById(UpsertAll(table, listing, seenAt)) && KeyedById(AllMissing(table))
  {
    if listing != [] {
      DiscoveryKeepsKeys(table, listing[..|listing| - 1], seenAt);
    }
  }

  lemma SpecificationKeepsKeys(table: Table, device: Device, outcome: SpecificationOutcome, seenAt: int)
    requires KeyedById(table)
    ensures KeyedById(Specified(table, device, outcome, seenAt))
    ensures table.Keys <= Specified(table, device, outcome, seenAt).Keys
  {
  }

  // ------------------------------------------------------------ what a specification outcome does

  /**
   * The row a specification outcome leaves, whatever was stored. A valid one is written in full. A conclusive
   * refusal clears code, unit and scale. A malformed one only makes the device unknown: of the same product it
   * keeps what was stored where the device brings nothing of its own. An unreachable service writes nothing.
   */
  lemma SpecificationEffect(table: Table, device: Device, outcome: SpecificationOutcome, seenAt: int)
    ensures outcome.Unreachable? ==> Specified(table, device, outcome, seenAt) == table
    ensures !outcome.Unreachable? ==>
      var after := Specified(table, device, outcome, seenAt);
      && after.Keys == table.Keys + {device.id}
      && (forall id | id in table && id != device.id :: after[id] == table[id])
      && after[device.id].lastSeen == Some(seenAt)
      && after[device.id].name == device.name && after[device.id].productId == device.productId
      && after[device.id].online == device.online && after[device.id].present == device.present
      && after[device.id].rawDevice == device.rawDevice
      && (device.id in table ==> after[device.id].firstSeen == table[device.id].firstSeen)
    ensures outcome.Valid? ==>
      var row, s := Specified(table, device, outcome, seenAt)[device.id], outcome.specification;
      && row.eligibility == Supported && row.rawSpecification == Some(s.rawJson)
      && row.energyCode == Some(s.code) && row.energyUnit == Some(s.unit) && row.energyScale == Some(s.scale)
    ensures outcome.Conclusive? ==>
      var row := Specified(table, device, outcome, seenAt)[device.id];
      && row.eligibility == Unsupported && row.rawSpecification == Some(outcome.rawJson)
      && row.energyCode.None? && row.energyUnit.None? && row.energyScale.None?
    ensures outcome.Malformed? ==>
      var row := Specified(table, device, outcome, seenAt)[device.id];
      && row.eligibility == Unknown && row.rawSpecification == Some(outcome.rawJson)
      && if device.id in table && table[device.id].productId == device.productId then
           var stored := table[device.id];
           && row.energyCode == (if device.energyCode.Some? then device.energyCode else stored.energyCode)
           && row.energyUnit == (if device.energyUnit.Some? then device.energyUnit else stored.energyUnit)
           && row.energyScale == (if device.energyScale.Some? then device.energyScale else stored.energyScale)
         else
           && row.energyCode == device.energyCode && row.energyUnit == device.energyUnit
           && row.energyScale == device.energyScale
  {
    hide HasId;
    if !outcome.Unreachable? {
      assert device.id in Specified(table, device, outcome, seenAt);
    }
  }

  /**
   * When the row that an outcome leaves is complete, so that it is used again without a request: after a valid
   * specification with a code, a unit and a scale in range, and after no other outcome.
   */
  lemma OnlyValidIsReused(table: Table, device: Device, outcome: SpecificationOutcome, seenAt: int)
    requires !outcome.Unreachable?
    ensures device.id in Specified(table, device, outcome, seenAt)
    ensures HasCompleteSpecification(Specified(table, device, outcome, seenAt)[device.id]) <==>
      outcome.Valid? && outcome.specification.code != "" && outcome.specification.unit != ""
      && 0 <= outcome.specification.scale <= 123
  {
    SpecificationEffect(table, device, outcome, seenAt);
  }

  // ------------------------------------------------------------ what a discovery does

  /** What the listing says of a device is what its row holds. */
  predicate IsAsListed(after: Device, listed: ListedDevice, seenAt: int) {
    && after.id == listed.id && after.name == listed.name && after.productId == listed.productId
    && after.online == listed.online && after.rawDevice == listed.rawJson
    && after.present == Some(true) && after.lastSeen == Some(seenAt)
  }

  /** A device met for the first time: nothing is known of its energy. */
  predicate IsNewlyListed(after: Device, listed: ListedDevice, seenAt: int) {
    && IsAsListed(after, listed, seenAt) && after.firstSeen == Some(seenAt)
    && after.eligibility.Unknown? && after.rawSpecification.None?
    && after.energyCode.None? && after.energyUnit.None? && after.energyScale.None?
  }

  /** The effect of one listed row on the row already stored for it. */
  predicate IsRediscovered(stored: Device, after: Device, listed: ListedDevice, seenAt: int) {
    && IsAsListed(after, listed, seenAt)
    && after.firstSeen == stored.firstSeen
    && if stored.productId == listed.productId then
         && after.eligibility == stored.eligibility
         && after.energyCode == stored.energyCode && after.energyUnit == stored.energyUnit
         && after.energyScale == stored.energyScale && after.rawSpecification == stored.rawSpecification
       else
         && after.eligibility.Unknown?
         && after.energyCode.None? && after.energyUnit.None? && after.energyScale.None?
         && after.rawSpecification.None?
  }

  lemma {:induction false} ListedRow(table: Table, listing: seq<ListedDevice>, seenAt: int)
    ensures
      var after := UpsertAll(table, listing, seenAt);
      && table.Keys <= after.Keys
      && (forall id | id in after && !HasId(listing, id) :: id in table && after[id] == table[id])
      && (forall i | 0 <= i < |listing| :: listing[i].id in after)
  {
    if listing != [] {
      var front, last := listing[..|listing| - 1], listing[|listing| - 1];
      ListedRow(table, front, seenAt);
      var after := UpsertAll(table, listing, seenAt);
      forall id | id in after && !HasId(listing, id) ensures id in table && after[id] == table[id] {
        assert last.id != id;
        forall i | 0 <= i < |front| ensures front[i].id != id {
          assert front[i] == listing[i];
        }
      }
      forall i | 0 <= i < |listing| ensures listing[i].id in after {
        if i < |front| { assert front[i] == listing[i]; }
      }
    }
  }

  /** One listed row, wherever it stands in the listing, decides its own device's row alone. */
  lemma {:induction false} ListedRowDecides(table: Table, listing: seq<ListedDevice>, seenAt: int, i: nat)
    requires DistinctIds(listing) && i < |listing|
    ensures listing[i].id in UpsertAll(table, listing, seenAt)
    ensures UpsertAll(table, listing, seenAt)[listing[i].id]
         == UpsertInto(table, FromListing(listing[i]), seenAt)[listing[i].id]
    decreases |listing|
  {
    hide Merge, Offered;
    var front, last := listing[..|listing| - 1], listing[|listing| - 1];
    var id := listing[i].id;
    if i < |front| {
      assert front[i] == listing[i];
      ListedRowDecides(table, front, seenAt, i);
      assert last.id != id;
    } else {
      forall j | 0 <= j < |front| ensures front[j].id != id {
        assert front[j] == listing[j];
      }
      ListedRow(table, front, seenAt);
    }
  }

  /**
   * A completed discovery: the presence flag is membership in the listing, an unchanged product keeps
   * its classification and energy fields, a changed product loses them, and an unlisted device keeps
   * everything but its presence.
   */
  lemma DiscoveryEffect(table: Table, listing: seq<ListedDevice>, seenAt: int)
    requires DistinctIds(listing)
    ensures
      var after := Discovered(table, listing, seenAt);
      && (forall id | id in after :: after[id].present == Some(HasId(listing, id)))
      && (forall id | id in table && !HasId(listing, id) ::
            id in after && after[id] == table[id].(present := Some(false)))
      && (forall i | 0 <= i < |listing| :: listing[i].id in after &&
            if listing[i].id in table then IsRediscovered(table[listing[i].id], after[listing[i].id], listing[i], seenAt)
            else IsNewlyListed(after[listing[i].id], listing[i], seenAt))
  {
    var missing := AllMissing(table);
    var after := Discovered(table, listing, seenAt);
    ListedRow(missing, listing, seenAt);
    forall i | 0 <= i < |listing|
      ensures listing[i].id in after && after[listing[i].id].present == Some(true)
      ensures if listing[i].id in table then IsRediscovered(table[listing[i].id], after[listing[i].id], listing[i], seenAt)
              else IsNewlyListed(after[listing[i].id], listing[i], seenAt)
    {
      ListedRowDecides(missing, listing, seenAt, i);
    }
    forall id | id in after ensures after[id].present == Some(HasId(listing, id)) {
      if HasId(listing, id) {
        var i :| 0 <= i < |listing| && listing[i].id == id;
      }
    }
  }

  // ------------------------------------------------------------ the repository and the service

  /** The devices table on one connection: `rows` is what this connection works on. */
  class DeviceRepository {
    var rows: Table
    var committed: Table

    constructor ()
      ensures rows == committed == map[]
    {
      rows, committed := map[], map[];
    }

    method Commit()
      modifies this`committed
      ensures committed == rows
    {
      committed := rows;
    }

    method Rollback()
      modifies this`rows
      ensures rows == committed
    {
      rows := committed;
    }

    /** `upsert`, with the clock's reading for a device that brings no time of its own. */
    method Upsert(device: Device, seenAt: Option<int>, now: int) returns (saved: Device)
      modifies this`rows
      ensures rows == UpsertInto(old(rows), device, Coalesce(Coalesce(seenAt, device.lastSeen), Some(now)).value)
      ensures device.id in rows && saved == rows[device.id]
    {
      var seen := Coalesce(Coalesce(seenAt, device.lastSeen), Some(now)).value;
      var offered := Offered(device, seen);
      if device.id in rows {
        rows := rows[device.id := Merge(rows[device.id], offered)];
      } else {
        rows := rows[device.id := offered];
      }
      saved := rows[device.id];
    }

    /** Every row once; the order by name is left open. */
    method ListAll() returns (all: seq<Device>)
      requires KeyedById(rows)
      ensures forall i, j | 0 <= i < j < |all| :: all[i].id != all[j].id
      ensures forall i | 0 <= i < |all| :: all[i].id in rows && all[i] == rows[all[i].id]
      ensures forall id | id in rows :: exists i | 0 <= i < |all| :: all[i].id == id
    {
      all := [];
      var left := rows.Keys;
      while left != {}
        invariant left <= rows.Keys
        invariant forall i, j | 0 <= i < j < |all| :: all[i].id != all[j].id
        invariant forall i | 0 <= i < |all| :: all[i].id in rows && all[i].id !in left && all[i] == rows[all[i].id]
        invariant forall id | id in rows && id !in left :: exists i | 0 <= i < |all| :: all[i].id == id
      {
        var id :| id in left;
        ghost var before := all;
        all := all + [rows[id]];
        left := left - {id};
        assert all[|before|].id == id;
        assert forall i | 0 <= i < |before| :: all[i] == before[i];
      }
    }

    method MarkAllMissing()
      modifies this`rows
      ensures rows == AllMissing(old(rows))
    {
      rows := map id | id in rows :: rows[id].(present := Some(false));
    }
  }

  lemma UpsertTouchesOneRow(table: Table, device: Device, seenAt: int)
    ensures
      var after := UpsertInto(table, device, seenAt);
      && after.Keys == table.Keys + {device.id}
      && forall id | id in table && id != device.id :: after[id] == table[id]
  {
  }

  datatype SpecificationError = NotSupported | Incompatible | Inaccessible

  /** One specification request and how it ended. */
  datatype SpecificationExchange = SpecificationExchange(id: string, outcome: SpecificationOutcome)

  /** The remote specification endpoint; `exchanges` is every request made, in order, with its outcome. */
  class SpecificationGateway {
    ghost var exchanges: seq<SpecificationExchange>

    method GetDeviceSpecification(id: string) returns (outcome: SpecificationOutcome)
      modifies this
      ensures exchanges == old(exchanges) + [SpecificationExchange(id, outcome)]
    {
      outcome := *;
      exchanges := exchanges + [SpecificationExchange(id, outcome)];
    }
  }

  class DeviceService {
    const devices: DeviceRepository
    const gateway: SpecificationGateway

    constructor (devices: DeviceRepository, gateway: SpecificationGateway)
      ensures this.devices == devices && this.gateway == gateway
    {
      this.devices, this.gateway := devices, gateway;
    }

    /** `discover`: the listing is fetched before anything is written. */
    method Discover(listing: Result<seq<ListedDevice>, ApiError>, seenAt: int)
      returns (r: Result<seq<Device>, ApiError>)
      requires listing.Ok? ==> DistinctIds(listing.value)
      modifies devices`rows
      ensures listing.Err? ==> r.Err? && devices.rows == old(devices.rows)
      ensures listing.Ok? ==>
        && r.Ok? && |r.value| == |listing.value|
        && devices.rows == Discovered(old(devices.rows), listing.value, seenAt)
        && forall i | 0 <= i < |listing.value| ::
             listing.value[i].id in devices.rows && r.value[i] == devices.rows[listing.value[i].id]
      ensures old(KeyedById(devices.rows)) ==>
        && KeyedById(devices.rows)
        && (r.Ok? ==> forall i | 0 <= i < |r.value| :: r.value[i].id == listing.value[i].id)
    {
      if listing.Err? { return Err(listing.error); }
      if KeyedById(devices.rows) {
        DiscoveryKeepsKeys(devices.rows, listing.value, seenAt);
        DiscoveryKeepsKeys(AllMissing(devices.rows), listing.value, seenAt);
      }
      hide Merge, Offered, AllMissing, UpsertInto;
      devices.MarkAllMissing();
      ghost var missing := devices.rows;
      var remote := listing.value;
      var saved: seq<Device> := [];
      for i := 0 to |remote|
        invariant |saved| == i
        invariant devices.rows == UpsertAll(missing, remote[..i], seenAt)
        invariant forall j | 0 <= j < i :: remote[j].id in devices.rows && saved[j] == devices.rows[remote[j].id]
      {
        assert remote[..i + 1][..i] == remote[..i];
        UpsertTouchesOneRow(devices.rows, FromListing(remote[i]), seenAt);
        var device := devices.Upsert(FromListing(remote[i]), Some(seenAt), seenAt);
        saved := saved + [device];
      }
      assert remote[..|remote|] == remote;
      return Ok(saved);
    }

    /**
     * `ensure_energy_specification`: a complete cached specification is returned without a request unless a
     * refresh is forced; otherwise one request is made, and its outcome is written down before it is returned
     * or raised.
     */
    method EnsureEnergySpecification(device: Device, forceRefresh: bool, now: int)
      returns (r: Result<(Device, EnergySpecification), SpecificationError>, ghost delivered: Option<SpecificationOutcome>)
      modifies devices`rows, gateway
      ensures delivered.None? <==> !forceRefresh && HasCompleteSpecification(device)
      ensures delivered.None? ==>
        && devices.rows == old(devices.rows) && gateway.exchanges == old(gateway.exchanges)
        && r.Ok? && r.value.0 == device
      ensures delivered.Some? ==>
        && gateway.exchanges == old(gateway.exchanges) + [SpecificationExchange(device.id, delivered.value)]
        && devices.rows == Specified(old(devices.rows), device, delivered.value, now)
        && match delivered.value {
             case Valid(s) => device.id in devices.rows && r == Ok((devices.rows[device.id], s))
             case Conclusive(_) => r == Err(NotSupported)
             case Malformed(_) => r == Err(Incompatible)
             case Unreachable => r == Err(Inaccessible)
           }
      ensures r.Ok? ==>
        && r.value.0.id == device.id && r.value.0.energyCode == Some(r.value.1.code)
        && r.value.0.energyUnit == Some(r.value.1.unit) && r.value.0.energyScale == Some(r.value.1.scale)
    {
      delivered := None;
      if !forceRefresh && HasCompleteSpecification(device) {
        r := Ok((device, EnergySpecification(device.energyCode.value, device.energyUnit.value, device.energyScale.value,
                                             Coalesce(device.rawSpecification, Some("{}")).value)));
        return;
      }
      var outcome := gateway.GetDeviceSpecification(device.id);
      delivered := Some(outcome);
      match outcome {
        case Conclusive(raw) =>
          var _ := devices.Upsert(device.(energyCode := None, energyUnit := None, energyScale := None,
                                          eligibility := Unsupported, rawSpecification := Some(raw)), Some(now), now);
          r := Err(NotSupported);
        case Malformed(raw) =>
          var _ := devices.Upsert(device.(eligibility := Unknown, rawSpecification := Some(raw)), Some(now), now);
          r := Err(Incompatible);
        case Unreachable =>
          r := Err(Inaccessible);
        case Valid(s) =>
          var updated := devices.Upsert(
            device.(energyCode := Some(s.code), energyUnit := Some(s.unit), energyScale := Some(s.scale),
                    eligibility := Supported, rawSpecification := Some(s.rawJson)), Some(now), now);
          r := Ok((updated, s));
      }
    }
  }
}
