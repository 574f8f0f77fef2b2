/**
 * Two parts of the Tuya client that bound its work: the size-limited body reader and the
 * paginated device listing (src/tatatuya/infrastructure/tuya/client.py).
 */
module Client {
  import opened Cancellation
  import opened Common

  const PAGE_LIMIT: nat := 1_048_576
  const ERROR_LIMIT: nat := 65_536
  const READ_SIZE: nat := 65_536

  // ------------------------------------------------------------ bounded reading

  datatype ReadError = BudgetExhausted | TooLarge | DeadlinePassed | Interrupted(stop: Stop)

  /** A response body that arrives in pieces of its own choosing. */
  class ByteStream {
    const data: seq<int>
    var position: nat

    ghost predicate Valid()
      reads this
    {
      position <= |data|
    }

    constructor (data: seq<int>)
      ensures Valid() && this.data == data && position == 0
    {
      this.data := data;
      position := 0;
    }

    /** At most `size` bytes; an empty result only at the end of the body. */
    method Read(size: nat) returns (chunk: seq<int>)
      requires Valid() && size > 0
      modifies this`position
      ensures Valid() && old(position) <= position && |chunk| <= size
      ensures chunk == data[old(position)..position]
      ensures chunk == [] <==> old(position) == |data|
    {
      if position == |data| { return []; }
      var wanted: nat := *;
      var available := |data| - position;
      var n := if 0 < wanted <= size && wanted <= available then wanted else 1;
      chunk := data[position..position + n];
      position := position + n;
    }
  }

  /** `_read_bounded`: the whole remaining body if it fits, otherwise an error after one byte too many. */
  method ReadBounded(stream: ByteStream, allowance: int, ctx: CancellationContext, deadline: real)
    returns (r: Result<seq<int>, ReadError>)
    requires stream.Valid()
    modifies stream`position, ctx.clock, ctx`cancelled
    ensures stream.Valid() && ctx.clock.now >= old(ctx.clock.now) && (old(ctx.cancelled) ==> ctx.cancelled)
    ensures old(stream.position) <= stream.position
    ensures allowance < 0 ==> r == Err(BudgetExhausted) && stream.position == old(stream.position)
    ensures allowance >= 0 ==> stream.position - old(stream.position) <= allowance + 1
    ensures r.Ok? ==>
      r.value == stream.data[old(stream.position)..] && |r.value| <= allowance && stream.position == |stream.data|
    ensures r == Err(TooLarge) ==> |stream.data| - old(stream.position) > allowance
    ensures r == Err(BudgetExhausted) ==> allowance < 0
    ensures r == Err(DeadlinePassed) ==> ctx.clock.now >= deadline
    ensures r.Err? && r.error.Interrupted? ==> ctx.MustStop()
  {
    if allowance < 0 { return Err(BudgetExhausted); }
    var body: seq<int> := [];
    var remaining := allowance + 1;
    var more := true;
    while remaining > 0 && more
      invariant stream.Valid() && ctx.clock.now >= old(ctx.clock.now) && (old(ctx.cancelled) ==> ctx.cancelled)
      invariant old(stream.position) <= stream.position
      invariant body == stream.data[old(stream.position)..stream.position]
      invariant remaining == allowance + 1 - |body| && remaining >= 0
      invariant !more ==> stream.position == |stream.data|
      decreases more, remaining
    {
      var live := ctx.Checkpoint();
      if live.Err? { return Err(Interrupted(live.error)); }
      var now := ctx.clock.Monotonic();
      if deadline - now <= 0.0 { return Err(DeadlinePassed); }
      var chunk := stream.Read(if remaining < READ_SIZE then remaining else READ_SIZE);
      if chunk == [] {
        more := false;
      } else {
        body := body + chunk;
        remaining := remaining - |chunk|;
        now := ctx.clock.Monotonic();
        if now >= deadline { return Err(DeadlinePassed); }
      }
    }
    if |body| > allowance { return Err(TooLarge); }
    assert stream.position == |stream.data|;
    return Ok(body);
  }

  // ------------------------------------------------------------ device listing

  const MAX_DEVICE_PAGES: nat := 50
  const MAX_DISCOVERED_DEVICES: nat := 5_000

  datatype ApiError = Api(rateLimited: bool) | Stopped(stop: Stop)

  datatype ListedDevice = ListedDevice(
    id: string, name: string, productId: Option<string>, online: Option<bool>, rawJson: string)

  datatype DevicePage = DevicePage(devices: seq<ListedDevice>, hasMore: bool, cursor: Option<string>)

  predicate DistinctIds(devices: seq<ListedDevice>) {
    forall i, j | 0 <= i < j < |devices| :: devices[i].id != devices[j].id
  }

  predicate HasId(devices: seq<ListedDevice>, id: string) {
    exists i | 0 <= i < |devices| :: devices[i].id == id
  }

  /** First occurrence wins: `dict.setdefault` over the rows in arrival order. */
  function FirstOfEachId(rows: seq<ListedDevice>): (devices: seq<ListedDevice>)
    ensures DistinctIds(devices)
    ensures forall d | d in devices :: d in rows
    ensures forall d | d in rows :: HasId(devices, d.id)
  {
    if rows == [] then []
    else
      var rest, last := FirstOfEachId(rows[..|rows| - 1]), rows[|rows| - 1];
      if HasId(rest, last.id) then rest
      else
        assert (rest + [last])[|rest|].id == last.id;
        assert forall d | d in rest :: HasId(rest + [last], d.id) by {
          forall d | d in rest ensures HasId(rest + [last], d.id) {
            var i :| 0 <= i < |rest| && rest[i] == d;
            assert (rest + [last])[i].id == d.id;
          }
        }
        assert forall d | d in rows :: d in rows[..|rows| - 1] || d == last;
        assert forall d | HasId(rest, d) :: HasId(rest + [last], d) by {
          forall d | HasId(rest, d) ensures HasId(rest + [last], d) {
            var i :| 0 <= i < |rest| && rest[i].id == d;
            assert (rest + [last])[i].id == d;
          }
        }
        rest + [last]
  }

  /** The first row of an id is the one kept for it. */
  lemma {:induction false} FirstRowWins(rows: seq<ListedDevice>, i: nat)
    requires i < |rows| && forall j | 0 <= j < i :: rows[j].id != rows[i].id
    ensures rows[i] in FirstOfEachId(rows)
    decreases |rows|
  {
    var front, last := rows[..|rows| - 1], rows[|rows| - 1];
    if i < |front| {
      assert front[i] == rows[i] && forall j | 0 <= j < i :: front[j] == rows[j];
      FirstRowWins(front, i);
    } else {
      forall d | d in front ensures d.id != last.id {
        var j :| 0 <= j < |front| && front[j] == d;
        assert rows[j] == d;
      }
    }
  }

  /** The remote listing endpoint: the cursors it was asked for, the pages it has delivered, and all their rows in order. */
  class DeviceListing {
    ghost var cursors: seq<Option<string>>
    ghost var pages: seq<DevicePage>
    ghost var rows: seq<ListedDevice>

    method FetchPage(cursor: Option<string>) returns (r: Result<DevicePage, ApiError>)
      modifies this
      ensures cursors == old(cursors) + [cursor]
      ensures r.Ok? ==> pages == old(pages) + [r.value] && rows == old(rows) + r.value.devices
      ensures r.Err? ==> pages == old(pages) && rows == old(rows)
    {
      cursors := cursors + [cursor];
      var failed: bool := *;
      if failed { return Err(Api(false)); }
      var page: DevicePage := *;
      pages, rows := pages + [page], rows + page.devices;
      return Ok(page);
    }
  }

  /** One page's rows are merged in order; the safety limit is checked after every row. */
  method MergePage(known: seq<ListedDevice>, ghost before: seq<ListedDevice>, rows: seq<ListedDevice>)
    returns (r: Option<seq<ListedDevice>>)
    requires known == FirstOfEachId(before) && |known| <= MAX_DISCOVERED_DEVICES
    ensures r.Some? ==> r.value == FirstOfEachId(before + rows) && |r.value| <= 5_000
    ensures r.None? ==> |FirstOfEachId(before + rows)| > 5_000
  {
    hide FirstOfEachId, HasId;
    var devices := known;
    assert before + rows[..0] == before;
    for i := 0 to |rows|
      invariant devices == FirstOfEachId(before + rows[..i])
      invariant |devices| <= MAX_DISCOVERED_DEVICES
    {
      OneMoreRow(before + rows[..i], rows[i]);
      assert before + rows[..i + 1] == before + rows[..i] + [rows[i]];
      if !HasId(devices, rows[i].id) {
        devices := devices + [rows[i]];
      }
      if |devices| > MAX_DISCOVERED_DEVICES {
        assert before + rows == before + rows[..i + 1] + rows[i + 1..];
        MoreRowsMoreDevices(before + rows[..i + 1], rows[i + 1..]);
        return None;
      }
    }
    assert rows[..|rows|] == rows;
    return Some(devices);
  }

  lemma OneMoreRow(rows: seq<ListedDevice>, d: ListedDevice)
    ensures FirstOfEachId(rows + [d])
         == FirstOfEachId(rows) + if HasId(FirstOfEachId(rows), d.id) then [] else [d]
  {
    assert (rows + [d])[..|rows|] == rows;
  }

  lemma {:induction false} MoreRowsMoreDevices(rows: seq<ListedDevice>, more: seq<ListedDevice>)
    ensures |FirstOfEachId(rows)| <= |FirstOfEachId(rows + more)|
  {
    if more == [] {
      assert rows + more == rows;
    } else {
      MoreRowsMoreDevices(rows, more[..|more| - 1]);
      assert (rows + more)[..|rows + more| - 1] == rows + more[..|more| - 1];
    }
  }

  /** The cursor that each request has to ask for: none at first, then the one the page before it gave. */
  function CursorAfter(pages: seq<DevicePage>): Option<string> {
    if pages == [] then None else pages[|pages| - 1].cursor
  }

  /** The listing was followed to its end. */
  predicate IsWhole(pages: seq<DevicePage>) {
    pages != [] && !pages[|pages| - 1].hasMore && forall i | 0 <= i < |pages| - 1 :: pages[i].hasMore
  }

  /** Each page is asked for with the cursor that the one before it gave, and no cursor is used twice. */
  predicate FollowsCursors(cursors: seq<Option<string>>, pages: seq<DevicePage>) {
    && |pages| <= |cursors| <= |pages| + 1
    && (forall i | 0 <= i < |cursors| :: cursors[i] == CursorAfter(pages[..i]))
    && (forall i, j | 0 <= i < j < |cursors| :: cursors[i] != cursors[j])
  }

  lemma NextRequestFollows(cursors: seq<Option<string>>, pages: seq<DevicePage>, page: DevicePage)
    requires FollowsCursors(cursors, pages) && |cursors| == |pages| && CursorAfter(pages) !in cursors
    ensures FollowsCursors(cursors + [CursorAfter(pages)], pages)
    ensures FollowsCursors(cursors + [CursorAfter(pages)], pages + [page])
    ensures CursorAfter(pages + [page]) == page.cursor
  {
    hide CursorAfter;
    assert pages[..|pages|] == pages;
    forall i | 0 <= i <= |pages| ensures (pages + [page])[..i] == pages[..i] {
    }
    assert CursorAfter(pages + [page]) == page.cursor by { LastPageDecides(pages, page); }
  }

  lemma LastPageDecides(pages: seq<DevicePage>, page: DevicePage)
    ensures CursorAfter(pages + [page]) == page.cursor
    ensures IsWhole(pages + [page]) <==> AllOpen(pages) && !page.hasMore
    ensures AllOpen(pages + [page]) <==> AllOpen(pages) && page.hasMore
    ensures AllOpen(pages) ==> !IsWhole(pages)
  {
    var all := pages + [page];
    assert all[|pages|] == page;
    assert forall i | 0 <= i < |pages| :: all[i] == pages[i];
  }

  predicate AllOpen(pages: seq<DevicePage>) {
    forall i | 0 <= i < |pages| :: pages[i].hasMore
  }

  lemma NothingAskedYet()
    ensures FollowsCursors([], []) && AllOpen([]) && CursorAfter([]) == None && FirstOfEachId([]) == []
  {
  }

  /**
   * `list_devices`: the first row of each id over a listing followed to its end, or an error; a listing that
   * is whole within the limits is not refused.
   */
  method ListDevices(listing: DeviceListing, ctx: CancellationContext) returns (r: Result<seq<ListedDevice>, ApiError>)
    requires listing.rows == [] && listing.cursors == [] && listing.pages == []
    modifies listing, ctx.clock, ctx`cancelled
    ensures r.Ok? <==> IsWhole(listing.pages) && |FirstOfEachId(listing.rows)| <= 5_000
    ensures r.Ok? ==> r.value == FirstOfEachId(listing.rows)
    ensures FollowsCursors(listing.cursors, listing.pages) && |listing.cursors| <= 50
    ensures r.Err? ==>
      || (r.error.Stopped? && ctx.MustStop())
      || |listing.cursors| == |listing.pages| + 1
      || |FirstOfEachId(listing.rows)| > 5_000
      || |listing.pages| == 50
      || CursorAfter(listing.pages).None? || CursorAfter(listing.pages) in listing.cursors
  {
    hide FirstOfEachId, HasId, IsWhole, FollowsCursors, CursorAfter, AllOpen;
    NothingAskedYet();
    LastPageDecides([], DevicePage([], false, None));
    var devices: seq<ListedDevice> := [];
    var seen: set<string> := {};
    var cursor: Option<string> := None;
    for page := 0 to MAX_DEVICE_PAGES
      invariant devices == FirstOfEachId(listing.rows) && |devices| <= MAX_DISCOVERED_DEVICES
      invariant |listing.cursors| == |listing.pages| == page && cursor == CursorAfter(listing.pages)
      invariant FollowsCursors(listing.cursors, listing.pages) && AllOpen(listing.pages)
      invariant cursor !in listing.cursors && (page > 0 ==> cursor.Some?)
      invariant forall c | c in listing.cursors || c == cursor :: c.Some? ==> c.value in seen
      invariant forall s | s in seen :: Some(s) in listing.cursors || cursor == Some(s)
      invariant None in listing.cursors || page == 0
      invariant !IsWhole(listing.pages)
    {
      var live := ctx.Checkpoint();
      if live.Err? { return Err(Stopped(live.error)); }
      ghost var before, asked, received := listing.rows, listing.cursors, listing.pages;
      var fetched := listing.FetchPage(cursor);
      NextRequestFollows(asked, received, if fetched.Ok? then fetched.value else DevicePage([], false, None));
      if fetched.Err? { return Err(fetched.error); }
      LastPageDecides(received, fetched.value);
      var merged := MergePage(devices, before, fetched.value.devices);
      if merged.None? { return Err(Api(false)); }
      devices := merged.value;
      if !fetched.value.hasMore { return Ok(devices); }
      LastPageDecides(listing.pages, fetched.value);
      var next := fetched.value.cursor;
      if next.None? { return Err(Api(false)); }
      if next.value in seen {
        assert next in listing.cursors;
        return Err(Api(false));
      }
      seen := seen + {next.value};
      cursor := next;
    }
    return Err(Api(false));
  }
}
