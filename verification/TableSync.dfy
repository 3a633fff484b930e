/** Reactive tables: the server sends a snapshot and then patches; the client applies them.  The directory,
    roots, trash, modules and clients tables all compare two listings this way. */
module TableSync {
  import opened Wrappers
  import opened Bytes

  type Key = seq<byte>

  datatype Row = Row(key: Key, content: seq<byte>)

  datatype CloseReason = Deleted | ReplacedByNonDirectory | PermissionLost | Moved(to: Option<seq<byte>>) | Failed | Unknown

  datatype TableEvent =
    | Snapshot(rows: seq<Row>)
    | Patch(removes: seq<Key>, upserts: seq<Row>)
    | Closed(reason: CloseReason)

  predicate Unique(rows: seq<Row>) {
    forall i, j | 0 <= i < j < |rows| :: rows[i].key != rows[j].key
  }

  // ---------- an ordered map of rows, as an ascending list ----------

  function Put(table: seq<Row>, row: Row): (r: seq<Row>)
  {
    if table == [] then [row]
    else if table[0].key == row.key then [row] + table[1..]
    else if LexLess(row.key, table[0].key) then [row] + table
    else [table[0]] + Put(table[1..], row)
  }

  function Collect(rows: seq<Row>): (table: seq<Row>)
    decreases |rows|
  {
    if rows == [] then [] else Put(Collect(rows[..|rows| - 1]), rows[|rows| - 1])
  }

  function Lookup(table: seq<Row>, key: Key): (r: Option<Row>)
    ensures r.Some? ==> r.value in table && r.value.key == key
    ensures r.None? ==> forall row | row in table :: row.key != key
  {
    if table == [] then None else if table[0].key == key then Some(table[0]) else Lookup(table[1..], key)
  }

  // ---------- the server ----------

  function Removed(previous: seq<Row>, next: seq<Row>): (keys: seq<Key>)
  {
    if previous == [] then []
    else (if Lookup(next, previous[0].key).None? then [previous[0].key] else []) + Removed(previous[1..], next)
  }

  function Upserted(previous: seq<Row>, next: seq<Row>): (rows: seq<Row>)
  {
    if next == [] then []
    else (if Lookup(previous, next[0].key) == Some(next[0]) then [] else [next[0]]) + Upserted(previous, next[1..])
  }

  function PatchBetween(previous: seq<Row>, next: seq<Row>): (event: Option<TableEvent>)
  {
    var removes, upserts := Removed(Collect(previous), Collect(next)), Upserted(Collect(previous), Collect(next));
    if removes == [] && upserts == [] then None else Some(Patch(removes, upserts))
  }

  method CollectRows(rows: seq<Row>) returns (table: seq<Row>)
    ensures table == Collect(rows)
  {
    table := [];
    for i := 0 to |rows|
      invariant table == Collect(rows[..i])
    {
      assert rows[..i + 1][..i] == rows[..i];
      table := Put(table, rows[i]);
    }
    assert rows[..|rows|] == rows;
  }

  lemma NothingRemoved(next: seq<Row>)
    ensures Removed([], next) == []
  {
  }

  lemma NothingUpserted(previous: seq<Row>)
    ensures Upserted(previous, []) == []
  {
  }

  lemma RemovedAt(previous: seq<Row>, next: seq<Row>, i: nat)
    requires i < |previous|
    ensures Removed(previous[i..], next) ==
      (if Lookup(next, previous[i].key).None? then [previous[i].key] else []) + Removed(previous[i + 1..], next)
  {
    assert previous[i..][1..] == previous[i + 1..];
  }

  method RemovedKeysOf(previous: seq<Row>, next: seq<Row>) returns (removes: seq<Key>)
    ensures removes == Removed(previous, next)
  {
    hide Lookup, Removed;
    removes := [];
    assert previous[0..] == previous && removes + Removed(previous, next) == Removed(previous, next);
    for i := 0 to |previous|
      invariant Removed(previous, next) == removes + Removed(previous[i..], next)
    {
      RemovedAt(previous, next, i);
      if Lookup(next, previous[i].key).None? {
        Regroup(removes, [previous[i].key], Removed(previous[i + 1..], next));
        removes := removes + [previous[i].key];
      }
    }
    NothingRemoved(next);
    assert previous[|previous|..] == [] && removes + [] == removes;
  }

  lemma UpsertedAt(previous: seq<Row>, next: seq<Row>, i: nat)
    requires i < |next|
    ensures Upserted(previous, next[i..]) ==
      (if Lookup(previous, next[i].key) == Some(next[i]) then [] else [next[i]]) + Upserted(previous, next[i + 1..])
  {
    assert next[i..][1..] == next[i + 1..];
  }

  method UpsertedRowsOf(previous: seq<Row>, next: seq<Row>) returns (upserts: seq<Row>)
    ensures upserts == Upserted(previous, next)
  {
    hide Lookup, Upserted;
    upserts := [];
    assert next[0..] == next && upserts + Upserted(previous, next) == Upserted(previous, next);
    for i := 0 to |next|
      invariant Upserted(previous, next) == upserts + Upserted(previous, next[i..])
    {
      UpsertedAt(previous, next, i);
      if Lookup(previous, next[i].key) != Some(next[i]) {
        Regroup(upserts, [next[i]], Upserted(previous, next[i + 1..]));
        upserts := upserts + [next[i]];
      }
    }
    NothingUpserted(previous);
    assert next[|next|..] == [] && upserts + [] == upserts;
  }

  method DirectoryPatch(previous: seq<Row>, next: seq<Row>) returns (event: Option<TableEvent>)
    ensures event == PatchBetween(previous, next)
  {
    var previousByKey := CollectRows(previous);
    var nextByKey := CollectRows(next);
    var removes := RemovedKeysOf(previousByKey, nextByKey);
    var upserts := UpsertedRowsOf(previousByKey, nextByKey);
    return if removes == [] && upserts == [] then None else Some(Patch(removes, upserts));
  }

  /** What makes the server look again, and what it then finds. */
  datatype Poll = Listed(rows: seq<Row>) | ListingFailed(reason: CloseReason) | WatchFailed

  class Subscription {
    var rows: seq<Row>
    var open: bool

    constructor (rows: seq<Row>)
      ensures this.rows == rows && open
    {
      this.rows, open := rows, true;
    }

    /** One turn of the loop, and the event it sends, if any. */
    method Turn(poll: Poll) returns (event: Option<TableEvent>)
      requires open
      modifies this
      ensures (rows, event) == Served(old(rows), poll)
      ensures open == !(event.Some? && event.value.Closed?)
    {
      match poll
      case WatchFailed =>
        open := false;
        return Some(Closed(Failed));
      case ListingFailed(reason) =>
        open := false;
        return Some(Closed(reason));
      case Listed(next) =>
        event := DirectoryPatch(rows, next);
        if event.Some? {
          rows := next;
        }
    }
  }

  function Served(rows: seq<Row>, poll: Poll): (r: (seq<Row>, Option<TableEvent>))
  {
    match poll
    case WatchFailed => (rows, Some(Closed(Failed)))
    case ListingFailed(reason) => (rows, Some(Closed(reason)))
    case Listed(next) =>
      var event := PatchBetween(rows, next);
      (if event.Some? then next else rows, event)
  }

  // ---------- the client ----------

  function Keys(rows: seq<Row>): (keys: set<Key>)
  {
    set row | row in rows :: row.key
  }

  function Keep(rows: seq<Row>, without: set<Key>): (r: seq<Row>)
  {
    if rows == [] then []
    else (if rows[0].key in without then [] else [rows[0]]) + Keep(rows[1..], without)
  }

  /** The rows before they are sorted for display. */
  function Patched(rows: seq<Row>, removes: seq<Key>, upserts: seq<Row>): (r: seq<Row>)
  {
    Keep(Keep(rows, set key | key in removes), Keys(upserts)) + upserts
  }

  /** Whatever the display order, sorting rearranges the rows and nothing else. */
  ghost predicate Rearranges(sort: seq<Row> -> seq<Row>) {
    forall rows :: multiset(sort(rows)) == multiset(rows)
  }

  datatype Phase = Live | Ended(reason: CloseReason)

  class TableView {
    var rows: seq<Row>
    var phase: Phase

    constructor ()
      ensures rows == [] && phase == Live
    {
      rows, phase := [], Live;
    }

    /** Also reports where a directory went that was moved, for the caller to follow. */
    method Receive(sort: seq<Row> -> seq<Row>, event: TableEvent) returns (moved: Option<Option<seq<byte>>>)
      modifies this
      ensures (rows, phase) == Shown(sort, old(rows), event)
      ensures moved == if event.Closed? && event.reason.Moved? then Some(event.reason.to) else None
    {
      moved := None;
      match event
      case Snapshot(snapshot) =>
        rows, phase := snapshot, Live;
      case Patch(removes, upserts) =>
        var remaining := KeepRows(rows, set key | key in removes);
        var kept := KeepRows(remaining, Keys(upserts));
        rows, phase := sort(kept + upserts), Live;
      case Closed(reason) =>
        if reason.Moved? {
          moved := Some(reason.to);
        }
        phase := Ended(reason);
    }
  }

  lemma KeepAt(rows: seq<Row>, without: set<Key>, i: nat)
    requires i < |rows|
    ensures Keep(rows[i..], without) == (if rows[i].key in without then [] else [rows[i]]) + Keep(rows[i + 1..], without)
  {
    assert rows[i..][1..] == rows[i + 1..];
  }

  lemma NothingKept(without: set<Key>)
    ensures Keep([], without) == []
  {
  }

  method KeepRows(rows: seq<Row>, without: set<Key>) returns (kept: seq<Row>)
    ensures kept == Keep(rows, without)
  {
    hide Keep;
    kept := [];
    assert rows[0..] == rows && kept + Keep(rows, without) == Keep(rows, without);
    for i := 0 to |rows|
      invariant Keep(rows, without) == kept + Keep(rows[i..], without)
    {
      KeepAt(rows, without, i);
      if rows[i].key !in without {
        Regroup(kept, [rows[i]], Keep(rows[i + 1..], without));
        kept := kept + [rows[i]];
      }
    }
    NothingKept(without);
    assert rows[|rows|..] == [] && kept + [] == kept;
  }

  function Shown(sort: seq<Row> -> seq<Row>, rows: seq<Row>, event: TableEvent): (r: (seq<Row>, Phase))
  {
    match event
    case Snapshot(snapshot) => (snapshot, Live)
    case Patch(removes, upserts) => (sort(Patched(rows, removes, upserts)), Live)
    case Closed(reason) => (rows, Ended(reason))
  }
}
