/** Server and client agree over a whole subscription. */
module TableLaws {
  import opened Wrappers
  import opened Bytes
  import opened TableSync

  // ---------- the ordered map ----------

  ghost predicate Ascending(table: seq<Row>) {
    forall i, j | 0 <= i < j < |table| :: LexLess(table[i].key, table[j].key)
  }

  lemma {:induction false} LexLessIsTransitive(a: Key, b: Key, c: Key)
    requires LexLess(a, b) && LexLess(b, c)
    ensures LexLess(a, c)
  {
    if a != [] && a[0] == b[0] == c[0] {
      LexLessIsTransitive(a[1..], b[1..], c[1..]);
    }
  }

  lemma {:induction false} LexLessIsTotal(a: Key, b: Key)
    ensures a == b || LexLess(a, b) || LexLess(b, a)
    ensures !LexLess(a, a) && !(LexLess(a, b) && LexLess(b, a))
  {
    if a != [] {
      LexLessIsTotal(a[1..], a[1..]);
      if b != [] && a[0] == b[0] {
        LexLessIsTotal(a[1..], b[1..]);
        assert a == [a[0]] + a[1..] && b == [b[0]] + b[1..];
      }
    }
  }

  lemma {:induction false} PutKeepsOrder(table: seq<Row>, row: Row)
    requires Ascending(table)
    ensures Ascending(Put(table, row))
    ensures forall r :: r in Put(table, row) <==> r == row || (r in table && r.key != row.key)
  {
    if table != [] {
      var rest := table[1..];
      LexLessIsTotal(row.key, table[0].key);
      forall r | r in rest ensures r.key != table[0].key && LexLess(table[0].key, r.key) {
        LexLessIsTotal(table[0].key, r.key);
      }
      if table[0].key == row.key {
      } else if LexLess(row.key, table[0].key) {
        forall r | r in rest ensures LexLess(row.key, r.key) && r.key != row.key {
          LexLessIsTransitive(row.key, table[0].key, r.key);
          LexLessIsTotal(row.key, r.key);
        }
      } else {
        PutKeepsOrder(rest, row);
        assert forall r | r in Put(rest, row) :: LexLess(table[0].key, r.key);
      }
    }
  }

  lemma {:induction false} CollectKeepsRows(rows: seq<Row>)
    requires Unique(rows)
    ensures Ascending(Collect(rows))
    ensures forall r :: r in Collect(rows) <==> r in rows
    decreases |rows|
  {
    if rows != [] {
      var front, last := rows[..|rows| - 1], rows[|rows| - 1];
      CollectKeepsRows(front);
      PutKeepsOrder(Collect(front), last);
      assert rows == front + [last];
      assert forall r | r in front :: r.key != last.key;
    }
  }

  lemma {:induction false} LookupIsMembership(table: seq<Row>, row: Row)
    requires Ascending(table)
    ensures Lookup(table, row.key) == Some(row) <==> row in table
  {
    if table != [] {
      LexLessIsTotal(table[0].key, table[0].key);
      LookupIsMembership(table[1..], row);
    }
  }

  // ---------- the patch ----------

  lemma {:induction false} RemovedKeys(previous: seq<Row>, next: seq<Row>)
    ensures forall key :: key in Removed(previous, next) <==> key in Keys(previous) && key !in Keys(next)
  {
    if previous != [] {
      RemovedKeys(previous[1..], next);
      assert Keys(previous) == Keys(previous[1..]) + {previous[0].key};
    }
  }

  lemma {:induction false} UpsertedRows(previous: seq<Row>, next: seq<Row>)
    requires Ascending(previous) && Ascending(next)
    ensures forall row :: row in Upserted(previous, next) <==> row in next && row !in previous
    ensures Ascending(Upserted(previous, next))
  {
    if next != [] {
      UpsertedRows(previous, next[1..]);
      LookupIsMembership(previous, next[0]);
      assert forall row | row in next[1..] :: LexLess(next[0].key, row.key);
    }
  }

  lemma AscendingIsUnique(rows: seq<Row>)
    requires Ascending(rows)
    ensures Unique(rows)
  {
    forall i, j | 0 <= i < j < |rows| ensures rows[i].key != rows[j].key {
      LexLessIsTotal(rows[i].key, rows[j].key);
    }
  }

  lemma UniqueRowsAreKeyed(rows: seq<Row>, a: Row, b: Row)
    requires Unique(rows) && a in rows && b in rows && a.key == b.key
    ensures a == b
  {
  }

  /** A patch removes exactly the keys that are gone, upserts exactly the rows that are new or changed, in key
      order and each once, and never names a key in both lists. */
  lemma PatchSays(previous: seq<Row>, next: seq<Row>)
    requires Unique(previous) && Unique(next)
    ensures
      var removes := Removed(Collect(previous), Collect(next));
      var upserts := Upserted(Collect(previous), Collect(next));
      && (forall key :: key in removes <==> key in Keys(previous) && key !in Keys(next))
      && (forall row :: row in upserts <==> row in next && row !in previous)
      && Unique(upserts)
      && (forall key | key in removes :: key !in Keys(upserts))
      && (removes == [] && upserts == [] <==> multiset(previous) == multiset(next))
  {
    var was, now := Collect(previous), Collect(next);
    CollectKeepsRows(previous);
    CollectKeepsRows(next);
    RemovedKeys(was, now);
    UpsertedRows(was, now);
    AscendingIsUnique(Upserted(was, now));
    assert Keys(was) == Keys(previous) && Keys(now) == Keys(next);
    NothingToSay(previous, next, Removed(was, now), Upserted(was, now));
  }

  lemma SameMembersSameRows(a: seq<Row>, b: seq<Row>)
    requires Unique(a) && Unique(b)
    requires forall row :: row in a <==> row in b
    ensures multiset(a) == multiset(b)
  {
    forall row ensures multiset(a)[row] == multiset(b)[row] {
      OnceEach(a, row);
      OnceEach(b, row);
    }
  }

  lemma {:induction false} OnceEach(rows: seq<Row>, row: Row)
    requires Unique(rows)
    ensures multiset(rows)[row] == if row in rows then 1 else 0
  {
    if rows != [] {
      assert rows == [rows[0]] + rows[1..];
      OnceEach(rows[1..], row);
    }
  }

  lemma SomeMember<T>(s: seq<T>)
    ensures s == [] || exists x :: x in s
  {
    if s != [] {
      assert s[0] in s;
    }
  }

  lemma NothingToSay(previous: seq<Row>, next: seq<Row>, removes: seq<Key>, upserts: seq<Row>)
    requires Unique(previous) && Unique(next)
    requires forall key :: key in removes <==> key in Keys(previous) && key !in Keys(next)
    requires forall row :: row in upserts <==> row in next && row !in previous
    ensures removes == [] && upserts == [] <==> multiset(previous) == multiset(next)
  {
    if removes == [] && upserts == [] {
      forall row | row in previous ensures row in next {
        assert row.key in Keys(previous) && row.key !in removes;
        var other :| other in next && other.key == row.key;
        assert other !in upserts;
        UniqueRowsAreKeyed(previous, row, other);
      }
      forall row | row in next ensures row in previous {
        assert row !in upserts;
      }
      SameMembersSameRows(previous, next);
    }
    if multiset(previous) == multiset(next) {
      assert forall row :: row in previous <==> row in multiset(previous);
      assert forall row :: row in next <==> row in multiset(next);
      assert Keys(previous) == Keys(next);
      SomeMember(removes);
      SomeMember(upserts);
    }
  }

  // ---------- the client ----------

  lemma {:induction false} KeepCounts(rows: seq<Row>, without: set<Key>, row: Row)
    ensures multiset(Keep(rows, without))[row] == if row.key in without then 0 else multiset(rows)[row]
  {
    if rows != [] {
      KeepCounts(rows[1..], without, row);
      assert rows == [rows[0]] + rows[1..];
    }
  }

  /** An ordered map keeps, of the rows under one key, the last. */
  lemma {:induction false} CollectKeepsKeys(rows: seq<Row>)
    ensures Ascending(Collect(rows))
    ensures forall r | r in Collect(rows) :: r in rows
    ensures Keys(Collect(rows)) == Keys(rows)
    decreases |rows|
  {
    if rows != [] {
      var front, last := rows[..|rows| - 1], rows[|rows| - 1];
      CollectKeepsKeys(front);
      PutKeepsOrder(Collect(front), last);
      assert rows == front + [last];
      forall key ensures key in Keys(Collect(rows)) <==> key in Keys(rows) {
        if key in Keys(front) && key != last.key {
          var r :| r in Collect(front) && r.key == key;
          assert r in Collect(rows);
        }
      }
    }
  }

  lemma LookupOfKey(table: seq<Row>, key: Key)
    ensures Lookup(table, key).Some? <==> key in Keys(table)
  {
  }

  lemma UpsertsOfKey(previous: seq<Row>, next: seq<Row>, key: Key)
    requires Ascending(previous) && Ascending(next)
    ensures key in Keys(Upserted(previous, next)) <==>
      Lookup(next, key).Some? && Lookup(previous, key) != Lookup(next, key)
  {
    hide Upserted, Lookup;
    UpsertedRows(previous, next);
    if Lookup(next, key).Some? {
      LookupIsMembership(previous, Lookup(next, key).value);
    }
    if key in Keys(Upserted(previous, next)) {
      var row :| row in Upserted(previous, next) && row.key == key;
      LookupIsMembership(next, row);
      LookupIsMembership(previous, row);
    }
  }

  /** How often a view shows a row after a patch: as before if the tables kept the same row under its key,
      otherwise exactly if the new table has it under its key. */
  lemma PatchedCounts(view: seq<Row>, previous: seq<Row>, next: seq<Row>, row: Row)
    requires Ascending(previous) && Ascending(next)
    ensures multiset(Patched(view, Removed(previous, next), Upserted(previous, next)))[row] ==
      if Lookup(previous, row.key) == Lookup(next, row.key) then multiset(view)[row]
      else if Lookup(next, row.key) == Some(row) then 1 else 0
  {
    hide Upserted, Removed, Lookup, Ascending, Unique;
    var removes, upserts := Removed(previous, next), Upserted(previous, next);
    var gone := set key | key in removes;
    KeepCounts(view, gone, row);
    KeepCounts(Keep(view, gone), Keys(upserts), row);
    RemovedKeys(previous, next);
    LookupOfKey(previous, row.key);
    LookupOfKey(next, row.key);
    UpsertsOfKey(previous, next, row.key);
    UpsertedRows(previous, next);
    LookupIsMembership(previous, row);
    LookupIsMembership(next, row);
    AscendingIsUnique(upserts);
    OnceEach(upserts, row);
  }

  // ---------- when a patch is enough ----------

  ghost predicate AtMostOne(rows: seq<Row>, key: Key) {
    forall i, j | 0 <= i < j < |rows| :: !(rows[i].key == rows[j].key == key)
  }

  ghost predicate SameUnder(a: seq<Row>, b: seq<Row>, key: Key) {
    forall row: Row | row.key == key :: multiset(a)[row] == multiset(b)[row]
  }

  /** Under every key, either the two listings end with the same row and hold the same rows, or the new one
      holds at most one.  Listings without repeated keys always meet this. */
  ghost predicate Followable(previous: seq<Row>, next: seq<Row>) {
    forall key: Key ::
      if Lookup(Collect(previous), key) == Lookup(Collect(next), key) then SameUnder(previous, next, key)
      else AtMostOne(next, key)
  }

  function PatchedBetween(view: seq<Row>, previous: seq<Row>, next: seq<Row>): (r: seq<Row>) {
    Patched(view, Removed(Collect(previous), Collect(next)), Upserted(Collect(previous), Collect(next)))
  }

  lemma LastRowIsListed(rows: seq<Row>, key: Key)
    ensures
      var last := Lookup(Collect(rows), key);
      && (last.Some? ==> last.value in rows && last.value.key == key)
      && (last.None? ==> forall row | row in rows :: row.key != key)
  {
    hide Collect, Lookup;
    CollectKeepsKeys(rows);
    LookupOfKey(Collect(rows), key);
    if Lookup(Collect(rows), key).None? {
      forall row | row in rows ensures row.key != key {
        assert row.key in Keys(rows);
      }
    }
  }

  lemma FewRowsCount(rows: seq<Row>, row: Row)
    requires AtMostOne(rows, row.key)
    ensures
      var last := Lookup(Collect(rows), row.key);
      multiset(rows)[row] == if last == Some(row) then 1 else 0
  {
    hide Collect, Lookup;
    LastRowIsListed(rows, row.key);
    if row in rows {
      var i :| 0 <= i < |rows| && rows[i] == row;
      assert rows == rows[..i] + [row] + rows[i + 1..];
      assert row !in rows[..i] && row !in rows[i + 1..];
      var last := Lookup(Collect(rows), row.key).value;
      var j :| 0 <= j < |rows| && rows[j] == last;
      assert rows[i].key == rows[j].key == row.key;
    }
  }

  lemma ManyRowsDiffer(rows: seq<Row>, view: seq<Row>, key: Key)
    requires !AtMostOne(rows, key)
    requires forall row: Row | row.key == key ::
      multiset(view)[row] == if Lookup(Collect(rows), key) == Some(row) then 1 else 0
    ensures multiset(view) != multiset(rows)
  {
    hide Collect, Lookup;
    var i, j :| 0 <= i < j < |rows| && rows[i].key == rows[j].key == key;
    if rows[i] == rows[j] {
      TwiceIsTwo(rows, i, j);
    } else {
      assert rows[i] in multiset(rows) && rows[j] in multiset(rows);
    }
  }

  /** Applied to a view of the old listing, the patch gives a view of the new one exactly if the new listing
      can be followed. */
  lemma PatchAgreesExactly(view: seq<Row>, previous: seq<Row>, next: seq<Row>)
    requires multiset(view) == multiset(previous)
    ensures multiset(PatchedBetween(view, previous, next)) == multiset(next) <==> Followable(previous, next)
  {
    hide Collect, Lookup, Patched, Removed, Upserted, AtMostOne, Ascending;
    var patched := PatchedBetween(view, previous, next);
    CollectKeepsKeys(previous);
    CollectKeepsKeys(next);
    forall row: Row
      ensures multiset(patched)[row] ==
        if Lookup(Collect(previous), row.key) == Lookup(Collect(next), row.key) then multiset(previous)[row]
        else if Lookup(Collect(next), row.key) == Some(row) then 1 else 0
    {
      PatchedCounts(view, Collect(previous), Collect(next), row);
    }
    hide PatchedBetween;
    if Followable(previous, next) {
      forall row ensures multiset(patched)[row] == multiset(next)[row] {
        if Lookup(Collect(previous), row.key) == Lookup(Collect(next), row.key) {
          assert SameUnder(previous, next, row.key);
        } else {
          FewRowsCount(next, row);
        }
      }
    } else {
      var key: Key :|
        if Lookup(Collect(previous), key) == Lookup(Collect(next), key) then !SameUnder(previous, next, key)
        else !AtMostOne(next, key);
      if Lookup(Collect(previous), key) != Lookup(Collect(next), key) {
        ManyRowsDiffer(next, patched, key);
      }
    }
  }

  lemma UniqueIsFollowable(previous: seq<Row>, next: seq<Row>)
    requires Unique(previous) && Unique(next)
    ensures Followable(previous, next)
  {
    hide Collect, Lookup;
    CollectKeepsRows(previous);
    CollectKeepsRows(next);
    forall key: Key, row: Row | row.key == key && Lookup(Collect(previous), key) == Lookup(Collect(next), key)
      ensures multiset(previous)[row] == multiset(next)[row]
    {
      LookupIsMembership(Collect(previous), row);
      LookupIsMembership(Collect(next), row);
      OnceEach(previous, row);
      OnceEach(next, row);
    }
  }

  /** Applying the patch between two listings to a view of the first gives a view of the second. */
  lemma PatchedIsNext(view: seq<Row>, previous: seq<Row>, next: seq<Row>)
    requires Unique(previous) && Unique(next) && multiset(view) == multiset(previous)
    ensures multiset(PatchedBetween(view, previous, next)) == multiset(next)
  {
    hide PatchedBetween, Followable;
    UniqueIsFollowable(previous, next);
    PatchAgreesExactly(view, previous, next);
  }

  // ---------- a whole subscription ----------

  datatype Sync = Sync(server: seq<Row>, open: bool, view: seq<Row>, phase: Phase)

  /** One turn of the server's loop, its event being received. */
  function Turned(sort: seq<Row> -> seq<Row>, s: Sync, poll: Poll): (next: Sync)
  {
    var (server, event) := Served(s.server, poll);
    match event
    case None => s.(server := server)
    case Some(e) =>
      var (view, phase) := Shown(sort, s.view, e);
      Sync(server, !e.Closed?, view, phase)
  }

  /** The state after a snapshot and a number of turns, every event being received in order. */
  function After(sort: seq<Row> -> seq<Row>, snapshot: seq<Row>, polls: seq<Poll>): (s: Sync)
    decreases |polls|
  {
    if polls == [] then
      var (view, phase) := Shown(sort, [], Snapshot(snapshot));
      Sync(snapshot, true, view, phase)
    else
      var s := After(sort, snapshot, polls[..|polls| - 1]);
      if s.open then Turned(sort, s, polls[|polls| - 1]) else s
  }

  predicate UniqueListings(polls: seq<Poll>) {
    forall i | 0 <= i < |polls| && polls[i].Listed? :: Unique(polls[i].rows)
  }

  /** The last listing before the first failure. */
  function Current(snapshot: seq<Row>, polls: seq<Poll>): (rows: seq<Row>)
    decreases |polls|
  {
    if polls == [] then snapshot
    else
      var last := polls[|polls| - 1];
      if last.Listed? && AllListed(polls) then last.rows else Current(snapshot, polls[..|polls| - 1])
  }

  predicate AllListed(polls: seq<Poll>) {
    forall i | 0 <= i < |polls| :: polls[i].Listed?
  }

  lemma AfterOneMore(sort: seq<Row> -> seq<Row>, snapshot: seq<Row>, polls: seq<Poll>)
    requires polls != []
    ensures
      var s, last := After(sort, snapshot, polls[..|polls| - 1]), polls[|polls| - 1];
      After(sort, snapshot, polls) == if s.open then Turned(sort, s, last) else s
  {
    hide Served, Shown;
  }

  /** The client is told of the end exactly when a listing or the watcher failed. */
  lemma {:induction false} OpenWhileListed(sort: seq<Row> -> seq<Row>, snapshot: seq<Row>, polls: seq<Poll>)
    ensures
      var s := After(sort, snapshot, polls);
      s.open == s.phase.Live? == AllListed(polls)
    decreases |polls|
  {
    hide Shown, PatchBetween;
    if polls != [] {
      var front, last := polls[..|polls| - 1], polls[|polls| - 1];
      OpenWhileListed(sort, snapshot, front);
      AfterOneMore(sort, snapshot, polls);
      assert AllListed(polls) <==> AllListed(front) && last.Listed?;
      PhaseOfTurn(sort, After(sort, snapshot, front), last);
      hide Turned, After;
    } else {
      EmptyRun(sort, snapshot);
    }
  }

  lemma PhaseOfTurn(sort: seq<Row> -> seq<Row>, s: Sync, poll: Poll)
    requires s.open == s.phase.Live?
    ensures
      var next := Turned(sort, s, poll);
      && (s.open ==> next.open == next.phase.Live? == poll.Listed?)
      && (!poll.Listed? ==> next.view == s.view && next.server == s.server)
  {
    hide Collect, Removed, Upserted, Patched;
  }

  /** Why the first failing poll failed: a listing gives its own reason, the watcher none. */
  function FirstReason(polls: seq<Poll>): (reason: Option<CloseReason>)
    decreases |polls|
  {
    if polls == [] then None
    else
      var earlier := FirstReason(polls[..|polls| - 1]);
      if earlier.Some? then earlier
      else match polls[|polls| - 1]
        case Listed(_) => None
        case ListingFailed(reason) => Some(reason)
        case WatchFailed => Some(Failed)
  }

  lemma TurnTellsReason(sort: seq<Row> -> seq<Row>, s: Sync, poll: Poll)
    requires s.open && s.phase == Live
    ensures
      var next := Turned(sort, s, poll);
      match poll
      case Listed(_) => next.open && next.phase == Live
      case ListingFailed(reason) => !next.open && next.phase == Ended(reason) && next.view == s.view
      case WatchFailed => !next.open && next.phase == Ended(Failed) && next.view == s.view
  {
    hide Collect, Removed, Upserted, Patched;
  }

  /** The client is told the reason of the first failure, and that is the last it is told. */
  lemma {:induction false} EndTellsReason(sort: seq<Row> -> seq<Row>, snapshot: seq<Row>, polls: seq<Poll>)
    ensures
      var s := After(sort, snapshot, polls);
      && s.open == FirstReason(polls).None?
      && s.phase == if FirstReason(polls).Some? then Ended(FirstReason(polls).value) else Live
    decreases |polls|
  {
    hide Turned, Shown;
    if polls != [] {
      var front := polls[..|polls| - 1];
      EndTellsReason(sort, snapshot, front);
      AfterOneMore(sort, snapshot, polls);
      if FirstReason(front).None? {
        TurnTellsReason(sort, After(sort, snapshot, front), polls[|polls| - 1]);
      }
      hide After;
    } else {
      EmptyRun(sort, snapshot);
    }
  }

  /** At every moment the client shows the rows of the last listing, up to order. */
  ghost predicate ViewsAgree(sort: seq<Row> -> seq<Row>, snapshot: seq<Row>, polls: seq<Poll>) {
    forall k | 0 <= k <= |polls| :: ViewAgrees(sort, snapshot, polls[..k])
  }

  ghost predicate ViewAgrees(sort: seq<Row> -> seq<Row>, snapshot: seq<Row>, polls: seq<Poll>) {
    multiset(After(sort, snapshot, polls).view) == multiset(Current(snapshot, polls))
  }

  /** Every listing can be followed from the rows that the server then remembers. */
  ghost predicate ListingsFollow(sort: seq<Row> -> seq<Row>, snapshot: seq<Row>, polls: seq<Poll>) {
    forall k | 0 <= k < |polls| && AllListed(polls[..k + 1]) ::
      Followable(After(sort, snapshot, polls[..k]).server, polls[k].rows)
  }

  lemma ViewsAgreePrefix(sort: seq<Row> -> seq<Row>, snapshot: seq<Row>, polls: seq<Poll>)
    requires polls != []
    ensures ViewsAgree(sort, snapshot, polls) <==>
      ViewsAgree(sort, snapshot, polls[..|polls| - 1]) && ViewAgrees(sort, snapshot, polls)
  {
    hide ViewAgrees;
    var front := polls[..|polls| - 1];
    assert polls[..|polls|] == polls;
    assert forall k | 0 <= k <= |front| :: polls[..k] == front[..k];
  }

  lemma ListingsFollowPrefix(sort: seq<Row> -> seq<Row>, snapshot: seq<Row>, polls: seq<Poll>)
    requires polls != []
    ensures
      var front, last := polls[..|polls| - 1], polls[|polls| - 1];
      ListingsFollow(sort, snapshot, polls) <==>
        ListingsFollow(sort, snapshot, front)
        && (AllListed(polls) ==> Followable(After(sort, snapshot, front).server, last.rows))
  {
    hide After, Followable, AllListed;
    var front, n := polls[..|polls| - 1], |polls| - 1;
    assert polls[..n + 1] == polls && polls[..n] == front;
    forall k | 0 <= k <= n ensures polls[..k] == front[..k] { }
    forall k | 0 <= k < n ensures polls[k] == front[k] { }
    if AllListed(polls) {
      assert polls[n].Listed? by {
        ListedAt(polls, n);
      }
    }
  }

  lemma ListedAt(polls: seq<Poll>, k: nat)
    requires AllListed(polls) && k < |polls|
    ensures polls[k].Listed?
  {
  }

  /** While the client agrees, the rows the server remembers are those of the last listing. */
  lemma {:induction false} AgreeingServer(sort: seq<Row> -> seq<Row>, snapshot: seq<Row>, polls: seq<Poll>)
    requires Rearranges(sort) && ViewsAgree(sort, snapshot, polls)
    ensures
      var s := After(sort, snapshot, polls);
      multiset(s.view) == multiset(s.server) == multiset(Current(snapshot, polls))
    decreases |polls|
  {
    hide Current, Turned, After, AllListed, ViewsAgree;
    if polls != [] {
      var front, last := polls[..|polls| - 1], polls[|polls| - 1];
      ViewsAgreePrefix(sort, snapshot, polls);
      AgreeingServer(sort, snapshot, front);
      AfterOneMore(sort, snapshot, polls);
      LastTurn(sort, snapshot, polls);
    } else {
      EmptyRun(sort, snapshot);
    }
  }

  /** The last turn of a run that agreed before it. */
  lemma LastTurn(sort: seq<Row> -> seq<Row>, snapshot: seq<Row>, polls: seq<Poll>)
    requires Rearranges(sort) && polls != []
    requires
      var s := After(sort, snapshot, polls[..|polls| - 1]);
      multiset(s.view) == multiset(s.server) == multiset(Current(snapshot, polls[..|polls| - 1]))
    ensures
      var before, s := After(sort, snapshot, polls[..|polls| - 1]), After(sort, snapshot, polls);
      var agrees := multiset(s.view) == multiset(Current(snapshot, polls));
      && (agrees <==> (AllListed(polls) ==> Followable(before.server, polls[|polls| - 1].rows)))
      && (agrees ==> multiset(s.view) == multiset(s.server))
  {
    hide Current, Turned, After, Followable, AllListed;
    var front, last := polls[..|polls| - 1], polls[|polls| - 1];
    ListedSplits(polls);
    OpenWhileListed(sort, snapshot, front);
    AfterOneMore(sort, snapshot, polls);
    CurrentStep(snapshot, polls);
    if AllListed(polls) {
      TurnAgreesExactly(sort, After(sort, snapshot, front), last.rows);
      assert last == Listed(last.rows);
    } else {
      PhaseOfTurn(sort, After(sort, snapshot, front), last);
    }
  }

  lemma ListedSplits(polls: seq<Poll>)
    requires polls != []
    ensures AllListed(polls) <==> AllListed(polls[..|polls| - 1]) && polls[|polls| - 1].Listed?
  {
  }

  /** Over a whole subscription the client agrees with the server at every moment exactly if every listing can
      be followed. */
  lemma {:induction false} SubscriptionAgreesExactly(sort: seq<Row> -> seq<Row>, snapshot: seq<Row>, polls: seq<Poll>)
    requires Rearranges(sort)
    ensures ViewsAgree(sort, snapshot, polls) <==> ListingsFollow(sort, snapshot, polls)
    decreases |polls|
  {
    if polls != [] {
      var front := polls[..|polls| - 1];
      SubscriptionAgreesExactly(sort, snapshot, front);
      ViewsAgreePrefix(sort, snapshot, polls);
      ListingsFollowPrefix(sort, snapshot, polls);
      if ViewsAgree(sort, snapshot, front) {
        AgreeingServer(sort, snapshot, front);
        LastTurn(sort, snapshot, polls);
      }
      hide ViewsAgree, ListingsFollow, AllListed;
    } else {
      EmptyRun(sort, snapshot);
      assert polls[..0] == [];
    }
  }

  lemma {:induction false} ServerIsUnique(sort: seq<Row> -> seq<Row>, snapshot: seq<Row>, polls: seq<Poll>)
    requires Unique(snapshot) && UniqueListings(polls)
    ensures Unique(After(sort, snapshot, polls).server)
    decreases |polls|
  {
    hide Unique, PatchBetween, Shown;
    if polls != [] {
      ServerIsUnique(sort, snapshot, polls[..|polls| - 1]);
    }
  }

  /** After every turn of every subscription without repeated keys the client shows exactly the rows of the
      server's last listing, up to order, and it is told of the end exactly when a listing or the watcher
      failed. */
  lemma ViewFollowsTable(sort: seq<Row> -> seq<Row>, snapshot: seq<Row>, polls: seq<Poll>)
    requires Rearranges(sort) && Unique(snapshot) && UniqueListings(polls)
    ensures
      var s := After(sort, snapshot, polls);
      && multiset(s.view) == multiset(s.server) == multiset(Current(snapshot, polls))
      && Unique(s.server)
      && s.open == s.phase.Live? == AllListed(polls)
  {
    hide After, Current, Unique, Followable;
    forall k | 0 <= k < |polls| && AllListed(polls[..k + 1])
      ensures Followable(After(sort, snapshot, polls[..k]).server, polls[k].rows)
    {
      assert UniqueListings(polls[..k]);
      ServerIsUnique(sort, snapshot, polls[..k]);
      ListedAt(polls[..k + 1], k);
      UniqueIsFollowable(After(sort, snapshot, polls[..k]).server, polls[k].rows);
    }
    SubscriptionAgreesExactly(sort, snapshot, polls);
    AgreeingServer(sort, snapshot, polls);
    ServerIsUnique(sort, snapshot, polls);
    OpenWhileListed(sort, snapshot, polls);
  }

  lemma EmptyRun(sort: seq<Row> -> seq<Row>, snapshot: seq<Row>)
    ensures After(sort, snapshot, []) == Sync(snapshot, true, snapshot, Live)
    ensures Current(snapshot, []) == snapshot
  {
  }

  lemma CurrentStep(snapshot: seq<Row>, polls: seq<Poll>)
    requires polls != []
    ensures Current(snapshot, polls) ==
      if AllListed(polls) then polls[|polls| - 1].rows else Current(snapshot, polls[..|polls| - 1])
  {
  }

  /** No patch leaves the view alone; nothing to remove or upsert would as well. */
  lemma NoPatchNoChange(view: seq<Row>, previous: seq<Row>, next: seq<Row>)
    requires PatchBetween(previous, next).None?
    ensures multiset(PatchedBetween(view, previous, next)) == multiset(view)
  {
    hide Collect, Removed, Upserted;
    var gone := (set key | key in Removed(Collect(previous), Collect(next)));
    forall row ensures multiset(PatchedBetween(view, previous, next))[row] == multiset(view)[row] {
      KeepCounts(view, gone, row);
      KeepCounts(Keep(view, gone), Keys([]), row);
    }
  }

  /** One turn that finds a listing: server and client keep the same rows exactly if it can be followed. */
  lemma TurnAgreesExactly(sort: seq<Row> -> seq<Row>, s: Sync, rows: seq<Row>)
    requires Rearranges(sort) && multiset(s.view) == multiset(s.server) && s.open && s.phase.Live?
    ensures
      var next := Turned(sort, s, Listed(rows));
      && (multiset(next.view) == multiset(rows) <==> Followable(s.server, rows))
      && next.server == (if PatchBetween(s.server, rows).Some? then rows else s.server)
      && (multiset(next.view) == multiset(rows) ==> multiset(next.server) == multiset(rows))
      && next.open && next.phase.Live?
  {
    hide Followable, Collect, Removed, Upserted, Patched;
    PatchAgreesExactly(s.view, s.server, rows);
    if PatchBetween(s.server, rows).None? {
      NoPatchNoChange(s.view, s.server, rows);
    }
  }

  /** The other table view filters once instead of twice and comes to the same rows. */
  lemma {:induction false} OnePassKeepsTheSame(rows: seq<Row>, removed: set<Key>, upserted: set<Key>)
    ensures Keep(rows, removed + upserted) == Keep(Keep(rows, removed), upserted)
  {
    if rows != [] {
      OnePassKeepsTheSame(rows[1..], removed, upserted);
      var rest := Keep(rows[1..], removed);
      if rows[0].key !in removed {
        assert ([rows[0]] + rest)[1..] == rest;
      } else {
        assert [] + rest == rest;
      }
    }
  }

  // ---------- repeated keys ----------

  /** The name that lossy conversion makes of every name that is a single unpaired surrogate. */
  const REPLACEMENT_NAME: Key := [0xEF, 0xBF, 0xBD]

  /** Two rows with one key and then, in every later listing, only the second: the server sees no difference,
      so the client keeps showing both, however often the server looks. */
  lemma {:induction false} StaleForGood(sort: seq<Row> -> seq<Row>, a: Row, b: Row, polls: seq<Poll>)
    requires a.key == b.key && forall k | 0 <= k < |polls| :: polls[k] == Listed([b])
    ensures After(sort, [a, b], polls) == Sync([a, b], true, [a, b], Live)
    ensures polls != [] ==> Current([a, b], polls) == [b]
    decreases |polls|
  {
    hide Turned;
    if polls != [] {
      StaleForGood(sort, a, b, polls[..|polls| - 1]);
      AfterOneMore(sort, [a, b], polls);
      NoPatchForRepeatedKey(a, b);
      SilentTurn(sort, Sync([a, b], true, [a, b], Live), [b]);
    }
  }

  lemma SilentTurn(sort: seq<Row> -> seq<Row>, s: Sync, rows: seq<Row>)
    requires PatchBetween(s.server, rows).None?
    ensures Turned(sort, s, Listed(rows)) == s
  {
    hide PatchBetween;
  }

  lemma NoPatchForRepeatedKey(a: Row, b: Row)
    requires a.key == b.key
    ensures PatchBetween([a, b], [b]) == None
  {
    CollectOne(a);
    CollectOne(b);
    assert [a, b][..1] == [a];
    assert Collect([a, b]) == Put([a], b) == [b];
    RowAgainstItself(b);
    hide Collect, Removed, Upserted;
  }

  lemma CollectOne(row: Row)
    ensures Collect([row]) == [row]
  {
    assert [row][..0] == [];
    assert Collect([]) == [] && Put([], row) == [row];
  }

  lemma RowAgainstItself(row: Row)
    ensures Removed([row], [row]) == [] && Upserted([row], [row]) == []
  {
    assert Lookup([row], row.key) == Some(row);
    assert [row][1..] == [];
    NothingRemoved([row]);
    NothingUpserted([row]);
  }

  /** Two files whose names are different single unpaired surrogates, one of which is deleted: the client shows
      it until the subscription ends. */
  lemma DuplicateKeysDiverge(sort: seq<Row> -> seq<Row>, polls: seq<Poll>)
    requires forall k | 0 <= k < |polls| :: polls[k] == Listed([Row(REPLACEMENT_NAME, [2])])
    ensures
      var a, b := Row(REPLACEMENT_NAME, [1]), Row(REPLACEMENT_NAME, [2]);
      var s := After(sort, [a, b], polls);
      s.open && s.view == [a, b] && (polls != [] ==> Current([a, b], polls) == [b])
  {
    StaleForGood(sort, Row(REPLACEMENT_NAME, [1]), Row(REPLACEMENT_NAME, [2]), polls);
  }
}
