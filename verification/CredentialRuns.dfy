/** Pairings and renewals that overlap.  Each loads the credentials file and later stores its update of what it
    loaded; nothing keeps another operation from storing in between. */
module CredentialRuns {
  import opened Wrappers
  import opened Bytes
  import opened Pairing
  import opened Credentials

  datatype Step = Load(task: nat) | Store(task: nat) | Show(task: nat)

  /** The file, the list that decides who is let in, and the lists that the operations hold. */
  datatype Files<T> = Files(stored: seq<T>, shown: seq<T>, held: map<nat, seq<T>>) {
    function Held(task: nat): (r: seq<T>) {
      if task in held then held[task] else stored
    }
  }

  function Advance<T>(update: (nat, seq<T>) -> seq<T>, s: Files<T>, step: Step): (next: Files<T>) {
    match step
    case Load(t) => s.(held := s.held[t := s.stored])
    case Store(t) =>
      var updated := update(t, s.Held(t));
      s.(stored := updated, held := s.held[t := updated])
    case Show(t) => s.(shown := s.Held(t))
  }

  function After<T>(update: (nat, seq<T>) -> seq<T>, initial: seq<T>, steps: seq<Step>): (s: Files<T>)
    decreases |steps|
  {
    if steps == [] then Files(initial, initial, map[])
    else Advance(update, After(update, initial, Front(steps)), Last(steps))
  }

  /** Each operation loads once, stores at most once, and shows only what it has loaded. */
  ghost predicate Enabled(before: seq<Step>, step: Step) {
    match step
    case Load(t) => Load(t) !in before && Store(t) !in before
    case Store(t) => Load(t) in before && Store(t) !in before
    case Show(t) => Load(t) in before
  }

  ghost predicate Run(steps: seq<Step>)
    decreases |steps|
  {
    steps != [] ==> Run(Front(steps)) && Enabled(Front(steps), Last(steps))
  }

  // ---------- which updates are in a list ----------

  function Append(task: nat, tasks: seq<nat>): (r: seq<nat>) {
    tasks + [task]
  }

  /** The same machine on the names of the operations: which updates each list contains, in which order. */
  function Lineage(steps: seq<Step>): (s: Files<nat>) {
    After(Append, [], steps)
  }

  /** The updates of the operations, one after the other, each of the whole result before it. */
  function Folded<T>(update: (nat, seq<T>) -> seq<T>, initial: seq<T>, tasks: seq<nat>): (r: seq<T>)
    decreases |tasks|
  {
    if tasks == [] then initial else update(Last(tasks), Folded(update, initial, Front(tasks)))
  }

  lemma FoldedAppend<T>(update: (nat, seq<T>) -> seq<T>, initial: seq<T>, tasks: seq<nat>, task: nat)
    ensures Folded(update, initial, Append(task, tasks)) == update(task, Folded(update, initial, tasks))
  {
    assert Front(Append(task, tasks)) == tasks;
  }

  /** Every list is what the operations in its lineage make of the initial one. */
  lemma {:induction false} ListsAreFolded<T>(update: (nat, seq<T>) -> seq<T>, initial: seq<T>, steps: seq<Step>)
    ensures
      var s, l := After(update, initial, steps), Lineage(steps);
      && s.stored == Folded(update, initial, l.stored)
      && s.shown == Folded(update, initial, l.shown)
      && s.held.Keys == l.held.Keys
      && forall t | t in l.held :: s.held[t] == Folded(update, initial, l.held[t])
    decreases |steps|
  {
    hide Folded;
    if steps != [] {
      ListsAreFolded(update, initial, Front(steps));
      if Last(steps).Store? {
        var t := Last(steps).task;
        FoldedAppend(update, initial, Lineage(Front(steps)).Held(t), t);
      }
    } else {
      NothingFolded(update, initial);
    }
  }

  lemma NothingFolded<T>(update: (nat, seq<T>) -> seq<T>, initial: seq<T>)
    ensures Folded(update, initial, []) == initial
  {
  }

  // ---------- when no update is lost ----------

  /** The operations that stored, in order. */
  function Stores(steps: seq<Step>): (tasks: seq<nat>)
    decreases |steps|
  {
    if steps == [] then []
    else
      var last := Last(steps);
      Stores(Front(steps)) + if last.Store? then [last.task] else []
  }

  ghost predicate Quiet(steps: seq<Step>, from: nat) {
    forall j | from <= j < |steps| :: !steps[j].Store?
  }

  /** The end of the last step in which the operation loaded or stored. */
  function Origin(steps: seq<Step>, task: nat): (n: nat)
    ensures n <= |steps|
    ensures n > 0 ==> steps[n - 1] in {Load(task), Store(task)}
    ensures Load(task) in steps ==> n > 0
    decreases |steps|
  {
    if steps == [] then 0
    else if Last(steps) in {Load(task), Store(task)} then |steps|
    else Origin(Front(steps), task)
  }

  /** Some operation stores although another has stored since it loaded. */
  ghost predicate Overlaps(steps: seq<Step>)
    decreases |steps|
  {
    steps != [] &&
    (Overlaps(Front(steps)) || (Last(steps).Store? && !Quiet(Front(steps), Origin(Front(steps), Last(steps).task))))
  }

  lemma {:induction false} HeldIsThePast(steps: seq<Step>, task: nat)
    requires Load(task) in steps
    ensures task in Lineage(steps).held
    ensures Lineage(steps).held[task] == Lineage(steps[..Origin(steps, task)]).stored
    decreases |steps|
  {
    if Last(steps) in {Load(task), Store(task)} {
      assert steps[..|steps|] == steps;
    } else {
      assert Load(task) in Front(steps);
      HeldIsThePast(Front(steps), task);
      assert steps[..Origin(steps, task)] == Front(steps)[..Origin(steps, task)];
    }
  }

  lemma {:induction false} StoresGrow(steps: seq<Step>, n: nat)
    requires n <= |steps|
    ensures |Stores(steps[..n])| <= |Stores(steps)|
    ensures Quiet(steps, n) ==> Stores(steps[..n]) == Stores(steps)
    ensures !Quiet(steps, n) ==> |Stores(steps[..n])| < |Stores(steps)|
    decreases |steps|
  {
    if n == |steps| {
      assert steps[..n] == steps;
    } else {
      StoresGrow(Front(steps), n);
      assert Front(steps)[..n] == steps[..n];
      assert Quiet(steps, n) <==> Quiet(Front(steps), n) && !Last(steps).Store?;
    }
  }

  /** Steps that store nothing add no overlap. */
  lemma {:induction false} QuietAddsNoOverlap(steps: seq<Step>, n: nat)
    requires n <= |steps|
    ensures Overlaps(steps[..n]) ==> Overlaps(steps)
    ensures Quiet(steps, n) ==> Overlaps(steps[..n]) == Overlaps(steps)
    decreases |steps|
  {
    if n == |steps| {
      assert steps[..n] == steps;
    } else {
      QuietAddsNoOverlap(Front(steps), n);
      assert Front(steps)[..n] == steps[..n];
      assert Quiet(steps, n) <==> Quiet(Front(steps), n) && !Last(steps).Store?;
    }
  }

  /** The file contains every stored update, in order, exactly if no operation stores between the loading and
      the storing of another; otherwise it contains fewer. */
  lemma {:induction false} FileKeepsAllExactly(steps: seq<Step>)
    requires Run(steps)
    ensures if Overlaps(steps) then |Lineage(steps).stored| < |Stores(steps)| else Lineage(steps).stored == Stores(steps)
    decreases |steps|
  {
    if steps != [] {
      var front := Front(steps);
      FileKeepsAllExactly(front);
      if Last(steps).Store? {
        var t := Last(steps).task;
        var n := Origin(front, t);
        HeldIsThePast(front, t);
        RunPrefix(front, n);
        FileKeepsAllExactly(front[..n]);
        StoresGrow(front, n);
        QuietAddsNoOverlap(front, n);
      }
    }
  }

  lemma RunPrefix(steps: seq<Step>, n: nat)
    requires Run(steps) && n <= |steps|
    ensures Run(steps[..n])
    decreases |steps|
  {
    if n == |steps| {
      assert steps[..n] == steps;
    } else {
      RunPrefix(Front(steps), n);
      assert Front(steps)[..n] == steps[..n];
    }
  }

  /** The end of the step that loaded or stored what is shown. */
  function ShownOrigin(steps: seq<Step>): (n: nat)
    ensures n <= |steps|
    decreases |steps|
  {
    if steps == [] then 0
    else if Last(steps).Show? then Origin(Front(steps), Last(steps).task)
    else ShownOrigin(Front(steps))
  }

  lemma {:induction false} ShownIsThePast(steps: seq<Step>)
    requires Run(steps)
    ensures Lineage(steps).shown == Lineage(steps[..ShownOrigin(steps)]).stored
    decreases |steps|
  {
    if steps != [] {
      var front := Front(steps);
      ShownIsThePast(front);
      if Last(steps).Show? {
        HeldIsThePast(front, Last(steps).task);
      }
      assert steps[..ShownOrigin(steps)] == front[..ShownOrigin(steps)];
    }
  }

  /** The list that decides who is let in contains every stored update exactly if no two operations overlapped
      and nothing was stored since it was loaded or stored; otherwise it contains fewer. */
  lemma ShownKeepsAllExactly(steps: seq<Step>)
    requires Run(steps)
    ensures
      if Overlaps(steps) || !Quiet(steps, ShownOrigin(steps)) then |Lineage(steps).shown| < |Stores(steps)|
      else Lineage(steps).shown == Stores(steps)
  {
    var n := ShownOrigin(steps);
    ShownIsThePast(steps);
    RunPrefix(steps, n);
    FileKeepsAllExactly(steps[..n]);
    StoresGrow(steps, n);
    QuietAddsNoOverlap(steps, n);
  }

  // ---------- who is let in ----------

  /** The client is known by this secret, until its record expires. */
  ghost predicate Knows(hash: seq<byte> -> Digest, clients: seq<Credential>, client: seq<byte>, secret: seq<byte>) {
    exists record :: record in clients && record.client == client && record.digest == hash(secret)
  }

  lemma KnownIsAdmitted(hash: seq<byte> -> Digest, clients: seq<Credential>, client: seq<byte>, secret: seq<byte>)
    ensures Knows(hash, clients, client, secret) <==> exists now :: Admits(hash, clients, client, secret, now)
  {
    if Knows(hash, clients, client, secret) {
      var record :| record in clients && record.client == client && record.digest == hash(secret);
      AdmitsByRecord(hash, clients, client, secret, record.expires - 1);
    }
    if now :| Admits(hash, clients, client, secret, now) {
      AdmitsByRecord(hash, clients, client, secret, now);
    }
  }

  ghost predicate Has(clients: seq<Credential>, client: seq<byte>) {
    exists record :: record in clients && record.client == client
  }

  /** The clients whose records an operation may replace. */
  function Names(u: Update): (names: set<seq<byte>>) {
    match u
    case Pair(challenge, freshId, _, _) =>
      {freshId} + if challenge.client.Some? then {challenge.client.value} else {}
    case Extend(_, _) => {}
  }

  /** The client that a pairing pairs. */
  function Paired(u: Update, clients: seq<Credential>): (client: seq<byte>)
    requires u.Pair?
    ensures client in Names(u)
  {
    var known := u.challenge.client;
    if known.Some? && Find(clients, known.value) < |clients| then known.value else u.freshId
  }

  lemma FoundIsHad(clients: seq<Credential>, client: seq<byte>)
    ensures Find(clients, client) < |clients| <==> Has(clients, client)
  {
    var i := Find(clients, client);
    if i < |clients| {
      assert clients[i] in clients;
    }
    if record :| record in clients && record.client == client {
      var j :| 0 <= j < |clients| && clients[j] == record;
    }
  }

  /** An operation leaves the records of the clients it does not name as known as they were. */
  lemma OthersAreKept(hash: seq<byte> -> Digest, u: Update, clients: seq<Credential>, client: seq<byte>, secret: seq<byte>)
    requires client !in Names(u)
    ensures Has(Updated(hash, u, clients), client) <==> Has(clients, client)
    ensures Knows(hash, Updated(hash, u, clients), client, secret) <==> Knows(hash, clients, client, secret)
  {
    match u
    case Pair(challenge, freshId, drawn, now) =>
      var issued := Issued(hash, clients, challenge, freshId, drawn, now);
      WithoutKeepsTheOthers(clients, issued.client);
      assert forall r :: r in Updated(hash, u, clients) <==> r in Without(clients, issued.client) || r == issued;
    case Extend(renewed, now) =>
      RenewedKnows(hash, clients, renewed, now, client, secret);
  }

  lemma RenewedKnows(hash: seq<byte> -> Digest, clients: seq<Credential>, renewed: seq<byte>, now: int,
                     client: seq<byte>, secret: seq<byte>)
    ensures Has(Renewed(clients, renewed, now), client) <==> Has(clients, client)
    ensures Knows(hash, Renewed(clients, renewed, now), client, secret) <==> Knows(hash, clients, client, secret)
  {
    var after := Renewed(clients, renewed, now);
    forall j | 0 <= j < |clients|
      ensures after[j] in after && clients[j] in clients
      ensures after[j].client == clients[j].client && after[j].digest == clients[j].digest
    {
    }
  }

  lemma PairedIsKnown(hash: seq<byte> -> Digest, u: Update, clients: seq<Credential>, client: seq<byte>)
    requires u.Pair?
    ensures Knows(hash, Updated(hash, u, clients), Paired(u, clients), u.secret)
    ensures Has(Updated(hash, u, clients), client) <==> Has(clients, client) || client == Paired(u, clients)
  {
    var issued := Issued(hash, clients, u.challenge, u.freshId, u.secret, u.now);
    WithoutKeepsTheOthers(clients, issued.client);
    assert forall r :: r in Updated(hash, u, clients) <==> r in Without(clients, issued.client) || r == issued;
  }

  function UpdateOf(hash: seq<byte> -> Digest, updates: nat -> Update): (f: (nat, seq<Credential>) -> seq<Credential>) {
    (task: nat, clients) => Updated(hash, updates(task), clients)
  }

  /** The pairing of this task is the only one of its client, and the client did not have the secret before. */
  ghost predicate Alone(hash: seq<byte> -> Digest, updates: nat -> Update, initial: seq<Credential>, task: nat) {
    && updates(task).Pair?
    && (forall other: nat | other != task :: Names(updates(other)) !! Names(updates(task)))
    && !Knows(hash, initial, Paired(updates(task), initial), updates(task).secret)
  }

  /** What the operations of a lineage make of the list: the client is known by its new secret exactly if its
      pairing is one of them. */
  lemma {:induction false} KnownIfInLineage(hash: seq<byte> -> Digest, updates: nat -> Update, initial: seq<Credential>,
                                            tasks: seq<nat>, task: nat)
    requires Alone(hash, updates, initial, task)
    ensures
      var u, clients := updates(task), Folded(UpdateOf(hash, updates), initial, tasks);
      && Paired(u, clients) == Paired(u, initial)
      && (Knows(hash, clients, Paired(u, initial), u.secret) <==> task in tasks)
    decreases |tasks|
  {
    hide Updated, Knows, Has, Find;
    if tasks != [] {
      KnownIfInLineage(hash, updates, initial, Front(tasks), task);
      var u, client := updates(task), Paired(updates(task), initial);
      var before := Folded(UpdateOf(hash, updates), initial, Front(tasks));
      var known := u.challenge.client;
      var clients := Updated(hash, updates(Last(tasks)), before);
      if known.Some? {
        FoundIsHad(before, known.value);
        FoundIsHad(clients, known.value);
      }
      if Last(tasks) == task {
        PairedIsKnown(hash, u, before, if known.Some? then known.value else client);
      } else {
        OthersAreKept(hash, updates(Last(tasks)), before, client, u.secret);
        if known.Some? {
          OthersAreKept(hash, updates(Last(tasks)), before, known.value, u.secret);
        }
      }
      assert tasks == Front(tasks) + [Last(tasks)];
    }
  }

  /** In every run of overlapping operations a client can log in with the secret it was given exactly if the
      update of its pairing is in the shown list. */
  lemma PairingCountsExactly(hash: seq<byte> -> Digest, updates: nat -> Update, initial: seq<Credential>,
                             steps: seq<Step>, task: nat)
    requires Alone(hash, updates, initial, task)
    ensures
      var shown := After(UpdateOf(hash, updates), initial, steps).shown;
      Counts(hash, updates, initial, shown, task) <==> task in Lineage(steps).shown
  {
    ListsAreFolded(UpdateOf(hash, updates), initial, steps);
    KnownIfInLineage(hash, updates, initial, Lineage(steps).shown, task);
  }

  // ---------- when every pairing counts ----------

  lemma {:induction false} StoredOnce(steps: seq<Step>)
    requires Run(steps)
    ensures forall t :: t in Stores(steps) <==> Store(t) in steps
    ensures forall i, j | 0 <= i < j < |Stores(steps)| :: Stores(steps)[i] != Stores(steps)[j]
    decreases |steps|
  {
    if steps != [] {
      StoredOnce(Front(steps));
      assert steps == Front(steps) + [Last(steps)];
    }
  }

  lemma {:induction false} DistinctFit(a: seq<nat>, b: seq<nat>)
    requires forall i, j | 0 <= i < j < |a| :: a[i] != a[j]
    requires forall x | x in a :: x in b
    ensures |a| <= |b|
  {
    if a != [] {
      assert Last(a) in a;
      var k :| 0 <= k < |b| && b[k] == Last(a);
      var rest := b[..k] + b[k + 1..];
      forall x | x in Front(a) ensures x in rest {
        assert x in a;
        var j :| 0 <= j < |b| && b[j] == x;
        assert x == rest[if j < k then j else j - 1];
      }
      DistinctFit(Front(a), rest);
    }
  }

  /** The client that the operation paired can log in with the secret it was given. */
  ghost predicate Counts(hash: seq<byte> -> Digest, updates: nat -> Update, initial: seq<Credential>,
                         clients: seq<Credential>, task: nat)
  {
    updates(task).Pair? && Knows(hash, clients, Paired(updates(task), initial), updates(task).secret)
  }

  /** If all operations are pairings of different clients, each of them can log in with its new secret after
      the run exactly if no two operations overlapped and the newest list is the one shown. */
  lemma EveryPairingCountsExactly(hash: seq<byte> -> Digest, updates: nat -> Update, initial: seq<Credential>,
                                  steps: seq<Step>)
    requires Run(steps) && forall t | t in Stores(steps) :: Alone(hash, updates, initial, t)
    ensures
      var shown := After(UpdateOf(hash, updates), initial, steps).shown;
      (forall t | t in Stores(steps) :: Counts(hash, updates, initial, shown, t))
      <==> !Overlaps(steps) && Quiet(steps, ShownOrigin(steps))
  {
    hide Counts, Alone, Overlaps, Run;
    ShownKeepsAllExactly(steps);
    var shown := After(UpdateOf(hash, updates), initial, steps).shown;
    forall t | t in Stores(steps)
      ensures Counts(hash, updates, initial, shown, t) <==> t in Lineage(steps).shown
    {
      PairingCountsExactly(hash, updates, initial, steps, t);
    }
    if forall t | t in Stores(steps) :: t in Lineage(steps).shown {
      StoredOnce(steps);
      DistinctFit(Stores(steps), Lineage(steps).shown);
    }
  }

  lemma OneMore(steps: seq<Step>, step: Step)
    requires Run(steps) && Enabled(steps, step)
    ensures Run(steps + [step])
    ensures Lineage(steps + [step]) == Advance(Append, Lineage(steps), step)
  {
    assert Front(steps + [step]) == steps;
  }

  lemma TwoLoads()
    ensures
      var steps := [Load(0), Show(0), Load(1), Show(1)];
      Run(steps) && Lineage(steps) == Files([], [], map[0 := [], 1 := []])
  {
    hide Run, Lineage;
    EmptyRun();
    var s0: seq<Step> := [];
    OneMore(s0, Load(0));
    var s1 := s0 + [Load(0)];
    OneMore(s1, Show(0));
    var s2 := s1 + [Show(0)];
    OneMore(s2, Load(1));
    var s3 := s2 + [Load(1)];
    OneMore(s3, Show(1));
    assert s3 + [Show(1)] == [Load(0), Show(0), Load(1), Show(1)];
  }

  /** Two operations that load before either stores, each showing its lists. */
  lemma OverlappingRun()
    ensures
      var steps := [Load(0), Show(0), Load(1), Show(1), Store(0), Show(0), Store(1), Show(1)];
      Run(steps) && Lineage(steps).shown == [1]
  {
    hide Run, Lineage;
    TwoLoads();
    var s4 := [Load(0), Show(0), Load(1), Show(1)];
    OneMore(s4, Store(0));
    var s5 := s4 + [Store(0)];
    OneMore(s5, Show(0));
    var s6 := s5 + [Show(0)];
    OneMore(s6, Store(1));
    var s7 := s6 + [Store(1)];
    OneMore(s7, Show(1));
    assert s7 + [Show(1)] == [Load(0), Show(0), Load(1), Show(1), Store(0), Show(0), Store(1), Show(1)];
  }

  lemma EmptyRun()
    ensures Run([]) && Lineage([]) == Files([], [], map[])
  {
  }

  /** A pairing that stores between the loading and the storing of any other operation, such as the renewal of
      another client: the paired client was told of its success and cannot log in. */
  lemma LostPairing(hash: seq<byte> -> Digest, updates: nat -> Update, initial: seq<Credential>)
    requires Alone(hash, updates, initial, 0)
    ensures
      var steps := [Load(0), Show(0), Load(1), Show(1), Store(0), Show(0), Store(1), Show(1)];
      Run(steps) && !Counts(hash, updates, initial, After(UpdateOf(hash, updates), initial, steps).shown, 0)
  {
    hide Counts, Alone, Run, After, Lineage;
    OverlappingRun();
    PairingCountsExactly(hash, updates, initial,
                         [Load(0), Show(0), Load(1), Show(1), Store(0), Show(0), Store(1), Show(1)], 0);
  }
}
