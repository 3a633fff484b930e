/** The paired clients' credentials: what issuing, reissuing and renewing does to who is let in. */
module Credentials {
  import opened Wrappers
  import opened Bytes
  import opened Pairing

  const CLIENT_CREDENTIAL_TTL_SECONDS: int := 60 * 60 * 24 * 30

  datatype Credential = Credential(client: seq<byte>, clientLabel: seq<byte>, digest: Digest, created: int, expires: int)

  /** The client presents `secret` under the name `client` at time `now`. */
  predicate Admits(hash: seq<byte> -> Digest, clients: seq<Credential>, client: seq<byte>, secret: seq<byte>, now: int) {
    exists i | 0 <= i < |clients| ::
      clients[i].client == client && now < clients[i].expires && clients[i].digest == hash(secret)
  }

  predicate UniqueClients(clients: seq<Credential>) {
    forall i, j | 0 <= i < j < |clients| :: clients[i].client != clients[j].client
  }

  /** The index of the first record of `client`, or the length of the list. */
  function Find(clients: seq<Credential>, client: seq<byte>): (i: nat)
    ensures i <= |clients|
    ensures i < |clients| ==> clients[i].client == client
    ensures forall j | 0 <= j < i :: clients[j].client != client
  {
    if clients == [] || clients[0].client == client then 0 else 1 + Find(clients[1..], client)
  }

  function Without(clients: seq<Credential>, client: seq<byte>): (rest: seq<Credential>)
  {
    if clients == [] then []
    else (if clients[0].client != client then [clients[0]] else []) + Without(clients[1..], client)
  }

  /** The new record of a completed pairing: a known client keeps its id and creation time. */
  function Issued(hash: seq<byte> -> Digest, clients: seq<Credential>, challenge: Challenge,
                  freshId: seq<byte>, secret: seq<byte>, now: int): (record: Credential)
  {
    var known := challenge.client.Some? && Find(clients, challenge.client.value) < |clients|;
    Credential(
      if known then challenge.client.value else freshId,
      challenge.clientLabel,
      hash(secret),
      if known then clients[Find(clients, challenge.client.value)].created else now,
      now + CLIENT_CREDENTIAL_TTL_SECONDS)
  }

  function Renewed(clients: seq<Credential>, client: seq<byte>, now: int): (r: seq<Credential>) {
    var i := Find(clients, client);
    if i == |clients| then clients else clients[i := clients[i].(expires := now + CLIENT_CREDENTIAL_TTL_SECONDS)]
  }

  method FindRecord(clients: seq<Credential>, client: seq<byte>) returns (i: nat)
    ensures i == Find(clients, client)
  {
    i := 0;
    assert clients[0..] == clients;
    while i < |clients| && clients[i].client != client
      invariant i <= |clients| && Find(clients, client) == i + Find(clients[i..], client)
    {
      assert clients[i..][1..] == clients[i + 1..];
      i := i + 1;
    }
  }

  lemma WithoutAt(clients: seq<Credential>, client: seq<byte>, i: nat)
    requires i < |clients|
    ensures Without(clients[i..], client) ==
      (if clients[i].client != client then [clients[i]] else []) + Without(clients[i + 1..], client)
  {
    assert clients[i..][1..] == clients[i + 1..];
  }

  lemma WithoutNone(client: seq<byte>)
    ensures Without([], client) == []
  {
  }

  method Retain(clients: seq<Credential>, client: seq<byte>) returns (retained: seq<Credential>)
    ensures retained == Without(clients, client)
  {
    hide Without;
    retained := [];
    assert clients[0..] == clients && retained + Without(clients, client) == Without(clients, client);
    for i := 0 to |clients|
      invariant Without(clients, client) == retained + Without(clients[i..], client)
    {
      WithoutAt(clients, client, i);
      if clients[i].client != client {
        Regroup(retained, [clients[i]], Without(clients[i + 1..], client));
        retained := retained + [clients[i]];
      }
    }
    WithoutNone(client);
    assert clients[|clients|..] == [] && retained + [] == retained;
  }

  /** What a completed pairing or a renewal makes of the list that it loaded. */
  datatype Update =
    | Pair(challenge: Challenge, freshId: seq<byte>, secret: seq<byte>, now: int)
    | Extend(client: seq<byte>, now: int)

  function Updated(hash: seq<byte> -> Digest, u: Update, clients: seq<Credential>): (r: seq<Credential>) {
    match u
    case Pair(challenge, freshId, secret, now) =>
      var issued := Issued(hash, clients, challenge, freshId, secret, now);
      Without(clients, issued.client) + [issued]
    case Extend(client, now) => Renewed(clients, client, now)
  }

  /** The credentials file, and the copy in memory that decides who is let in.  An operation loads the file,
      shows what it loaded, stores its update and shows that; other operations run in between. */
  class ClientCredentials {
    var stored: seq<Credential>
    var shown: seq<Credential>

    constructor (initial: seq<Credential>)
      ensures stored == shown == initial
    {
      stored := initial;
      shown := initial;
    }

    method Load() returns (loaded: seq<Credential>)
      ensures loaded == stored
    {
      loaded := stored;
    }

    method Show(clients: seq<Credential>)
      modifies this`shown
      ensures shown == clients
    {
      shown := clients;
    }

    /** Whether a client with these credentials is let in. */
    method Verify(hash: seq<byte> -> Digest, client: seq<byte>, secret: seq<byte>, now: int) returns (admitted: bool)
      ensures admitted <==> Admits(hash, shown, client, secret, now)
    {
      for i := 0 to |shown|
        invariant forall k | 0 <= k < i ::
          !(shown[k].client == client && now < shown[k].expires && shown[k].digest == hash(secret))
      {
        var same := ConstantTimeEq(shown[i].digest, hash(secret));
        if shown[i].client == client && now < shown[i].expires && same {
          return true;
        }
      }
      return false;
    }

    /** Ends a successful pairing: the record with the new secret replaces any the client had. */
    method Issue(hash: seq<byte> -> Digest, loaded: seq<Credential>, challenge: Challenge, freshId: seq<byte>,
                 secret: seq<byte>, now: int) returns (client: seq<byte>)
      modifies this`stored
      ensures client == Issued(hash, loaded, challenge, freshId, secret, now).client
      ensures stored == Updated(hash, Pair(challenge, freshId, secret, now), loaded)
    {
      var existing := |loaded|;
      if challenge.client.Some? {
        existing := FindRecord(loaded, challenge.client.value);
      }
      var issued: Credential;
      if existing < |loaded| {
        var record := loaded[existing];
        issued := Credential(record.client, challenge.clientLabel, hash(secret), record.created,
                             now + CLIENT_CREDENTIAL_TTL_SECONDS);
      } else {
        issued := Credential(freshId, challenge.clientLabel, hash(secret), now, now + CLIENT_CREDENTIAL_TTL_SECONDS);
      }
      client := issued.client;
      var retained := Retain(loaded, client);
      stored := retained + [issued];
    }

    /** Moves one client's expiry; a client that is not found stores nothing. */
    method Renew(loaded: seq<Credential>, client: seq<byte>, now: int) returns (found: bool)
      modifies this`stored
      ensures found == (Find(loaded, client) < |loaded|)
      ensures stored == if found then Renewed(loaded, client, now) else old(stored)
    {
      var i := FindRecord(loaded, client);
      if i == |loaded| {
        return false;
      }
      stored := loaded[i := loaded[i].(expires := now + CLIENT_CREDENTIAL_TTL_SECONDS)];
      return true;
    }
  }

  lemma {:induction false} WithoutKeepsTheOthers(clients: seq<Credential>, client: seq<byte>)
    ensures forall record :: record in Without(clients, client) <==> record in clients && record.client != client
    ensures UniqueClients(clients) ==> UniqueClients(Without(clients, client))
  {
    if clients != [] {
      WithoutKeepsTheOthers(clients[1..], client);
      assert UniqueClients(clients) ==> UniqueClients(clients[1..]);
      assert UniqueClients(clients) ==> forall record | record in clients[1..] :: record.client != clients[0].client;
    }
  }

  lemma AdmitsByRecord(hash: seq<byte> -> Digest, clients: seq<Credential>, client: seq<byte>, secret: seq<byte>, now: int)
    ensures Admits(hash, clients, client, secret, now) <==>
      exists r :: r in clients && r.client == client && now < r.expires && r.digest == hash(secret)
  {
    if r :| r in clients && r.client == client && now < r.expires && r.digest == hash(secret) {
      var i :| 0 <= i < |clients| && clients[i] == r;
    }
  }

  /** After a pairing the paired client is let in exactly with the new secret and until the new expiry, so its
      old secret no longer works; nobody else is affected. */
  lemma IssueDecidesAdmission(hash: seq<byte> -> Digest, clients: seq<Credential>, challenge: Challenge,
                              freshId: seq<byte>, secret: seq<byte>, now: int,
                              who: seq<byte>, presented: seq<byte>, at: int)
    ensures
      var issued := Issued(hash, clients, challenge, freshId, secret, now);
      var after := Without(clients, issued.client) + [issued];
      Admits(hash, after, who, presented, at) <==>
        (if who == issued.client then at < now + CLIENT_CREDENTIAL_TTL_SECONDS && hash(presented) == hash(secret)
         else Admits(hash, clients, who, presented, at))
  {
    var issued := Issued(hash, clients, challenge, freshId, secret, now);
    var rest := Without(clients, issued.client);
    WithoutKeepsTheOthers(clients, issued.client);
    AdmitsByRecord(hash, clients, who, presented, at);
    AdmitsByRecord(hash, rest + [issued], who, presented, at);
    assert issued in rest + [issued];
    assert forall r :: r in rest + [issued] <==> r in rest || r == issued;
  }

  /** A pairing keeps one record per client, whatever id was drawn, and a known client its creation time. */
  lemma IssueKeepsUnique(hash: seq<byte> -> Digest, clients: seq<Credential>, challenge: Challenge,
                         freshId: seq<byte>, secret: seq<byte>, now: int)
    requires UniqueClients(clients)
    ensures
      var issued := Issued(hash, clients, challenge, freshId, secret, now);
      && UniqueClients(Without(clients, issued.client) + [issued])
      && forall r | r in clients && challenge.client == Some(r.client) ::
           issued.client == r.client && issued.created == r.created
  {
    var issued := Issued(hash, clients, challenge, freshId, secret, now);
    WithoutKeepsTheOthers(clients, issued.client);
    var rest := Without(clients, issued.client);
    assert forall i | 0 <= i < |rest| :: rest[i] in rest;
  }

  /** The record that a pairing leaves: its client is the one that asked, if it is known, and a new one
      otherwise; it carries the label and the secret of this pairing.  Every other client keeps its records. */
  lemma IssuedRecord(hash: seq<byte> -> Digest, clients: seq<Credential>, challenge: Challenge,
                     freshId: seq<byte>, secret: seq<byte>, now: int)
    ensures
      var after := Updated(hash, Pair(challenge, freshId, secret, now), clients);
      var asked := challenge.client;
      && after != []
      && var record := after[|after| - 1];
      && record.clientLabel == challenge.clientLabel && record.digest == hash(secret)
      && record.expires == now + CLIENT_CREDENTIAL_TTL_SECONDS
      && (if asked.Some? && exists r :: r in clients && r.client == asked.value
          then record.client == asked.value
            && exists r :: r in clients && r.client == asked.value && r.created == record.created
          else record.client == freshId && record.created == now)
      && (forall r :: r in after <==> r == record || (r in clients && r.client != record.client))
  {
    var issued := Issued(hash, clients, challenge, freshId, secret, now);
    WithoutKeepsTheOthers(clients, issued.client);
    if challenge.client.Some? {
      var i := Find(clients, challenge.client.value);
      if i < |clients| {
        assert clients[i] in clients;
      }
      forall r | r in clients && r.client == challenge.client.value ensures i < |clients| {
        var j :| 0 <= j < |clients| && clients[j] == r;
      }
    }
    hide Without, Find;
  }

  /** Renewal moves the expiry of one client and nothing else: secrets keep working, others are unaffected. */
  lemma RenewalExtends(hash: seq<byte> -> Digest, clients: seq<Credential>, client: seq<byte>, now: int,
                       who: seq<byte>, presented: seq<byte>, at: int)
    requires UniqueClients(clients)
    ensures UniqueClients(Renewed(clients, client, now))
    ensures Admits(hash, Renewed(clients, client, now), who, presented, at) <==>
      if who == client then
        at < now + CLIENT_CREDENTIAL_TTL_SECONDS
        && exists r :: r in clients && r.client == client && r.digest == hash(presented)
      else Admits(hash, clients, who, presented, at)
  {
    var i, after := Find(clients, client), Renewed(clients, client, now);
    AdmitsByRecord(hash, clients, who, presented, at);
    AdmitsByRecord(hash, after, who, presented, at);
    if i < |clients| {
      assert after[i] in after && clients[i] in clients;
      forall j | 0 <= j < |clients| && j != i ensures after[j] == clients[j] && after[j] in after { }
    }
  }
}
