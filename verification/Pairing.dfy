/** Pairing a browser with the daemon.  Starting a pairing releases the lock while the user confirms and
    while the code is shown, so attempts interleave; the steps are the sections under the lock. */
module Pairing {
  import opened Wrappers
  import opened Bytes
  import opened TerminalParser

  const PAIRING_TTL_SECONDS: int := 180

  type SessionId = nat
  type AttemptId = nat
  type Digest = seq<bv8>

  datatype AttemptKey = ClientId(id: seq<byte>) | Anonymous

  datatype CodeRecord = CodeRecord(digest: Digest, expires: int)

  datatype Challenge = Challenge(
    attempt: AttemptId,
    key: AttemptKey,
    owner: SessionId,
    record: CodeRecord,
    clientLabel: seq<byte>,
    client: Option<seq<byte>>)

  datatype State = State(next: AttemptId, current: map<AttemptKey, AttemptId>, active: Option<Challenge>)

  datatype CompleteReply =
    | NotStarted
    | StartedElsewhere
    | Expired
    | InvalidCode
    | Paired(challenge: Challenge)

  // ---------- codes ----------

  function Digit(n: nat): (b: byte)
    ensures 0x30 <= b <= 0x39
  {
    0x30 + n % 10
  }

  /** Six decimal digits with leading zeros. */
  function CodeText(n: nat): (text: seq<byte>)
    ensures |text| == 6
  {
    var tens := n / 10;
    var hundreds := tens / 10;
    var thousands := hundreds / 10;
    var tenThousands := thousands / 10;
    [Digit(tenThousands / 10), Digit(tenThousands), Digit(thousands), Digit(hundreds), Digit(tens), Digit(n)]
  }

  function CreateCode(hash: seq<byte> -> Digest, random: nat, now: int): (record: CodeRecord)
  {
    CodeRecord(hash(CodeText(random % 1000000)), now + PAIRING_TTL_SECONDS)
  }

  predicate VerifyCode(hash: seq<byte> -> Digest, record: CodeRecord, code: seq<byte>, now: int) {
    now < record.expires && record.digest == hash(code)
  }

  lemma XorIsZeroOnlyForEqual(diff: bv8, x: bv8, y: bv8)
    ensures diff | (x ^ y) == 0 <==> diff == 0 && x == y
  {
    assert (diff | (x ^ y) == 0) ==> diff == 0;
    assert (x ^ y) == 0 <==> x == y;
  }

  /** Compares without stopping at the first difference. */
  method ConstantTimeEq(a: Digest, b: Digest) returns (equal: bool)
    ensures equal <==> a == b
  {
    if |a| != |b| {
      return false;
    }
    var diff: bv8 := 0;
    for i := 0 to |a|
      invariant diff == 0 <==> a[..i] == b[..i]
    {
      XorIsZeroOnlyForEqual(diff, a[i], b[i]);
      assert a[..i + 1] == a[..i] + [a[i]] && b[..i + 1] == b[..i] + [b[i]];
      diff := diff | (a[i] ^ b[i]);
    }
    assert a[..|a|] == a && b[..|b|] == b;
    return diff == 0;
  }

  method VerifyPairingCode(hash: seq<byte> -> Digest, record: CodeRecord, code: seq<byte>, now: int)
      returns (ok: bool)
    ensures ok <==> VerifyCode(hash, record, code, now)
  {
    if now >= record.expires {
      return false;
    }
    ok := ConstantTimeEq(record.digest, hash(code));
  }

  // ---------- requests ----------

  function NormalizeClientId(raw: Option<seq<byte>>): (r: Option<seq<byte>>) {
    if raw.Some? && Trim(raw.value) != [] then Some(Trim(raw.value)) else None
  }

  function KeyOf(client: Option<seq<byte>>): (key: AttemptKey) {
    match client case Some(id) => ClientId(id) case None => Anonymous
  }

  // ---------- the sections under the lock ----------

  function Begin(s: State, key: AttemptKey): (next: State) {
    State(
      s.next + 1,
      s.current[key := s.next + 1],
      if s.active.Some? && s.active.value.key == key then None else s.active)
  }

  predicate IsCurrent(s: State, key: AttemptKey, id: AttemptId) {
    key in s.current && s.current[key] == id
  }

  function Reject(s: State, key: AttemptKey, id: AttemptId): (next: State) {
    if IsCurrent(s, key, id) then s.(current := s.current - {key}) else s
  }

  function Activate(s: State, challenge: Challenge): (next: State) {
    if IsCurrent(s, challenge.key, challenge.attempt) then s.(active := Some(challenge)) else s
  }

  function NotifyFailed(s: State, key: AttemptKey, id: AttemptId): (next: State) {
    if s.active.Some? && s.active.value.key == key && s.active.value.attempt == id
    then s.(active := None, current := s.current - {key})
    else s
  }

  function Complete(hash: seq<byte> -> Digest, s: State, caller: SessionId, code: seq<byte>, now: int):
      (r: (State, CompleteReply))
  {
    if s.active.None? then (s, NotStarted)
    else
      var challenge := s.active.value;
      var cleared := s.(active := None, current := s.current - {challenge.key});
      if challenge.owner != caller then (s, StartedElsewhere)
      else if now >= challenge.record.expires then (cleared, Expired)
      else if !VerifyCode(hash, challenge.record, Trim(code), now) then (s, InvalidCode)
      else (cleared, Paired(challenge))
  }

  class PairingState {
    var nextAttemptId: AttemptId
    var currentAttempts: map<AttemptKey, AttemptId>
    var activeChallenge: Option<Challenge>

    ghost function View(): (s: State)
      reads this
    {
      State(nextAttemptId, currentAttempts, activeChallenge)
    }

    constructor ()
      ensures View() == State(0, map[], None)
    {
      nextAttemptId, currentAttempts, activeChallenge := 0, map[], None;
    }

    method BeginAttempt(key: AttemptKey) returns (id: AttemptId)
      modifies this
      ensures View() == Begin(old(View()), key) && id == View().next
    {
      nextAttemptId := nextAttemptId + 1;
      id := nextAttemptId;
      currentAttempts := currentAttempts[key := id];
      if activeChallenge.Some? && activeChallenge.value.key == key {
        activeChallenge := None;
      }
    }

    method IsCurrentAttempt(key: AttemptKey, id: AttemptId) returns (current: bool)
      ensures current == IsCurrent(View(), key, id)
    {
      current := key in currentAttempts && currentAttempts[key] == id;
    }

    method RejectAttempt(key: AttemptKey, id: AttemptId)
      modifies this
      ensures View() == Reject(old(View()), key, id)
    {
      if key in currentAttempts && currentAttempts[key] == id {
        currentAttempts := currentAttempts - {key};
      }
    }

    method ActivateChallenge(challenge: Challenge) returns (current: bool)
      modifies this
      ensures current == IsCurrent(old(View()), challenge.key, challenge.attempt)
      ensures View() == Activate(old(View()), challenge)
    {
      current := challenge.key in currentAttempts && currentAttempts[challenge.key] == challenge.attempt;
      if current {
        activeChallenge := Some(challenge);
      }
    }

    method NotificationFailed(key: AttemptKey, id: AttemptId)
      modifies this
      ensures View() == NotifyFailed(old(View()), key, id)
    {
      if activeChallenge.Some? && activeChallenge.value.key == key && activeChallenge.value.attempt == id {
        activeChallenge := None;
        currentAttempts := currentAttempts - {key};
      }
    }

    method CompletePairing(hash: seq<byte> -> Digest, caller: SessionId, code: seq<byte>, now: int)
        returns (reply: CompleteReply)
      modifies this
      ensures (View(), reply) == Complete(hash, old(View()), caller, code, now)
    {
      if activeChallenge.None? {
        return NotStarted;
      }
      var challenge := activeChallenge.value;
      if challenge.owner != caller {
        return StartedElsewhere;
      }
      if now >= challenge.record.expires {
        activeChallenge := None;
        currentAttempts := currentAttempts - {challenge.key};
        return Expired;
      }
      var ok := VerifyPairingCode(hash, challenge.record, Trim(code), now);
      if !ok {
        return InvalidCode;
      }
      activeChallenge := None;
      currentAttempts := currentAttempts - {challenge.key};
      return Paired(challenge);
    }
  }
}
