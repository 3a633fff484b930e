/** What a successful pairing means, whatever else was going on. */
module PairingTheorems {
  import opened Wrappers
  import opened Bytes
  import opened TerminalParser
  import opened Pairing
  import opened PairingRuns

  /** In every interleaving the active challenge belongs to the newest attempt begun for its key. */
  lemma ActiveIsNewest(hash: seq<byte> -> Digest, steps: seq<Step>)
    requires After(hash, steps).Some?
    ensures
      var w := After(hash, steps).value;
      w.state.active.Some? ==>
        var c := w.state.active.value;
        && IsCurrent(w.state, c.key, c.attempt)
        && c.attempt in w.tasks
        && var began := w.tasks[c.attempt].begunAt;
        && BeganAt(steps, began, w.tasks[c.attempt])
        && KeyOf(NormalizeClientId(steps[began].requested)) == c.key
        && NotSuperseded(steps, began, c.key)
  {
    ConsistentRun(hash, steps);
    var w := After(hash, steps).value;
    if w.state.active.Some? {
      assert Remembered(steps, w.state.active.value.attempt, w.tasks[w.state.active.value.attempt]);
    }
  }

  /** The three steps behind a usable code: this session began the attempt, the user confirmed it, and the
      code was made; nobody began another attempt for the same client since. */
  ghost predicate Earned(hash: seq<byte> -> Digest, steps: seq<Step>, caller: SessionId, code: seq<byte>, now: int,
                         c: Challenge, b: nat, k: nat, a: nat)
  {
    && b < k < a < |steps|
    && steps[b].Begun? && steps[b].caller == caller
    && c.client == NormalizeClientId(steps[b].requested) && c.clientLabel == steps[b].clientLabel
    && NotSuperseded(steps, b, KeyOf(c.client))
    && steps[k] == Answered(c.attempt, true)
    && steps[a].Activated? && steps[a].id == c.attempt
    && hash(Trim(code)) == hash(CodeText(steps[a].random % 1000000))
    && now < steps[a].at + PAIRING_TTL_SECONDS
  }

  /** In every interleaving, a completion that succeeds was earned by its own session. */
  lemma SuccessIsEarned(hash: seq<byte> -> Digest, steps: seq<Step>, caller: SessionId, code: seq<byte>, now: int)
      returns (b: nat, k: nat, a: nat)
    requires After(hash, steps).Some?
    requires Complete(hash, After(hash, steps).value.state, caller, code, now).1.Paired?
    ensures
      var c := Complete(hash, After(hash, steps).value.state, caller, code, now).1.challenge;
      Earned(hash, steps, caller, code, now, c, b, k, a)
  {
    ConsistentRun(hash, steps);
    var w := After(hash, steps).value;
    var c := w.state.active.value;
    var task := w.tasks[c.attempt];
    assert Remembered(steps, c.attempt, task);
    b, k, a := task.begunAt, task.confirmedAt, task.activatedAt;
  }

  // ---------- once only ----------

  lemma {:induction false} PrefixIsRun(hash: seq<byte> -> Digest, steps: seq<Step>, n: nat)
    requires After(hash, steps).Some? && n <= |steps|
    ensures After(hash, steps[..n]).Some?
    ensures After(hash, steps[..n]).value.paired <= After(hash, steps).value.paired
    decreases |steps|
  {
    if n == |steps| {
      assert steps[..n] == steps;
    } else {
      PrefixIsRun(hash, Front(steps), n);
      assert Front(steps)[..n] == steps[..n];
      hide Complete;
    }
  }

  /** The attempt that step `i` of a run paired, if it did. */
  function PairedBy(hash: seq<byte> -> Digest, steps: seq<Step>, i: nat): (r: Option<AttemptId>)
    requires i < |steps| && After(hash, steps[..i]).Some?
  {
    if !steps[i].Completed? then None
    else
      var reply := Complete(hash, After(hash, steps[..i]).value.state, steps[i].caller, steps[i].code, steps[i].at).1;
      if reply.Paired? then Some(reply.challenge.attempt) else None
  }

  lemma AfterOneMore(hash: seq<byte> -> Digest, steps: seq<Step>, i: nat)
    requires i < |steps| && After(hash, steps[..i + 1]).Some?
    ensures After(hash, steps[..i]).Some? && Enabled(After(hash, steps[..i]).value, steps[i])
    ensures After(hash, steps[..i + 1]).value == Advance(hash, After(hash, steps[..i]).value, steps[i])
  {
    hide Advance, Enabled;
    var now := steps[..i + 1];
    assert Front(now) == steps[..i] && Last(now) == steps[i];
  }

  lemma PairedIsRemembered(hash: seq<byte> -> Digest, steps: seq<Step>, i: nat)
    requires After(hash, steps).Some? && i < |steps| && After(hash, steps[..i]).Some?
    requires PairedBy(hash, steps, i).Some?
    ensures PairedBy(hash, steps, i).value in After(hash, steps).value.paired
  {
    hide After, Complete;
    PrefixIsRun(hash, steps, i + 1);
    AfterOneMore(hash, steps, i);
  }

  lemma PairedIsUnused(hash: seq<byte> -> Digest, steps: seq<Step>, i: nat)
    requires i < |steps| && After(hash, steps[..i]).Some? && PairedBy(hash, steps, i).Some?
    ensures PairedBy(hash, steps, i).value !in After(hash, steps[..i]).value.paired
  {
    ConsistentRun(hash, steps[..i]);
    hide After, TasksAreExplained, VerifyCode, Trim;
  }

  lemma PairedByPrefix(hash: seq<byte> -> Digest, steps: seq<Step>, i: nat, j: nat)
    requires i < j < |steps| && After(hash, steps[..i]).Some?
    ensures After(hash, steps[..j][..i]).Some? && PairedBy(hash, steps[..j], i) == PairedBy(hash, steps, i)
  {
    hide After, Complete;
    assert steps[..j][..i] == steps[..i] && steps[..j][i] == steps[i];
  }

  /** No attempt ever succeeds twice. */
  lemma NoAttemptPairsTwice(hash: seq<byte> -> Digest, steps: seq<Step>, i: nat, j: nat)
    requires After(hash, steps).Some? && i < j < |steps|
    requires After(hash, steps[..i]).Some? && After(hash, steps[..j]).Some?
    requires PairedBy(hash, steps, i).Some? && PairedBy(hash, steps, j).Some?
    ensures PairedBy(hash, steps, i) != PairedBy(hash, steps, j)
  {
    PairedByPrefix(hash, steps, i, j);
    hide PairedBy, After;
    PairedIsRemembered(hash, steps[..j], i);
    PairedIsUnused(hash, steps, j);
  }

  // ---------- the right code works ----------

  /** A step that leaves challenge `c` in place. */
  predicate LeavesAlone(hash: seq<byte> -> Digest, c: Challenge, step: Step) {
    match step
    case Begun(_, requested, _) => KeyOf(NormalizeClientId(requested)) != c.key
    case Answered(_, _) => true
    case Checked(_) => true
    case Activated(id, _, _) => false
    case Notified(id, ok) => ok || id != c.attempt
    case Completed(caller, code, at) => caller != c.owner || (at < c.record.expires && hash(Trim(code)) != c.record.digest)
  }

  lemma ChallengeStep(hash: seq<byte> -> Digest, w: World, step: Step, c: Challenge)
    requires Enabled(w, step) && w.state.active == Some(c) && LeavesAlone(hash, c, step)
    ensures Advance(hash, w, step).state.active == Some(c)
  {
    hide Trim, NormalizeClientId, CreateCode;
  }

  lemma {:induction false} ChallengeStays(hash: seq<byte> -> Digest, steps: seq<Step>, more: seq<Step>, c: Challenge)
    requires After(hash, steps + more).Some? && After(hash, steps).Some?
    requires After(hash, steps).value.state.active == Some(c)
    requires forall i | 0 <= i < |more| :: LeavesAlone(hash, c, more[i])
    ensures After(hash, steps + more).value.state.active == Some(c)
    decreases |more|
  {
    hide Advance, LeavesAlone, Enabled;
    if more == [] {
      assert steps + more == steps;
    } else {
      assert Front(steps + more) == steps + Front(more) && Last(steps + more) == Last(more);
      ChallengeStays(hash, steps, Front(more), c);
      ChallengeStep(hash, After(hash, steps + Front(more)).value, Last(more), c);
    }
  }

  lemma CodeHasNoSpace(n: nat)
    ensures Trim(CodeText(n)) == CodeText(n)
  {
  }

  lemma CodeVerifies(hash: seq<byte> -> Digest, id: AttemptId, task: Task, random: nat, at: int, now: int)
    requires now < at + PAIRING_TTL_SECONDS
    ensures
      var record := ChallengeOf(hash, id, task, random, at).record;
      now < record.expires && VerifyCode(hash, record, Trim(CodeText(random % 1000000)), now)
  {
    CodeHasNoSpace(random % 1000000);
  }

  lemma ActivationTakes(hash: seq<byte> -> Digest, steps: seq<Step>, w: World, id: AttemptId, random: nat, at: int)
    requires After(hash, steps) == Some(w) && id in w.tasks && IsCurrent(w.state, Key(w.tasks[id]), id)
    requires After(hash, steps + [Activated(id, random, at)]).Some?
    ensures After(hash, steps + [Activated(id, random, at)]).value.state.active ==
      Some(ChallengeOf(hash, id, w.tasks[id], random, at))
  {
    hide CreateCode;
    var active := steps + [Activated(id, random, at)];
    assert Front(active) == steps && Last(active) == Activated(id, random, at);
  }

  /** A code that was made active completes the pairing on its session until it expires, if nothing replaced,
      consumed or withdrew it in between. */
  lemma RightCodePairs(hash: seq<byte> -> Digest, steps: seq<Step>, w: World, id: AttemptId, random: nat, at: int,
                       more: seq<Step>, end: World, now: int)
    requires After(hash, steps) == Some(w) && id in w.tasks && IsCurrent(w.state, Key(w.tasks[id]), id)
    requires After(hash, steps + [Activated(id, random, at)] + more) == Some(end)
    requires now < at + PAIRING_TTL_SECONDS
    requires
      var c := ChallengeOf(hash, id, w.tasks[id], random, at);
      forall i | 0 <= i < |more| :: LeavesAlone(hash, c, more[i])
    ensures
      var c := ChallengeOf(hash, id, w.tasks[id], random, at);
      Complete(hash, end.state, c.owner, CodeText(random % 1000000), now).1 == Paired(c)
  {
    hide After, LeavesAlone, CreateCode, ChallengeOf, CodeText, Trim, VerifyCode, IsCurrent;
    var active := steps + [Activated(id, random, at)];
    var c := ChallengeOf(hash, id, w.tasks[id], random, at);
    assert (active + more)[..|active|] == active;
    PrefixIsRun(hash, active + more, |active|);
    ActivationTakes(hash, steps, w, id, random, at);
    ChallengeStays(hash, active, more, c);
    CodeVerifies(hash, id, w.tasks[id], random, at, now);
  }

  // ---------- codes and keys ----------

  /** The number that decimal digits spell. */
  function Decimal(digits: seq<byte>): (n: int)
    decreases |digits|
  {
    if digits == [] then 0 else 10 * Decimal(Front(digits)) + (Last(digits) as int - 0x30)
  }

  /** A code is six decimal digits that spell its number, with leading zeros. */
  lemma CodeSpellsItsNumber(n: nat)
    requires n < 1000000
    ensures |CodeText(n)| == 6 && (forall i | 0 <= i < 6 :: 0x30 <= CodeText(n)[i] <= 0x39)
    ensures Decimal(CodeText(n)) == n
  {
    hide Decimal, Digit;
    var code := CodeText(n);
    assert code[..6] == code && code[..0] == [];
    NoDigits();
    DecimalStep(code, 6);
    DecimalStep(code, 5);
    DecimalStep(code, 4);
    DecimalStep(code, 3);
    DecimalStep(code, 2);
    DecimalStep(code, 1);
    DigitsJoin(n);
    DigitsJoin(n / 10);
    DigitsJoin(n / 10 / 10);
    DigitsJoin(n / 10 / 10 / 10);
    DigitsJoin(n / 10 / 10 / 10 / 10);
    DigitsJoin(n / 10 / 10 / 10 / 10 / 10);
  }

  lemma DigitsJoin(n: nat)
    ensures 10 * (n / 10) + (Digit(n) as int - 0x30) == n
  {
  }

  lemma NoDigits()
    ensures Decimal([]) == 0
  {
  }

  lemma DecimalStep(code: seq<byte>, n: nat)
    requires 0 < n <= |code|
    ensures Decimal(code[..n]) == 10 * Decimal(code[..n - 1]) + (code[n - 1] as int - 0x30)
  {
    assert Front(code[..n]) == code[..n - 1];
  }

  /** Different clients have different keys, and all anonymous ones the same; a blank client id is none. */
  lemma KeysAreClients(a: Option<seq<byte>>, b: Option<seq<byte>>)
    ensures KeyOf(a) == KeyOf(b) <==> a == b
    ensures NormalizeClientId(a).None? <==> a.None? || Trim(a.value) == []
    ensures NormalizeClientId(a).Some? ==> NormalizeClientId(a).value == Trim(a.value)
  {
    hide Trim;
  }

  // ---------- refusals ----------

  /** Every refusal says what is the case, in this order: no code is active, another session began the attempt,
      the code's time is over, the code is another; only an expired code is withdrawn. */
  lemma RefusalsSayWhy(hash: seq<byte> -> Digest, steps: seq<Step>, caller: SessionId, code: seq<byte>, now: int)
    requires After(hash, steps).Some?
    ensures
      var w := After(hash, steps).value;
      var (next, reply) := Complete(hash, w.state, caller, code, now);
      if w.state.active.None? then reply == NotStarted && next == w.state
      else
        var c := w.state.active.value;
        c.attempt in w.tasks &&
        var task := w.tasks[c.attempt];
        && task.begunAt < |steps| && steps[task.begunAt].Begun?
        && task.activatedAt < |steps| && steps[task.activatedAt].Activated?
        && var activated := steps[task.activatedAt];
        if steps[task.begunAt].caller != caller then reply == StartedElsewhere && next == w.state
        else if activated.at + PAIRING_TTL_SECONDS <= now then reply == Expired && Withdrawn(w.state, next, c)
        else if hash(Trim(code)) != hash(CodeText(activated.random % 1000000)) then reply == InvalidCode && next == w.state
        else reply == Paired(c) && Withdrawn(w.state, next, c)
  {
    ConsistentRun(hash, steps);
    var w := After(hash, steps).value;
    if w.state.active.Some? {
      var c := w.state.active.value;
      assert Remembered(steps, c.attempt, w.tasks[c.attempt]);
    }
    hide After, Trim, CodeText, TasksAreExplained, CurrentIsNewest;
  }

  /** The challenge is gone and its attempt no longer current; nothing else changed. */
  ghost predicate Withdrawn(before: State, after: State, c: Challenge) {
    after.active.None? && after.next == before.next && after.current == before.current - {c.key}
  }

  // ---------- attempts that ended ----------

  /** The attempt has no active code and can never get one again. */
  ghost predicate Finished(w: World, id: AttemptId) {
    && id in w.tasks
    && (w.state.active.Some? ==> w.state.active.value.attempt != id)
    && (w.tasks[id].phase == Over || forall key | key in w.state.current :: w.state.current[key] != id)
  }

  /** A step that ends the attempt: the user says no, the code cannot be shown, or a completion by its session
      finds it expired or succeeds. */
  ghost predicate EndsAttempt(hash: seq<byte> -> Digest, w: World, step: Step, id: AttemptId) {
    || step == Answered(id, false)
    || step == Notified(id, false)
    || (step.Completed? && w.state.active.Some? && w.state.active.value.attempt == id
        && (var reply := Complete(hash, w.state, step.caller, step.code, step.at).1; reply.Expired? || reply.Paired?))
  }

  lemma CompletionFinishes(hash: seq<byte> -> Digest, steps: seq<Step>, w: World, step: Step)
    requires Consistent(hash, steps, w) && step.Completed? && w.state.active.Some?
    requires var reply := Complete(hash, w.state, step.caller, step.code, step.at).1; reply.Expired? || reply.Paired?
    ensures Finished(Advance(hash, w, step), w.state.active.value.attempt)
  {
    hide Trim, VerifyCode, TasksAreExplained, NotSuperseded;
  }

  lemma NoCodeYet(hash: seq<byte> -> Digest, steps: seq<Step>, w: World, id: AttemptId)
    requires Consistent(hash, steps, w) && InPhase(w, id, AwaitingAnswer)
    ensures w.state.active.Some? ==> w.state.active.value.attempt != id
  {
    assert Remembered(steps, id, w.tasks[id]);
    hide CurrentIsNewest, ChallengeOf;
  }

  lemma EndFinishes(hash: seq<byte> -> Digest, steps: seq<Step>, w: World, step: Step, id: AttemptId)
    requires Consistent(hash, steps, w) && Enabled(w, step) && EndsAttempt(hash, w, step, id)
    ensures Finished(Advance(hash, w, step), id)
  {
    if step.Completed? {
      CompletionFinishes(hash, steps, w, step);
    } else {
      if step.Answered? {
        NoCodeYet(hash, steps, w, id);
      } else {
        if w.state.active.Some? {
          ActiveHasItsKey(hash, steps, w);
        }
      }
      hide Consistent, Complete;
    }
  }

  lemma ActiveHasItsKey(hash: seq<byte> -> Digest, steps: seq<Step>, w: World)
    requires Consistent(hash, steps, w) && w.state.active.Some?
    ensures w.state.active.value.attempt in w.tasks
    ensures w.state.active.value.key == Key(w.tasks[w.state.active.value.attempt])
  {
  }

  lemma ActiveComesFrom(hash: seq<byte> -> Digest, w: World, step: Step)
    requires Enabled(w, step) && Advance(hash, w, step).state.active.Some?
    ensures
      var active := Advance(hash, w, step).state.active;
      || active == w.state.active
      || (step.Activated? && active.value.attempt == step.id && InPhase(w, step.id, StillCurrent)
          && IsCurrent(w.state, Key(w.tasks[step.id]), step.id))
  {
    hide Trim, VerifyCode, CreateCode, NormalizeClientId;
  }

  lemma OverStays(hash: seq<byte> -> Digest, w: World, step: Step, id: AttemptId)
    requires Enabled(w, step) && InPhase(w, id, Over) && id <= w.state.next
    ensures InPhase(Advance(hash, w, step), id, Over)
  {
    hide Trim, VerifyCode, CreateCode, NormalizeClientId, IsCurrent;
  }

  lemma FinishedStep(hash: seq<byte> -> Digest, steps: seq<Step>, w: World, step: Step, id: AttemptId)
    requires Consistent(hash, steps, w) && Enabled(w, step) && Finished(w, id)
    ensures Finished(Advance(hash, w, step), id)
  {
    assert id <= w.state.next;
    hide Advance, Consistent, Key, KeyOf, NormalizeClientId, Enabled;
    var next := Advance(hash, w, step);
    CurrentAfter(hash, w, step);
    if next.state.active.Some? {
      ActiveComesFrom(hash, w, step);
    }
    if w.tasks[id].phase == Over {
      OverStays(hash, w, step, id);
    } else {
      forall key | key in next.state.current ensures next.state.current[key] != id {
        assert (key, next.state.current[key]) in next.state.current.Items;
      }
    }
  }

  lemma {:induction false} FinishedForever(hash: seq<byte> -> Digest, steps: seq<Step>, i: nat, id: AttemptId)
    requires i <= |steps| && After(hash, steps).Some?
    requires After(hash, steps[..i]).Some? && Finished(After(hash, steps[..i]).value, id)
    ensures Finished(After(hash, steps).value, id)
    decreases |steps|
  {
    hide Finished, Advance, Enabled, Consistent;
    if i == |steps| {
      assert steps[..i] == steps;
    } else {
      assert Front(steps)[..i] == steps[..i];
      FinishedForever(hash, Front(steps), i, id);
      ConsistentRun(hash, Front(steps));
      FinishedStep(hash, Front(steps), After(hash, Front(steps)).value, Last(steps), id);
    }
  }

  /** An attempt that was refused, could not be shown, expired or succeeded never pairs afterwards. */
  lemma EndedAttemptsNeverPair(hash: seq<byte> -> Digest, steps: seq<Step>, i: nat, j: nat, id: AttemptId)
    requires After(hash, steps).Some? && i < j < |steps|
    requires After(hash, steps[..i]).Some? && After(hash, steps[..j]).Some?
    requires EndsAttempt(hash, After(hash, steps[..i]).value, steps[i], id)
    ensures PairedBy(hash, steps, j) != Some(id)
  {
    hide Finished, Advance, Enabled, Consistent, EndsAttempt, Complete, After;
    PrefixIsRun(hash, steps, i + 1);
    AfterOneMore(hash, steps, i);
    ConsistentRun(hash, steps[..i]);
    EndFinishes(hash, steps[..i], After(hash, steps[..i]).value, steps[i], id);
    assert steps[..j][..i + 1] == steps[..i + 1];
    FinishedForever(hash, steps[..j], i + 1, id);
    if steps[j].Completed? {
      FinishedDoesNotPair(hash, After(hash, steps[..j]).value, steps[j], id);
    }
  }

  lemma FinishedDoesNotPair(hash: seq<byte> -> Digest, w: World, step: Step, id: AttemptId)
    requires Finished(w, id) && step.Completed?
    ensures
      var reply := Complete(hash, w.state, step.caller, step.code, step.at).1;
      reply.Paired? ==> reply.challenge.attempt != id
  {
    hide Trim, VerifyCode;
  }
}
