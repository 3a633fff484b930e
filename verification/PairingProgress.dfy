/** How far a pairing gets: exactly until another attempt of the same client begins. */
module PairingProgress {
  import opened Wrappers
  import opened Bytes
  import opened TerminalParser
  import opened Pairing
  import opened PairingRuns
  import opened PairingTheorems

  /** The attempt has not got its code yet, nor been refused. */
  predicate Underway(w: World, id: AttemptId) {
    id in w.tasks && w.tasks[id].phase in {AwaitingAnswer, Confirmed, StillCurrent}
  }

  /** An attempt without a code is current unless it was superseded. */
  ghost predicate UnderwayIsCurrent(steps: seq<Step>, w: World) {
    forall id | Underway(w, id) && NotSuperseded(steps, w.tasks[id].begunAt, Key(w.tasks[id])) ::
      IsCurrent(w.state, Key(w.tasks[id]), id)
  }

  /** A step that begins nothing takes a key only from the attempt that is refused or has the active code. */
  lemma WhoLosesTheKey(hash: seq<byte> -> Digest, w: World, step: Step, key: AttemptKey)
    requires Enabled(w, step) && !step.Begun? && key in w.state.current
    requires w.state.active.Some? ==> IsCurrent(w.state, w.state.active.value.key, w.state.active.value.attempt)
    ensures
      var id := w.state.current[key];
      || IsCurrent(Advance(hash, w, step).state, key, id)
      || step == Answered(id, false)
      || (w.state.active.Some? && w.state.active.value.attempt == id)
  {
    hide Trim, VerifyCode, ChallengeOf, NormalizeClientId, Key;
  }

  lemma ActiveIsNotUnderway(hash: seq<byte> -> Digest, steps: seq<Step>, w: World)
    requires Consistent(hash, steps, w) && w.state.active.Some?
    ensures IsCurrent(w.state, w.state.active.value.key, w.state.active.value.attempt)
    ensures !Underway(w, w.state.active.value.attempt)
  {
    assert Remembered(steps, w.state.active.value.attempt, w.tasks[w.state.active.value.attempt]);
    hide CurrentIsNewest, ChallengeOf;
  }

  /** No step takes the key of an attempt without a code, except the beginning of another attempt. */
  lemma StaysCurrent(hash: seq<byte> -> Digest, steps: seq<Step>, w: World, step: Step, id: AttemptId)
    requires Enabled(w, step) && Consistent(hash, steps, w) && Underway(w, id)
    requires IsCurrent(w.state, Key(w.tasks[id]), id) && Underway(Advance(hash, w, step), id)
    requires step.Begun? ==> KeyOf(NormalizeClientId(step.requested)) != Key(w.tasks[id])
    ensures IsCurrent(Advance(hash, w, step).state, Key(w.tasks[id]), id)
  {
    if w.state.active.Some? {
      ActiveIsNotUnderway(hash, steps, w);
    }
    hide NormalizeClientId, Consistent, Key, Enabled;
    CurrentAfter(hash, w, step);
    if !step.Begun? {
      WhoLosesTheKey(hash, w, step, Key(w.tasks[id]));
      RefusalEnds(hash, w, step, id);
    }
    hide Advance;
  }

  lemma RefusalEnds(hash: seq<byte> -> Digest, w: World, step: Step, id: AttemptId)
    requires Enabled(w, step)
    ensures step == Answered(id, false) ==> !Underway(Advance(hash, w, step), id)
  {
    hide Trim, VerifyCode, ChallengeOf;
  }

  lemma SupersededBefore(steps: seq<Step>, i: nat, key: AttemptKey)
    requires steps != [] && i + 1 < |steps| && NotSuperseded(steps, i, key)
    ensures NotSuperseded(Front(steps), i, key)
    ensures Last(steps).Begun? ==> KeyOf(NormalizeClientId(Last(steps).requested)) != key
  {
    hide KeyOf, NormalizeClientId;
    assert forall k | 0 <= k < |steps| - 1 :: Front(steps)[k] == steps[k];
    assert Last(steps) == steps[|steps| - 1];
  }

  lemma UnderwayStep(hash: seq<byte> -> Digest, steps: seq<Step>, w: World)
    requires steps != [] && Enabled(w, Last(steps)) && Consistent(hash, Front(steps), w)
    requires UnderwayIsCurrent(Front(steps), w)
    ensures UnderwayIsCurrent(steps, Advance(hash, w, Last(steps)))
  {
    var next, step := Advance(hash, w, Last(steps)), Last(steps);
    forall id | Underway(next, id) && NotSuperseded(steps, next.tasks[id].begunAt, Key(next.tasks[id]))
      ensures IsCurrent(next.state, Key(next.tasks[id]), id)
    {
      TaskAfter(hash, w, step, id);
      CurrentAfter(hash, w, step);
      if !(step.Begun? && id == w.state.next + 1) {
        UnderwayBefore(hash, Front(steps), w, step, id);
        SupersededBefore(steps, w.tasks[id].begunAt, Key(w.tasks[id]));
        StaysCurrent(hash, Front(steps), w, step, id);
      }
    }
  }

  lemma UnderwayBefore(hash: seq<byte> -> Digest, steps: seq<Step>, w: World, step: Step, id: AttemptId)
    requires Enabled(w, step) && Consistent(hash, steps, w) && !(step.Begun? && id == w.state.next + 1)
    requires Underway(Advance(hash, w, step), id)
    ensures Underway(w, id) && w.tasks[id].begunAt < |steps|
    ensures Key(Advance(hash, w, step).tasks[id]) == Key(w.tasks[id])
    ensures Advance(hash, w, step).tasks[id].begunAt == w.tasks[id].begunAt
  {
    TaskAfter(hash, w, step, id);
    assert Remembered(steps, id, w.tasks[id]);
    hide Advance, ActiveIsCurrent, CurrentIsNewest, NormalizeClientId;
  }

  lemma {:induction false} UnderwayRun(hash: seq<byte> -> Digest, steps: seq<Step>)
    requires After(hash, steps).Some?
    ensures UnderwayIsCurrent(steps, After(hash, steps).value)
    decreases |steps|
  {
    if steps != [] {
      hide Advance, Enabled, UnderwayIsCurrent, Consistent;
      UnderwayRun(hash, Front(steps));
      ConsistentRun(hash, Front(steps));
      UnderwayStep(hash, steps, After(hash, Front(steps)).value);
    }
  }

  /** Until it has its code, an attempt is current exactly if no other attempt was begun for its client since. */
  lemma CurrentUntilSuperseded(hash: seq<byte> -> Digest, steps: seq<Step>, id: AttemptId)
    requires After(hash, steps).Some? && Underway(After(hash, steps).value, id)
    ensures
      var w := After(hash, steps).value;
      var task := w.tasks[id];
      IsCurrent(w.state, Key(task), id) <==> NotSuperseded(steps, task.begunAt, Key(task))
  {
    ConsistentRun(hash, steps);
    UnderwayRun(hash, steps);
    hide After, NotSuperseded, TasksAreExplained, ActiveIsCurrent;
  }

  /** An attempt that was superseded ends at its next check and never gets a code; any other goes on. */
  lemma SupersededStops(hash: seq<byte> -> Digest, steps: seq<Step>, step: Step)
    requires After(hash, steps).Some? && Enabled(After(hash, steps).value, step)
    requires step.Checked? || step.Activated?
    ensures
      var w := After(hash, steps).value;
      var next, task := Advance(hash, w, step), w.tasks[step.id];
      if NotSuperseded(steps, task.begunAt, Key(task)) then
        if step.Checked? then InPhase(next, step.id, StillCurrent) && next.state == w.state
        else
          && InPhase(next, step.id, AwaitingNotice)
          && next.state == w.state.(active := Some(ChallengeOf(hash, step.id, task, step.random, step.at)))
      else InPhase(next, step.id, Over) && next.state == w.state
  {
    CurrentUntilSuperseded(hash, steps, step.id);
    hide After, NotSuperseded, ChallengeOf;
  }

  /** A refusal takes the attempt out of the current ones, and nothing else. */
  lemma RefusalForgets(hash: seq<byte> -> Digest, steps: seq<Step>, id: AttemptId)
    requires After(hash, steps).Some? && Enabled(After(hash, steps).value, Answered(id, false))
    ensures
      var w := After(hash, steps).value;
      var state := Advance(hash, w, Answered(id, false)).state;
      && state.active == w.state.active && state.next == w.state.next
      && forall key, other ::
        IsCurrent(state, key, other) <==> IsCurrent(w.state, key, other) && other != id
  {
    ConsistentRun(hash, steps);
    hide After, NotSuperseded, TasksAreExplained, ActiveIsCurrent;
  }

  // ---------- an uninterrupted pairing ----------

  lemma Extended(hash: seq<byte> -> Digest, steps: seq<Step>, step: Step)
    requires After(hash, steps).Some? && Enabled(After(hash, steps).value, step)
    ensures After(hash, steps + [step]) == Some(Advance(hash, After(hash, steps).value, step))
  {
    hide Advance, Enabled;
    assert Front(steps + [step]) == steps && Last(steps + [step]) == step;
  }

  /** The sections of one pairing that the user confirms, up to the check before its code is made. */
  function Opening(caller: SessionId, requested: Option<seq<byte>>, clientLabel: seq<byte>, id: AttemptId):
      (steps: seq<Step>)
  {
    [Begun(caller, requested, clientLabel), Answered(id, true), Checked(id)]
  }

  lemma OpeningRuns(hash: seq<byte> -> Digest, steps: seq<Step>, caller: SessionId, requested: Option<seq<byte>>,
                    clientLabel: seq<byte>)
    requires After(hash, steps).Some?
    ensures
      var id := After(hash, steps).value.state.next + 1;
      var after := After(hash, steps + Opening(caller, requested, clientLabel, id));
      && after.Some? && InPhase(after.value, id, StillCurrent)
      && var task := after.value.tasks[id];
      && task.caller == caller && task.client == NormalizeClientId(requested) && task.clientLabel == clientLabel
      && IsCurrent(after.value.state, Key(task), id)
  {
    hide After, NormalizeClientId;
    var id := After(hash, steps).value.state.next + 1;
    var all := Opening(caller, requested, clientLabel, id);
    var one := steps + [all[0]];
    Extended(hash, steps, all[0]);
    var two := one + [all[1]];
    Extended(hash, one, all[1]);
    Extended(hash, two, all[2]);
    assert two + [all[2]] == steps + all;
  }

  /** The code of a current attempt, once shown, pairs. */
  lemma ShownCodePairs(hash: seq<byte> -> Digest, steps: seq<Step>, w: World, id: AttemptId, random: nat, at: int, now: int)
    requires After(hash, steps) == Some(w) && InPhase(w, id, StillCurrent) && now < at + PAIRING_TTL_SECONDS
    requires IsCurrent(w.state, Key(w.tasks[id]), id)
    ensures
      var end := After(hash, steps + [Activated(id, random, at)] + [Notified(id, true)]);
      var c := ChallengeOf(hash, id, w.tasks[id], random, at);
      end.Some? && Complete(hash, end.value.state, c.owner, CodeText(random % 1000000), now).1 == Paired(c)
  {
    var shown := steps + [Activated(id, random, at)];
    ShowingRuns(hash, steps, w, id, random, at);
    hide After, InPhase, IsCurrent, Complete, ChallengeOf, CodeText, Key;
    var end := After(hash, shown + [Notified(id, true)]).value;
    RightCodePairs(hash, steps, w, id, random, at, [Notified(id, true)], end, now);
  }

  lemma ShowingRuns(hash: seq<byte> -> Digest, steps: seq<Step>, w: World, id: AttemptId, random: nat, at: int)
    requires After(hash, steps) == Some(w) && InPhase(w, id, StillCurrent) && IsCurrent(w.state, Key(w.tasks[id]), id)
    ensures After(hash, steps + [Activated(id, random, at)] + [Notified(id, true)]).Some?
  {
    hide After, ChallengeOf;
    Extended(hash, steps, Activated(id, random, at));
    Extended(hash, steps + [Activated(id, random, at)], Notified(id, true));
  }

  /** After any run, a client that starts pairing, is confirmed and types the code in time is paired as itself. */
  lemma UninterruptedPairs(hash: seq<byte> -> Digest, steps: seq<Step>, caller: SessionId, requested: Option<seq<byte>>,
                           clientLabel: seq<byte>, random: nat, at: int, now: int)
    requires After(hash, steps).Some? && now < at + PAIRING_TTL_SECONDS
    ensures
      var id := After(hash, steps).value.state.next + 1;
      var checked := steps + Opening(caller, requested, clientLabel, id);
      var end := After(hash, checked + [Activated(id, random, at)] + [Notified(id, true)]);
      && end.Some?
      && var reply := Complete(hash, end.value.state, caller, CodeText(random % 1000000), now).1;
      && reply.Paired? && reply.challenge.attempt == id && reply.challenge.client == NormalizeClientId(requested)
      && reply.challenge.clientLabel == clientLabel
  {
    var id := After(hash, steps).value.state.next + 1;
    OpeningRuns(hash, steps, caller, requested, clientLabel);
    hide After, Trim, NormalizeClientId, Complete, CodeText, CreateCode, IsCurrent, Opening, Key, InPhase;
    var checked := steps + Opening(caller, requested, clientLabel, id);
    ShownCodePairs(hash, checked, After(hash, checked).value, id, random, at, now);
  }
}
