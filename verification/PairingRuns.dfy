/** Every interleaving of starting and completing pairings. */
module PairingRuns {
  import opened Wrappers
  import opened Bytes
  import opened Pairing
  import opened TerminalParser

  datatype Step =
    | Begun(caller: SessionId, requested: Option<seq<byte>>, clientLabel: seq<byte>)
    | Answered(id: AttemptId, confirmed: bool)
    | Checked(id: AttemptId)
    | Activated(id: AttemptId, random: nat, at: int)
    | Notified(id: AttemptId, ok: bool)
    | Completed(caller: SessionId, code: seq<byte>, at: int)

  /** Where the operation that runs an attempt is. */
  datatype Phase = AwaitingAnswer | Confirmed | StillCurrent | AwaitingNotice | Over

  /** An attempt's operation, and when it began, was confirmed and was activated. */
  datatype Task = Task(
    caller: SessionId,
    client: Option<seq<byte>>,
    clientLabel: seq<byte>,
    phase: Phase,
    begunAt: nat,
    confirmedAt: nat,
    activatedAt: nat)

  datatype World = World(state: State, tasks: map<AttemptId, Task>, time: nat, paired: set<AttemptId>)

  const START: World := World(State(0, map[], None), map[], 0, {})

  predicate InPhase(w: World, id: AttemptId, phase: Phase) {
    id in w.tasks && w.tasks[id].phase == phase
  }

  /** An operation takes its sections in order; it may also never take the next one. */
  predicate Enabled(w: World, step: Step) {
    match step
    case Begun(_, _, _) => true
    case Answered(id, _) => InPhase(w, id, AwaitingAnswer)
    case Checked(id) => InPhase(w, id, Confirmed)
    case Activated(id, _, _) => InPhase(w, id, StillCurrent)
    case Notified(id, _) => InPhase(w, id, AwaitingNotice)
    case Completed(_, _, _) => true
  }

  function Key(task: Task): (key: AttemptKey) {
    KeyOf(task.client)
  }

  function ChallengeOf(hash: seq<byte> -> Digest, id: AttemptId, task: Task, random: nat, at: int): (c: Challenge) {
    Challenge(id, Key(task), task.caller, CreateCode(hash, random, at), task.clientLabel, task.client)
  }

  function SetTask(w: World, id: AttemptId, task: Task, state: State): (next: World) {
    World(state, w.tasks[id := task], w.time + 1, w.paired)
  }

  function Advance(hash: seq<byte> -> Digest, w: World, step: Step): (next: World)
    requires Enabled(w, step)
  {
    match step
    case Begun(caller, requested, clientLabel) =>
      var client := NormalizeClientId(requested);
      var state := Begin(w.state, KeyOf(client));
      SetTask(w, state.next, Task(caller, client, clientLabel, AwaitingAnswer, w.time, 0, 0), state)
    case Answered(id, confirmed) =>
      var task := w.tasks[id];
      if confirmed then SetTask(w, id, task.(phase := Confirmed, confirmedAt := w.time), w.state)
      else SetTask(w, id, task.(phase := Over), Reject(w.state, Key(task), id))
    case Checked(id) =>
      var task := w.tasks[id];
      SetTask(w, id, task.(phase := if IsCurrent(w.state, Key(task), id) then StillCurrent else Over), w.state)
    case Activated(id, random, at) =>
      var task := w.tasks[id];
      if IsCurrent(w.state, Key(task), id) then
        SetTask(w, id, task.(phase := AwaitingNotice, activatedAt := w.time),
                Activate(w.state, ChallengeOf(hash, id, task, random, at)))
      else
        SetTask(w, id, task.(phase := Over), w.state)
    case Notified(id, ok) =>
      var task := w.tasks[id];
      SetTask(w, id, task.(phase := Over), if ok then w.state else NotifyFailed(w.state, Key(task), id))
    case Completed(caller, code, at) =>
      var (state, reply) := Complete(hash, w.state, caller, code, at);
      World(state, w.tasks, w.time + 1, if reply.Paired? then w.paired + {reply.challenge.attempt} else w.paired)
  }

  /** The world after a run, or `None` if the steps are not a run. */
  function After(hash: seq<byte> -> Digest, steps: seq<Step>): (w: Option<World>)
    ensures w.Some? ==> w.value.time == |steps|
    decreases |steps|
  {
    if steps == [] then Some(START)
    else
      var before := After(hash, Front(steps));
      if before.Some? && Enabled(before.value, Last(steps)) then Some(Advance(hash, before.value, Last(steps))) else None
  }

  // ---------- what the world remembers of the run ----------

  predicate BeganAt(steps: seq<Step>, i: nat, task: Task) {
    && i < |steps| && steps[i].Begun?
    && task.caller == steps[i].caller && task.client == NormalizeClientId(steps[i].requested)
    && task.clientLabel == steps[i].clientLabel
  }

  /** Nobody began another attempt for the key after step `i`. */
  predicate NotSuperseded(steps: seq<Step>, i: nat, key: AttemptKey) {
    forall k | i < k < |steps| && steps[k].Begun? :: KeyOf(NormalizeClientId(steps[k].requested)) != key
  }

  predicate Remembered(steps: seq<Step>, id: AttemptId, task: Task) {
    && BeganAt(steps, task.begunAt, task)
    && (task.phase in {Confirmed, StillCurrent, AwaitingNotice} || task.activatedAt > 0 ==>
      task.begunAt < task.confirmedAt < |steps| && steps[task.confirmedAt] == Answered(id, true))
    && (task.activatedAt > 0 ==> task.phase in {AwaitingNotice, Over})
    && (task.activatedAt > 0 ==>
      && task.confirmedAt < task.activatedAt < |steps|
      && steps[task.activatedAt].Activated? && steps[task.activatedAt].id == id)
  }

  /** Every task began, was confirmed and was activated by the steps it remembers. */
  ghost predicate TasksAreExplained(steps: seq<Step>, w: World) {
    forall id | id in w.tasks :: 0 < id <= w.state.next && Remembered(steps, id, w.tasks[id])
  }

  /** The current attempt of a key is the newest one begun for it, and has not been used. */
  ghost predicate CurrentIsNewest(steps: seq<Step>, w: World) {
    forall key | key in w.state.current ::
      var id := w.state.current[key];
      && id in w.tasks && Key(w.tasks[id]) == key && id !in w.paired
      && NotSuperseded(steps, w.tasks[id].begunAt, key)
  }

  /** The active challenge is the current attempt's, as its activation made it. */
  ghost predicate ActiveIsCurrent(hash: seq<byte> -> Digest, steps: seq<Step>, w: World) {
    w.state.active.Some? ==>
      var c := w.state.active.value;
      && IsCurrent(w.state, c.key, c.attempt)
      && c.attempt in w.tasks
      && var task := w.tasks[c.attempt];
      && 0 < task.activatedAt < |steps|
      && steps[task.activatedAt].Activated?
      && c == ChallengeOf(hash, c.attempt, task, steps[task.activatedAt].random, steps[task.activatedAt].at)
  }

  ghost predicate Consistent(hash: seq<byte> -> Digest, steps: seq<Step>, w: World) {
    && w.time == |steps|
    && TasksAreExplained(steps, w)
    && CurrentIsNewest(steps, w)
    && ActiveIsCurrent(hash, steps, w)
    && w.paired <= w.tasks.Keys
  }

  /** What a step does to each task: it changes at most the one it names, or adds a new one. */
  lemma TaskAfter(hash: seq<byte> -> Digest, w: World, step: Step, id: AttemptId)
    requires Enabled(w, step) && id in Advance(hash, w, step).tasks
    ensures
      var next := Advance(hash, w, step);
      && next.state.next >= w.state.next
      && if step.Begun? && id == w.state.next + 1 then
        && next.state.next == id
        && next.tasks[id] == Task(step.caller, NormalizeClientId(step.requested), step.clientLabel, AwaitingAnswer, w.time,
                                    0, 0)
      else
        && id in w.tasks
        && var task := w.tasks[id];
        if step.Begun? || step.Completed? || step.id != id then next.tasks[id] == task
        else
          match step
          case Answered(_, true) => next.tasks[id] == task.(phase := Confirmed, confirmedAt := w.time)
          case Checked(_) => next.tasks[id] == task.(phase := StillCurrent) || next.tasks[id] == task.(phase := Over)
          case Activated(_, _, _) =>
            || next.tasks[id] == task.(phase := AwaitingNotice, activatedAt := w.time)
            || next.tasks[id] == task.(phase := Over)
          case _ => next.tasks[id] == task.(phase := Over)
  {
    hide Trim, CodeText, VerifyCode, ChallengeOf, IsCurrent;
  }

  lemma TasksStep(hash: seq<byte> -> Digest, steps: seq<Step>, w: World)
    requires steps != [] && w.time == |steps| - 1 && Enabled(w, Last(steps))
    requires TasksAreExplained(Front(steps), w)
    ensures TasksAreExplained(steps, Advance(hash, w, Last(steps)))
  {
    hide Advance, NormalizeClientId;
    var next, step := Advance(hash, w, Last(steps)), Last(steps);
    assert steps[w.time] == step;
    forall id | id in next.tasks ensures 0 < id <= next.state.next && Remembered(steps, id, next.tasks[id]) {
      TaskAfter(hash, w, step, id);
      if id in w.tasks {
        assert Remembered(Front(steps), id, w.tasks[id]);
      }
    }
  }

  lemma NotSupersededLater(steps: seq<Step>, i: nat, key: AttemptKey)
    requires steps != [] && NotSuperseded(Front(steps), i, key)
    requires Last(steps).Begun? ==> KeyOf(NormalizeClientId(Last(steps).requested)) != key
    ensures NotSuperseded(steps, i, key)
  {
    hide KeyOf, NormalizeClientId;
    forall k | i < k < |steps| && steps[k].Begun? ensures KeyOf(NormalizeClientId(steps[k].requested)) != key {
      assert k < |steps| - 1 ==> steps[k] == Front(steps)[k];
    }
  }

  /** What a step does to the current attempts: a new attempt takes its key's place, and a step may remove one
      key; only the completion of the active challenge pairs, and it removes that challenge's key. */
  lemma CurrentAfter(hash: seq<byte> -> Digest, w: World, step: Step)
    requires Enabled(w, step)
    ensures
      var next := Advance(hash, w, step);
      if step.Begun? then
        var key := KeyOf(NormalizeClientId(step.requested));
        && next.state.current == w.state.current[key := w.state.next + 1]
        && next.state.next == w.state.next + 1
        && next.paired == w.paired
        && next.tasks == w.tasks[w.state.next + 1 :=
            Task(step.caller, NormalizeClientId(step.requested), step.clientLabel, AwaitingAnswer, w.time, 0, 0)]
      else
        && next.state.next == w.state.next
        && next.state.current.Items <= w.state.current.Items
        && next.tasks.Keys == w.tasks.Keys
        && (forall id | id in w.tasks ::
          Key(next.tasks[id]) == Key(w.tasks[id]) && next.tasks[id].begunAt == w.tasks[id].begunAt)
        && (next.paired == w.paired || (
          && w.state.active.Some? && next.paired == w.paired + {w.state.active.value.attempt}
          && w.state.active.value.key !in next.state.current))
  {
    hide Trim, VerifyCode, CreateCode;
  }

  lemma CurrentStep(hash: seq<byte> -> Digest, steps: seq<Step>, w: World)
    requires steps != [] && w.time == |steps| - 1 && Enabled(w, Last(steps))
    requires TasksAreExplained(Front(steps), w) && CurrentIsNewest(Front(steps), w) && w.paired <= w.tasks.Keys
    requires ActiveIsCurrent(hash, Front(steps), w)
    ensures CurrentIsNewest(steps, Advance(hash, w, Last(steps)))
    ensures Advance(hash, w, Last(steps)).paired <= Advance(hash, w, Last(steps)).tasks.Keys
  {
    var next, step := Advance(hash, w, Last(steps)), Last(steps);
    CurrentAfter(hash, w, step);
    if !step.Begun? && w.state.active.Some? {
      assert Key(w.tasks[w.state.active.value.attempt]) == w.state.active.value.key;
    }
    hide Advance, Remembered, NotSuperseded, ChallengeOf, NormalizeClientId;
    forall key | key in next.state.current
      ensures
        var id := next.state.current[key];
        && id in next.tasks && Key(next.tasks[id]) == key && id !in next.paired
        && NotSuperseded(steps, next.tasks[id].begunAt, key)
    {
      if step.Begun? {
        if key == KeyOf(NormalizeClientId(step.requested)) {
          BegunLast(steps, w.time, key);
        } else {
          NotSupersededLater(steps, next.tasks[next.state.current[key]].begunAt, key);
        }
      } else {
        assert (key, next.state.current[key]) in next.state.current.Items;
        assert (key, next.state.current[key]) in w.state.current.Items;
        NotSupersededLater(steps, next.tasks[next.state.current[key]].begunAt, key);
      }
    }
  }

  lemma BegunLast(steps: seq<Step>, i: nat, key: AttemptKey)
    requires i + 1 == |steps|
    ensures NotSuperseded(steps, i, key)
  {
  }

  predicate SameAttempt(a: Task, b: Task) {
    a.caller == b.caller && a.client == b.client && a.clientLabel == b.clientLabel && a.activatedAt == b.activatedAt
  }

  /** What a step does to the active challenge: it keeps it with its attempt current, drops it, or is the
      activation of a current attempt. */
  lemma ActiveAfter(hash: seq<byte> -> Digest, steps: seq<Step>, w: World, step: Step)
    requires Enabled(w, step) && TasksAreExplained(steps, w)
    requires ActiveIsCurrent(hash, steps, w)
    ensures
      var next := Advance(hash, w, step);
      next.state.active.Some? ==>
        var c := next.state.active.value;
        && IsCurrent(next.state, c.key, c.attempt)
        && c.attempt in next.tasks
        && (|| (step.Activated? && next.tasks[c.attempt].activatedAt == w.time
                && c == ChallengeOf(hash, c.attempt, next.tasks[c.attempt], step.random, step.at))
            || (w.state.active == Some(c) && SameAttempt(next.tasks[c.attempt], w.tasks[c.attempt])))
  {
    hide Trim, VerifyCode, CreateCode;
    if step.Answered? || step.Activated? {
      assert Remembered(steps, step.id, w.tasks[step.id]);
    }
  }

  lemma ActiveStep(hash: seq<byte> -> Digest, steps: seq<Step>, w: World)
    requires steps != [] && w.time == |steps| - 1 && Enabled(w, Last(steps)) && w.time > 0
    requires TasksAreExplained(Front(steps), w) && ActiveIsCurrent(hash, Front(steps), w)
    ensures ActiveIsCurrent(hash, steps, Advance(hash, w, Last(steps)))
  {
    ActiveAfter(hash, Front(steps), w, Last(steps));
    hide Advance, Enabled, TasksAreExplained, CreateCode;
  }

  lemma {:induction false} ConsistentRun(hash: seq<byte> -> Digest, steps: seq<Step>)
    requires After(hash, steps).Some?
    ensures Consistent(hash, steps, After(hash, steps).value)
    decreases |steps|
  {
    if steps != [] {
      ConsistentRun(hash, Front(steps));
      var w := After(hash, Front(steps)).value;
      TasksStep(hash, steps, w);
      CurrentStep(hash, steps, w);
      if w.time > 0 {
        ActiveStep(hash, steps, w);
      }
    }
  }
}
