/** Who may type into a terminal, and what may follow its exit and its closing. */
module TerminalControl {
  import opened Wrappers
  import opened Bytes
  import opened Terminal
  import opened TerminalRuns
  import opened TerminalTheorems

  // ---------- ownership ----------

  /** Step `i` handed attach `id` to `caller`. */
  predicate Grants(w: World, steps: seq<Step>, i: nat, id: AttachId, caller: RpcSessionId)
    requires i < |steps|
  {
    steps[i].Attach? && steps[i].id == id && steps[i].caller == caller && ReplyAt(w, steps, i).Attached?
  }

  /** The attach was handed to `caller` by this run and not detached since. */
  ghost predicate Owned(w: World, steps: seq<Step>, id: AttachId, caller: RpcSessionId) {
    exists i | 0 <= i < |steps| :: Grants(w, steps, i, id, caller) && NoDetach(steps, i + 1, id)
  }

  predicate NoDetach(steps: seq<Step>, from: nat, id: AttachId) {
    forall k | from <= k < |steps| :: steps[k] != Detach(id)
  }

  /** Step `j` made attach `id` the primary one. */
  predicate Takes(w: World, steps: seq<Step>, j: nat)
    requires j < |steps|
  {
    steps[j].TakeControl? && (ReplyAt(w, steps, j) == Accepted || ReplyAt(w, steps, j) == ResizeFailed)
  }

  predicate NoTake(w: World, steps: seq<Step>, from: nat) {
    forall k | from <= k < |steps| :: !Takes(w, steps, k)
  }

  /** The last step that took control did so for attach `id`. */
  ghost predicate Controls(w: World, steps: seq<Step>, id: AttachId) {
    exists j | 0 <= j < |steps| :: Takes(w, steps, j) && steps[j].id == id && NoTake(w, steps, j + 1)
  }

  lemma SamePast(w: World, steps: seq<Step>, k: nat)
    requires steps != [] && k < |steps| - 1
    ensures ReplyAt(w, steps, k) == ReplyAt(w, Front(steps), k) && steps[k] == Front(steps)[k]
  {
    assert steps[..k] == Front(steps)[..k];
  }

  lemma LastReply(w: World, steps: seq<Step>)
    requires steps != []
    ensures ReplyAt(w, steps, |steps| - 1) == Apply(After(w, Front(steps)).session, Last(steps)).reply
  {
    assert steps[..|steps| - 1] == Front(steps);
  }

  /** One more step keeps an owned attach owned unless it detaches it, and may grant it. */
  lemma OwnedStep(w: World, steps: seq<Step>, id: AttachId, caller: RpcSessionId)
    requires steps != []
    ensures Owned(w, steps, id, caller) <==>
      (Owned(w, Front(steps), id, caller) && Last(steps) != Detach(id)) || Grants(w, steps, |steps| - 1, id, caller)
  {
    hide Apply, After, ReplyAt;
    var front, n := Front(steps), |steps| - 1;
    if Owned(w, steps, id, caller) {
      var i :| 0 <= i < |steps| && Grants(w, steps, i, id, caller) && NoDetach(steps, i + 1, id);
      if i < n {
        SamePast(w, steps, i);
        assert Grants(w, front, i, id, caller) && NoDetach(front, i + 1, id);
        assert steps[n] != Detach(id);
      }
    }
    if Owned(w, front, id, caller) && Last(steps) != Detach(id) {
      var i :| 0 <= i < |front| && Grants(w, front, i, id, caller) && NoDetach(front, i + 1, id);
      SamePast(w, steps, i);
      assert Grants(w, steps, i, id, caller) && NoDetach(steps, i + 1, id);
    }
    if Grants(w, steps, n, id, caller) {
      assert NoDetach(steps, n + 1, id);
    }
  }

  lemma {:induction false} OwnersAreTheOwned(info: Info, steps: seq<Step>, id: AttachId, caller: RpcSessionId)
    requires Newborn(info) && Run(Start(info), steps)
    ensures
      var owners := After(Start(info), steps).session.owners;
      (id in owners && owners[id] == caller) <==> Owned(Start(info), steps, id, caller)
    decreases |steps|
  {
    hide Grants, ReplayEvents, DropOld, NoteMetadata;
    if steps != [] {
      var w := After(Start(info), Front(steps));
      OwnersAreTheOwned(info, Front(steps), id, caller);
      OwnedStep(Start(info), steps, id, caller);
      OwnersAreIssued(info, Front(steps));
      OwnersStep(w, Last(steps), id, caller);
      GrantsLast(Start(info), steps, id, caller);
    }
  }

  lemma GrantsLast(w: World, steps: seq<Step>, id: AttachId, caller: RpcSessionId)
    requires steps != []
    ensures Grants(w, steps, |steps| - 1, id, caller) <==>
      (Last(steps).Attach? && Last(steps).id == id && Last(steps).caller == caller
      && Apply(After(w, Front(steps)).session, Last(steps)).reply.Attached?)
  {
    hide Apply, After;
    LastReply(w, steps);
  }

  lemma OwnersAreIssued(info: Info, steps: seq<Step>)
    requires Newborn(info) && Run(Start(info), steps)
    ensures After(Start(info), steps).session.owners.Keys <= After(Start(info), steps).issued
  {
    StartIsConsistent(info);
    ConsistentRun(Start(info), steps);
  }

  lemma OwnersStep(w: World, step: Step, id: AttachId, caller: RpcSessionId)
    requires w.session.owners.Keys <= w.issued && Enabled(w, step)
    ensures
      var owners := Apply(w.session, step).session.owners;
      (id in owners && owners[id] == caller) <==>
        ((id in w.session.owners && w.session.owners[id] == caller && step != Detach(id))
        || (step.Attach? && step.id == id && step.caller == caller && Apply(w.session, step).reply.Attached?))
  {
  }

  // ---------- control ----------

  lemma ControlsStep(w: World, steps: seq<Step>, id: AttachId)
    requires steps != []
    ensures Controls(w, steps, id) <==>
      if Takes(w, steps, |steps| - 1) then Last(steps).id == id else Controls(w, Front(steps), id)
  {
    hide Apply, After, ReplyAt;
    var front, n := Front(steps), |steps| - 1;
    forall k | 0 <= k < n ensures Takes(w, steps, k) == Takes(w, front, k) && steps[k] == front[k] {
      SamePast(w, steps, k);
    }
    if Takes(w, steps, n) {
      assert NoTake(w, steps, n + 1);
    } else {
      if Controls(w, steps, id) {
        var j :| 0 <= j < |steps| && Takes(w, steps, j) && steps[j].id == id && NoTake(w, steps, j + 1);
        assert Takes(w, front, j) && NoTake(w, front, j + 1);
      }
      if Controls(w, front, id) {
        var j :| 0 <= j < |front| && Takes(w, front, j) && front[j].id == id && NoTake(w, front, j + 1);
        assert Takes(w, steps, j) && NoTake(w, steps, j + 1);
      }
    }
  }

  lemma {:induction false} PrimaryIsTheLastTaker(info: Info, steps: seq<Step>, id: AttachId)
    requires Newborn(info)
    ensures After(Start(info), steps).session.info.primary == Some(id) <==> Controls(Start(info), steps, id)
    decreases |steps|
  {
    hide ReplayEvents, DropOld, NoteMetadata, Takes;
    if steps != [] {
      PrimaryIsTheLastTaker(info, Front(steps), id);
      ControlsStep(Start(info), steps, id);
      PrimaryStep(After(Start(info), Front(steps)), Last(steps));
      TakesLast(Start(info), steps);
    }
  }

  lemma TakesLast(w: World, steps: seq<Step>)
    requires steps != []
    ensures Takes(w, steps, |steps| - 1) <==>
      (Last(steps).TakeControl? && Apply(After(w, Front(steps)).session, Last(steps)).reply in {Accepted, ResizeFailed})
  {
    hide Apply, After;
    LastReply(w, steps);
  }

  lemma PrimaryStep(w: World, step: Step)
    ensures
      var o := Apply(w.session, step);
      o.session.info.primary ==
        if step.TakeControl? && o.reply in {Accepted, ResizeFailed} then Some(step.id) else w.session.info.primary
  {
    if step.Output? && Apply(w.session, step).reply == Accepted {
      MetadataKeepsPrimary(
        w.session.info.(latestSeq := SaturatingNext(w.session.info.latestSeq)),
        TerminalParser.Push(w.session.parser, step.bytes).1);
    }
  }

  lemma {:induction false} MetadataKeepsPrimary(info: Info, metadata: seq<TerminalParser.Metadata>)
    ensures NoteMetadata(info, metadata).primary == info.primary
    decreases metadata
  {
    if metadata != [] {
      MetadataKeepsPrimary(NoteOne(info, metadata[0]), metadata[1..]);
    }
  }

  /** In every run, input reaches the terminal exactly from the session that was handed the attach, while it is not
      detached, and only if the last step that took control took it for that attach. */
  lemma InputOnlyFromTheLivePrimary(info: Info, steps: seq<Step>, id: AttachId, caller: RpcSessionId,
                                    bytes: seq<byte>, failedAfter: Option<nat>)
    requires Newborn(info) && Run(Start(info), steps)
    ensures Apply(After(Start(info), steps).session, WriteInput(id, caller, bytes, failedAfter)).reply
        in {Accepted, WriteFailed}
      <==> Owned(Start(info), steps, id, caller) && Controls(Start(info), steps, id)
  {
    OwnersAreTheOwned(info, steps, id, caller);
    PrimaryIsTheLastTaker(info, steps, id);
  }

  /** At most one attach of at most one session is accepted at any moment. */
  lemma OneWriter(s: Session, id: AttachId, caller: RpcSessionId, other: AttachId, another: RpcSessionId,
                  bytes: seq<byte>, failedAfter: Option<nat>)
    requires Apply(s, WriteInput(id, caller, bytes, failedAfter)).reply in {Accepted, WriteFailed}
    requires Apply(s, WriteInput(other, another, bytes, failedAfter)).reply in {Accepted, WriteFailed}
    ensures id == other && caller == another
  {
  }

  lemma DetachedStep(w: World, step: Step, id: AttachId)
    requires id in w.issued && id !in w.session.owners && Enabled(w, step)
    ensures id in Advance(w, step).issued && id !in Advance(w, step).session.owners
  {
    hide ReplayEvents, DropOld, NoteMetadata, TerminalParser.Push;
  }

  lemma {:induction false} StaysDetached(w: World, steps: seq<Step>, id: AttachId)
    requires id in w.issued && id !in w.session.owners && Run(w, steps)
    ensures id in After(w, steps).issued && id !in After(w, steps).session.owners
    decreases |steps|
  {
    if steps != [] {
      StaysDetached(w, Front(steps), id);
      DetachedStep(After(w, Front(steps)), Last(steps), id);
      hide Advance, Apply, Enabled;
    }
  }

  /** Once detached, an attach id never takes control or types again, whoever presents it. */
  lemma DetachIsForever(info: Info, before: seq<Step>, w: World, id: AttachId, steps: seq<Step>,
                        caller: RpcSessionId, bytes: seq<byte>, failedAfter: Option<nat>,
                        cols: nat, rows: nat, resized: bool)
    requires Reached(info, before, w) && id in w.issued && Run(Advance(w, Detach(id)), steps)
    ensures
      var s := After(Advance(w, Detach(id)), steps).session;
      && Apply(s, WriteInput(id, caller, bytes, failedAfter)).reply == AttachNotFound
      && Apply(s, TakeControl(id, caller, cols, rows, resized)).session == s
      && Apply(s, TakeControl(id, caller, cols, rows, resized)).reply in {AttachNotFound, SizeInvalid}
  {
    StaysDetached(Advance(w, Detach(id)), steps, id);
  }

  // ---------- exit and close ----------

  /** In every run there is at most one exit event and one close event, and after the close nothing but
      control and size changes of operations that were already under way. */
  lemma ExitAndCloseOnce(info: Info, steps: seq<Step>)
    requires Newborn(info) && Run(Start(info), steps)
    ensures
      var log := After(Start(info), steps).log;
      && (forall i, j | 0 <= i < j < |log| && log[i].SessionExited? :: !log[j].SessionExited?)
      && (forall i, j | 0 <= i < j < |log| && log[i].SessionClosed? ::
        log[j].ControlChanged? || log[j].PseudoTerminalResized?)
  {
    StartIsConsistent(info);
    ConsistentRun(Start(info), steps);
  }

  lemma RemovedStep(w: World, step: Step)
    requires w.session.removed
    ensures Advance(w, step).session.removed && Apply(Advance(w, step).session, Remove).reply == NotFound
  {
    hide ReplayEvents, DropOld, NoteMetadata, TerminalParser.Push;
  }

  /** Removing the session from the table succeeds once, so one operation closes it. */
  lemma {:induction false} RemovedOnce(w: World, steps: seq<Step>)
    requires w.session.removed
    ensures After(w, steps).session.removed
    ensures Apply(After(w, steps).session, Remove).reply == NotFound
    decreases |steps|
  {
    if steps != [] {
      RemovedOnce(w, Front(steps));
      RemovedStep(After(w, Front(steps)), Last(steps));
      hide Advance, Apply;
    }
  }
}
