/** What a terminal session guarantees over every run. */
module TerminalTheorems {
  import opened Wrappers
  import opened Bytes
  import opened TerminalParser
  import opened Terminal
  import opened TerminalRuns

  // ---------- retention ----------

  /** At every moment of every run the retained output is the longest suffix of everything recorded that
      fits in the limit, and the byte counter is its size. */
  lemma RetainedOutput(info: Info, steps: seq<Step>)
    requires Newborn(info) && Run(Start(info), steps)
    ensures
      var w := After(Start(info), steps);
      && LongestSuffixThatFits(w.history, w.session.output)
      && w.session.retained == Total(w.session.output)
  {
    StartIsConsistent(info);
    ConsistentRun(Start(info), steps);
  }

  /** Sequence numbers are consecutive from one exactly while the 64-bit counter has not run out. */
  lemma OutputIsNumbered(info: Info, steps: seq<Step>)
    requires Newborn(info) && Run(Start(info), steps)
    ensures
      var w := After(Start(info), steps);
      && (Numbered(w.history) <==> |w.history| <= U64_MAX as nat)
      && (Numbered(w.history) ==> w.session.info.latestSeq as nat == |w.history|)
  {
    StartIsConsistent(info);
    ConsistentRun(Start(info), steps);
    var h := After(Start(info), steps).history;
    if |h| > U64_MAX as nat {
      assert h[U64_MAX as nat].seqNo == U64_MAX;
    }
  }

  // ---------- delivery ----------

  /** The index in the history of the first record a new attach is given. */
  function DeliveryStart(w: World, afterSeq: Option<u64>): (start: nat)
    requires |w.session.output| <= |w.history|
    ensures start <= |w.history|
  {
    var oldest := |w.history| - |w.session.output|;
    match afterSeq
    case None => oldest
    case Some(n) =>
      if n as nat <= oldest then oldest else Min(n as nat, |w.history|)
  }

  /** How many of `count` records numbered from `first` on the client has seen. */
  function Skipped(first: nat, count: nat, afterSeq: Option<u64>): (n: nat)
    ensures n <= count
  {
    match afterSeq
    case None => 0
    case Some(n) => if n as nat < first then 0 else Min(n as nat - first + 1, count)
  }

  lemma {:induction false} NewerIsSuffix(records: seq<Record>, first: nat, afterSeq: Option<u64>)
    requires forall i | 0 <= i < |records| :: records[i].seqNo as nat == first + i
    ensures Newer(records, afterSeq) == records[Skipped(first, |records|, afterSeq)..]
  {
    if records != [] {
      NewerIsSuffix(records[1..], first + 1, afterSeq);
    }
  }

  lemma OutputIsNumberedSuffix(history: seq<Record>, output: seq<Record>)
    requires Numbered(history) && LongestSuffixThatFits(history, output)
    ensures |output| <= |history|
    ensures forall i | 0 <= i < |output| ::
      output[i] == history[|history| - |output| + i] && output[i].seqNo as nat == |history| - |output| + 1 + i
  {
    hide Total;
  }

  lemma NewerFromStart(w: World, afterSeq: Option<u64>)
    requires Consistent(w) && Numbered(w.history) && w.session.output != []
    ensures Newer(w.session.output, afterSeq) == w.history[DeliveryStart(w, afterSeq)..]
  {
    hide Newer, Chunks, Counted, Total, ClosedOnce, ExitedOnce, Numbered;
    var output := w.session.output;
    OutputIsNumberedSuffix(w.history, output);
    NewerIsSuffix(output, |w.history| - |output| + 1, afterSeq);
    OutputIsSuffix(w);
    hide LongestSuffixThatFits, Consistent;
    var oldest, start := |w.history| - |output|, DeliveryStart(w, afterSeq);
    assert start == oldest + Skipped(oldest + 1, |output|, afterSeq);
    hide DeliveryStart, Skipped;
    DropDrop(w.history, oldest, start - oldest);
  }

  /** The notice that the next record wanted is no longer retained. */
  function GapNotice(w: World, afterSeq: Option<u64>): (events: seq<Event>)
    ensures |events| <= 1 && forall i | 0 <= i < |events| :: events[i].HistoryGap?
  {
    var output := w.session.output;
    if output != [] && afterSeq.Some? && (afterSeq.value as nat) < |w.history| - |output|
    then [HistoryGap(output[0].seqNo)] else []
  }

  /** The replay: a gap notice exactly when the next record wanted is no longer retained, then the retained
      records from the first one wanted. */
  lemma ReplayIsSuffix(w: World, afterSeq: Option<u64>)
    requires Consistent(w) && Numbered(w.history)
    ensures ReplayEvents(w.session.output, afterSeq) ==
      GapNotice(w, afterSeq) + AsChunks(w.history[DeliveryStart(w, afterSeq)..])
  {
    hide Newer, Chunks, Counted, Total, ClosedOnce, ExitedOnce, Numbered, LongestSuffixThatFits;
    if w.session.output != [] {
      OutputIsNumberedSuffix(w.history, w.session.output);
      NewerFromStart(w, afterSeq);
      hide DeliveryStart;
    } else {
      assert w.history[DeliveryStart(w, afterSeq)..] == [];
    }
  }

  lemma AttachReplays(w: World, attach: Step)
    requires Consistent(w) && Numbered(w.history)
    requires attach.Attach? && Apply(w.session, attach).reply.Attached?
    ensures Apply(w.session, attach).reply.replay ==
      GapNotice(w, attach.afterSeq) + AsChunks(w.history[DeliveryStart(w, attach.afterSeq)..])
    ensures Advance(w, attach).history == w.history && Advance(w, attach).log == w.log
  {
    hide Consistent, ReplayEvents, GapNotice, Numbered;
    ReplayIsSuffix(w, attach.afterSeq);
  }

  /** What a receiver sees that subscribed in state `w` and kept up for the steps that follow. */
  function Live(w: World, steps: seq<Step>): (events: seq<Event>)
  {
    After(w, steps).log[Min(|w.log|, |After(w, steps).log|)..]
  }

  lemma {:induction false} LogGrows(w: World, steps: seq<Step>)
    ensures |w.log| <= |After(w, steps).log| && After(w, steps).log == w.log + Live(w, steps)
    ensures |w.history| <= |After(w, steps).history| && w.history == After(w, steps).history[..|w.history|]
    ensures w.issued <= After(w, steps).issued
    decreases |steps|
  {
    if steps != [] {
      LogGrows(w, Front(steps));
      StepGrows(After(w, Front(steps)), Last(steps));
      hide Advance;
      var before, now := After(w, Front(steps)), After(w, steps);
      assert now.log[..|w.log|] == before.log[..|w.log|] == w.log;
      assert now.history[..|w.history|] == before.history[..|w.history|];
    }
  }

  lemma StepGrows(w: World, step: Step)
    ensures w.log <= Advance(w, step).log && w.history <= Advance(w, step).history
    ensures w.issued <= Advance(w, step).issued
  {
    hide Apply;
  }

  lemma {:induction false} ChunksOfGaps(events: seq<Event>, records: seq<Record>)
    requires forall i | 0 <= i < |events| :: events[i].HistoryGap?
    ensures Chunks(events + AsChunks(records)) == AsChunks(records)
  {
    NoChunks(events);
    ChunksOfConcat(events, AsChunks(records));
    ChunksOfChunks(records);
    assert [] + AsChunks(records) == AsChunks(records);
  }

  lemma ChunksSplit(earlier: seq<Event>, live: seq<Event>, history: seq<Record>, n: nat)
    requires n <= |history|
    requires Chunks(earlier) == AsChunks(history[..n]) && Chunks(earlier + live) == AsChunks(history)
    ensures Chunks(live) == AsChunks(history[n..])
  {
    hide Chunks, AsChunks;
    ChunksOfConcat(earlier, live);
    AsChunksOfConcat(history[..n], history[n..]);
    assert history[..n] + history[n..] == history;
    CancelFront(AsChunks(history[..n]), Chunks(live), AsChunks(history[n..]));
  }

  lemma LiveChunks(w: World, steps: seq<Step>)
    requires Consistent(w) && Run(w, steps)
    ensures |w.history| <= |After(w, steps).history|
    ensures w.history == After(w, steps).history[..|w.history|]
    ensures Chunks(Live(w, steps)) == AsChunks(After(w, steps).history[|w.history|..])
  {
    hide LongestSuffixThatFits, Counted, Total, ClosedOnce, ExitedOnce, Advance, Chunks, Live;
    ConsistentRun(w, steps);
    LogGrows(w, steps);
    ChunksSplit(w.log, Live(w, steps), After(w, steps).history, |w.history|);
  }

  /** Everything an attached client receives: the replay it was handed, then what is broadcast. */
  function Received(w: World, attach: Step, steps: seq<Step>): (events: seq<Event>)
    requires attach.Attach? && Apply(w.session, attach).reply.Attached?
  {
    Apply(w.session, attach).reply.replay + Live(Advance(w, attach), steps)
  }

  function Gaps(events: seq<Event>): (gaps: seq<Event>) {
    if events == [] then []
    else (if events[0].HistoryGap? then [events[0]] else []) + Gaps(events[1..])
  }

  lemma {:induction false} GapsOfConcat(a: seq<Event>, b: seq<Event>)
    ensures Gaps(a + b) == Gaps(a) + Gaps(b)
  {
    if a == [] {
      assert a + b == b;
    } else {
      assert (a + b)[1..] == a[1..] + b;
      GapsOfConcat(a[1..], b);
      Regroup(if a[0].HistoryGap? then [a[0]] else [], Gaps(a[1..]), Gaps(b));
    }
  }

  lemma {:induction false} NoGaps(events: seq<Event>)
    requires forall i | 0 <= i < |events| :: !events[i].HistoryGap?
    ensures Gaps(events) == []
  {
    if events != [] {
      NoGaps(events[1..]);
    }
  }

  lemma {:induction false} NothingLiveIsAGap(w: World, steps: seq<Step>)
    requires forall i | 0 <= i < |w.log| :: !w.log[i].HistoryGap?
    ensures forall i | 0 <= i < |After(w, steps).log| :: !After(w, steps).log[i].HistoryGap?
    decreases |steps|
  {
    hide Push, NoteMetadata, DropOld, Newer;
    if steps != [] {
      NothingLiveIsAGap(w, Front(steps));
    }
  }

  lemma LiveHasNoGaps(w: World, steps: seq<Step>)
    requires forall i | 0 <= i < |w.log| :: !w.log[i].HistoryGap?
    ensures Gaps(Live(w, steps)) == []
  {
    hide Apply, Advance;
    NothingLiveIsAGap(w, steps);
    NoGaps(Live(w, steps));
  }

  /** A world that some run from a new session leads to. */
  ghost predicate Reached(info: Info, steps: seq<Step>, w: World) {
    Newborn(info) && Run(Start(info), steps) && w == After(Start(info), steps)
  }

  lemma ReachedIsConsistent(info: Info, before: seq<Step>, w: World)
    requires Reached(info, before, w)
    ensures Consistent(w)
    ensures forall i | 0 <= i < |w.log| :: !w.log[i].HistoryGap?
  {
    StartIsConsistent(info);
    ConsistentRun(Start(info), before);
    NothingLiveIsAGap(Start(info), before);
  }

  /** An accepted attach at any moment of any run: the replay followed by what is broadcast carries exactly
      the records from its starting point on, each once and in order, whatever happens afterwards. */
  lemma AttachDelivers(info: Info, before: seq<Step>, w: World, attach: Step, steps: seq<Step>)
    requires Reached(info, before, w) && Numbered(w.history)
    requires attach.Attach? && Apply(w.session, attach).reply.Attached?
    requires Enabled(w, attach) && Run(Advance(w, attach), steps)
    ensures
      var end := After(Advance(w, attach), steps);
      && |w.session.output| <= |w.history| <= |end.history|
      && Chunks(Received(w, attach, steps)) == AsChunks(end.history[DeliveryStart(w, attach.afterSeq)..])
  {
    hide LongestSuffixThatFits, Counted, Chunks, ClosedOnce, ExitedOnce, Total, Live, Apply, Advance, GapNotice;
    ReachedIsConsistent(info, before, w);
    OutputIsSuffix(w);
    ConsistentStep(w, attach);
    LiveChunks(Advance(w, attach), steps);
    AttachReplays(w, attach);
    var history, start := After(Advance(w, attach), steps).history, DeliveryStart(w, attach.afterSeq);
    ChunksOfGaps(GapNotice(w, attach.afterSeq), w.history[start..]);
    ChunksOfConcat(Apply(w.session, attach).reply.replay, Live(Advance(w, attach), steps));
    JoinedChunks(history, |w.history|, start);
  }

  lemma OutputIsSuffix(w: World)
    requires Consistent(w)
    ensures |w.session.output| <= |w.history|
    ensures w.session.output == w.history[|w.history| - |w.session.output|..]
  {
    hide Counted, Chunks, ClosedOnce, ExitedOnce, Total;
  }

  lemma JoinedChunks(history: seq<Record>, n: nat, start: nat)
    requires start <= n <= |history|
    ensures AsChunks(history[..n][start..]) + AsChunks(history[n..]) == AsChunks(history[start..])
  {
  }

  /** At most one gap notice is ever sent.  It is sent exactly when records that the client asked for are no
      longer retained while later ones are, and it names the first record that is delivered. */
  lemma GapIsAnnouncedOnce(info: Info, before: seq<Step>, w: World, attach: Step, steps: seq<Step>)
    requires Reached(info, before, w) && Numbered(w.history)
    requires attach.Attach? && Apply(w.session, attach).reply.Attached?
    requires Enabled(w, attach) && Run(Advance(w, attach), steps)
    ensures
      && |w.session.output| <= |w.history|
      && var start := DeliveryStart(w, attach.afterSeq);
      && Gaps(Received(w, attach, steps)) ==
        (if attach.afterSeq.Some? && (attach.afterSeq.value as nat) < start < |w.history|
         then [HistoryGap(w.history[start].seqNo)] else [])
  {
    hide LongestSuffixThatFits, Counted, Chunks, ClosedOnce, ExitedOnce, Total, Live, Apply, Advance, Gaps, Numbered;
    ReachedIsConsistent(info, before, w);
    OutputIsSuffix(w);
    AttachReplays(w, attach);
    LiveHasNoGaps(Advance(w, attach), steps);
    var chunks := AsChunks(w.history[DeliveryStart(w, attach.afterSeq)..]);
    NoGaps(chunks);
    GapsOfConcat(GapNotice(w, attach.afterSeq), chunks);
    GapsOfConcat(Apply(w.session, attach).reply.replay, Live(Advance(w, attach), steps));
    GapsOfNotice(w, attach.afterSeq);
  }

  lemma GapsOfNotice(w: World, afterSeq: Option<u64>)
    ensures Gaps(GapNotice(w, afterSeq)) == GapNotice(w, afterSeq)
  {
    var notice := GapNotice(w, afterSeq);
    assert notice != [] ==> notice[1..] == [];
  }

  lemma NothingFitsMeansLastIsTooLong(history: seq<Record>, output: seq<Record>)
    requires LongestSuffixThatFits(history, output) && history != []
    ensures output == [] <==> |Last(history).bytes| > TERMINAL_OUTPUT_RETENTION_BYTES
  {
    var last := history[|history| - 1..];
    assert last == [Last(history)] && last[1..] == [];
    assert Total(last) == |Last(history).bytes|;
    if output != [] {
      TotalOfConcat(output[..|output| - 1], last);
      assert output == output[..|output| - 1] + last;
    }
  }

  /** A hole in what a client receives goes unannounced exactly when the newest record alone is over the
      limit, so that nothing is retained, and the client has not seen that record. */
  lemma SilentHoleExactly(info: Info, before: seq<Step>, w: World, attach: Step, steps: seq<Step>)
    requires Reached(info, before, w) && Numbered(w.history)
    requires attach.Attach? && Apply(w.session, attach).reply.Attached?
    requires Enabled(w, attach) && Run(Advance(w, attach), steps)
    ensures
      && |w.session.output| <= |w.history|
      && ((attach.afterSeq.Some? && (attach.afterSeq.value as nat) < DeliveryStart(w, attach.afterSeq)
            && Gaps(Received(w, attach, steps)) == [])
          <==> (attach.afterSeq.Some? && attach.afterSeq.value < w.session.info.latestSeq
            && w.history != [] && |Last(w.history).bytes| > TERMINAL_OUTPUT_RETENTION_BYTES))
  {
    hide Chunks, Live, Apply, Advance, Received, Gaps, Total, ClosedOnce, ExitedOnce, Reached, Run;
    GapIsAnnouncedOnce(info, before, w, attach, steps);
    ReachedIsConsistent(info, before, w);
    OutputIsSuffix(w);
    if w.history != [] {
      NothingFitsMeansLastIsTooLong(w.history, w.session.output);
    }
    hide LongestSuffixThatFits;
  }

  /** The unannounced hole, on a concrete run: one chunk over the limit, then an attach that has seen none. */
  lemma SilentHoleExample(info: Info, bytes: seq<byte>)
    requires Newborn(info) && |bytes| == TERMINAL_OUTPUT_RETENTION_BYTES + 1
    ensures
      var w := After(Start(info), [Output(bytes)]);
      && Run(Start(info), [Output(bytes)])
      && w.session.info.latestSeq == 1
      && Apply(w.session, Attach(0, 0, 80, 24, Some(0))).reply == Attached(w.session.info, [])
  {
    var steps := [Output(bytes)];
    assert Front(steps) == [] && Last(steps) == Output(bytes);
    assert After(Start(info), Front(steps)) == Start(info);
    assert Run(Start(info), Front(steps)) && Enabled(Start(info), Output(bytes));
    InfoAfterOutput(Start(info).session, bytes);
    assert DropOld([Record(1, bytes)], |bytes|) == ([], 0) by {
      assert [Record(1, bytes)][1..] == [];
    }
    assert [] + [Record(1, bytes)] == [Record(1, bytes)];
  }

  /** The largest read from the pseudo-terminal. */
  const READ_SIZE: nat := 8192

  lemma {:induction false} ChunksAreSmall(w: World, steps: seq<Step>)
    requires forall i | 0 <= i < |w.history| :: |w.history[i].bytes| <= READ_SIZE
    requires forall i | 0 <= i < |steps| && steps[i].Output? :: |steps[i].bytes| <= READ_SIZE
    ensures forall i | 0 <= i < |After(w, steps).history| :: |After(w, steps).history[i].bytes| <= READ_SIZE
    decreases |steps|
  {
    hide Apply;
    if steps != [] {
      ChunksAreSmall(w, Front(steps));
    }
  }

  /** Since the reader never passes on more than `READ_SIZE` bytes at once, every hole is announced. */
  lemma NoSilentHole(info: Info, before: seq<Step>, w: World, attach: Step, steps: seq<Step>)
    requires Reached(info, before, w) && Numbered(w.history)
    requires forall i | 0 <= i < |before| && before[i].Output? :: |before[i].bytes| <= READ_SIZE
    requires attach.Attach? && Apply(w.session, attach).reply.Attached?
    requires Enabled(w, attach) && Run(Advance(w, attach), steps)
    ensures
      && |w.session.output| <= |w.history|
      && ((attach.afterSeq.Some? && (attach.afterSeq.value as nat) < DeliveryStart(w, attach.afterSeq))
          <==> Gaps(Received(w, attach, steps)) != [])
  {
    SilentHoleExactly(info, before, w, attach, steps);
    GapIsAnnouncedOnce(info, before, w, attach, steps);
    ReachedIsConsistent(info, before, w);
    hide Total, ClosedOnce, ExitedOnce, Chunks, Live, Apply, Advance, Received;
    ChunksAreSmall(Start(info), before);
  }

  // ---------- event sourcing ----------

  /** What a client makes of an event. */
  function Absorb(info: Info, event: Event): (next: Info) {
    match event
    case OutputChunk(seqNo, _) => info.(latestSeq := seqNo)
    case HistoryGap(_) => info
    case TitleChanged(title) => info.(title := Some(title))
    case WorkingDirectoryChanged(cwd) => info.(cwd := Some(cwd))
    case ControlChanged(id) => info.(primary := Some(id))
    case PseudoTerminalResized(cols, rows) => info.(cols := cols, rows := rows)
    case SessionExited(exit) => info.(exit := Some(exit))
    case SessionClosed => info
  }

  function Fold(info: Info, events: seq<Event>): (next: Info)
    decreases |events|
  {
    if events == [] then info else Fold(Absorb(info, events[0]), events[1..])
  }

  lemma {:induction false} FoldOfConcat(info: Info, a: seq<Event>, b: seq<Event>)
    ensures Fold(info, a + b) == Fold(Fold(info, a), b)
    decreases |a|
  {
    if a == [] {
      assert a + b == b;
    } else {
      assert (a + b)[1..] == a[1..] + b;
      FoldOfConcat(Absorb(info, a[0]), a[1..], b);
    }
  }

  lemma {:induction false} FoldOfMetadata(info: Info, metadata: seq<Metadata>)
    ensures Fold(info, MetadataEvents(metadata)) == NoteMetadata(info, metadata)
    decreases |metadata|
  {
    if metadata != [] {
      assert MetadataEvents(metadata)[1..] == MetadataEvents(metadata[1..]);
      FoldOfMetadata(NoteOne(info, metadata[0]), metadata[1..]);
    }
  }

  /** The terminal refuses the resize of a takeover that passed every check and had something to change. */
  predicate SilentChange(s: Session, step: Step) {
    && step.TakeControl?
    && ValidSize(step.cols, step.rows)
    && OwnerError(s.owners, step.id, step.caller).None?
    && !step.resized
    && (s.info.primary, s.info.cols, s.info.rows) != (Some(step.id), step.cols, step.rows)
  }

  /** One section's broadcast tells the whole change, unless a resize failed. */
  lemma StepIsToldExactly(s: Session, step: Step)
    ensures
      var o := Apply(s, step);
      Fold(s.info, o.events) == o.session.info <==> !SilentChange(s, step)
  {
    var o := Apply(s, step);
    match step
    case Output(bytes) =>
      if o.reply == Accepted {
        var info := s.info.(latestSeq := SaturatingNext(s.info.latestSeq));
        var (_, metadata) := Push(s.parser, bytes);
        FoldOfMetadata(info, metadata);
        assert o.events[1..] == MetadataEvents(metadata);
      }
    case TakeControl(id, _, cols, rows, _) =>
      if o.reply == Accepted {
        var control := if s.info.primary != Some(id) then [ControlChanged(id)] else [];
        var size := if (s.info.cols, s.info.rows) != (cols, rows) then [PseudoTerminalResized(cols, rows)] else [];
        assert o.events == control + size;
        FoldOfConcat(s.info, control, size);
        FoldOfOne(s.info, ControlChanged(id));
        FoldOfOne(s.info.(primary := Some(id)), PseudoTerminalResized(cols, rows));
      }
    case Exited(exit) =>
      FoldOfOne(s.info, SessionExited(exit));
    case FinishClose =>
      FoldOfOne(s.info, SessionClosed);
    case _ =>
  }

  lemma FoldOfOne(info: Info, event: Event)
    ensures Fold(info, [event]) == Absorb(info, event)
  {
    assert [event][1..] == [];
  }

  /** A client that folds the live events over the session info it was given holds the server's info at
      every point of the run. */
  ghost predicate Follows(w: World, steps: seq<Step>) {
    forall k | 0 <= k <= |steps| :: Fold(w.session.info, Live(w, steps[..k])) == After(w, steps[..k]).session.info
  }

  ghost predicate NothingSilent(w: World, steps: seq<Step>) {
    forall k | 0 <= k < |steps| :: !SilentChange(After(w, steps[..k]).session, steps[k])
  }

  lemma LiveGrows(w: World, steps: seq<Step>)
    requires steps != []
    ensures Live(w, steps) == Live(w, Front(steps)) + Apply(After(w, Front(steps)).session, Last(steps)).events
  {
    hide Apply;
    LogGrows(w, Front(steps));
    LogGrows(w, steps);
    var events := Apply(After(w, Front(steps)).session, Last(steps)).events;
    hide Advance, Live;
    Regroup(w.log, Live(w, Front(steps)), events);
    CancelFront(w.log, Live(w, steps), Live(w, Front(steps)) + events);
  }

  lemma CancelFront(front: seq<Event>, a: seq<Event>, b: seq<Event>)
    requires front + a == front + b
    ensures a == b
  {
    assert a == (front + a)[|front|..] == (front + b)[|front|..] == b;
  }

  lemma FollowsOneMore(w: World, steps: seq<Step>)
    requires steps != [] && Follows(w, Front(steps))
    ensures
      Fold(w.session.info, Live(w, steps)) == After(w, steps).session.info
      <==> !SilentChange(After(w, Front(steps)).session, Last(steps))
  {
    var front := Front(steps);
    assert front[..|front|] == front;
    LiveGrows(w, steps);
    var before := After(w, front);
    FoldOfConcat(w.session.info, Live(w, front), Apply(before.session, Last(steps)).events);
    StepIsToldExactly(before.session, Last(steps));
    hide Apply, SilentChange, Live, Fold;
  }

  lemma FollowsPrefix(w: World, steps: seq<Step>)
    requires steps != []
    ensures Follows(w, steps) <==>
      Follows(w, Front(steps)) && Fold(w.session.info, Live(w, steps)) == After(w, steps).session.info
  {
    hide Apply, Advance, Live, Fold, After;
    var front := Front(steps);
    assert steps[..|steps|] == steps;
    forall k | 0 <= k <= |front| ensures steps[..k] == front[..k] { }
  }

  lemma NothingSilentPrefix(w: World, steps: seq<Step>)
    requires steps != []
    ensures NothingSilent(w, steps) <==>
      NothingSilent(w, Front(steps)) && !SilentChange(After(w, Front(steps)).session, Last(steps))
  {
    hide Apply, Advance, SilentChange, After;
    var front := Front(steps);
    assert steps[..|front|] == front;
    forall k | 0 <= k < |front| ensures steps[..k] == front[..k] && steps[k] == front[k] { }
  }

  /** The client follows the session at every point of every run exactly when no resize failed with
      something to change. */
  lemma {:induction false} ClientFollowsSession(w: World, steps: seq<Step>)
    ensures Follows(w, steps) <==> NothingSilent(w, steps)
    decreases |steps|
  {
    hide Apply, Advance, SilentChange;
    if steps == [] {
      assert steps[..0] == [];
    } else {
      ClientFollowsSession(w, Front(steps));
      FollowsPrefix(w, steps);
      NothingSilentPrefix(w, steps);
      if Follows(w, Front(steps)) {
        FollowsOneMore(w, steps);
      }
    }
  }

  /** A client that attaches to a new session and takes control, where the terminal refuses the resize: the
      session has a new primary attach and size, and the client was told nothing. */
  lemma SilentChangeExample(info: Info)
    requires Newborn(info)
    ensures
      var w := After(Start(info), [Attach(0, 7, 80, 24, None)]);
      var takeover := [TakeControl(0, 7, 100, 30, false)];
      && Run(Start(info), [Attach(0, 7, 80, 24, None)]) && Run(w, takeover)
      && Live(w, takeover) == []
      && After(w, takeover).session.info == w.session.info.(primary := Some(0), cols := 100, rows := 30)
      && Fold(w.session.info, Live(w, takeover)) != After(w, takeover).session.info
  {
    var attach, takeover := Attach(0, 7, 80, 24, None), TakeControl(0, 7, 100, 30, false);
    AfterOne(Start(info), attach);
    var w := After(Start(info), [attach]);
    AfterOne(w, takeover);
    assert w.session.owners[0] == 7;
    assert Apply(w.session, takeover).reply == ResizeFailed;
    assert After(w, [takeover]).log == w.log;
  }

  lemma AfterOne(w: World, step: Step)
    ensures After(w, [step]) == Advance(w, step)
    ensures Run(w, [step]) <==> Enabled(w, step)
  {
    assert Front([step]) == [] && Last([step]) == step;
    assert After(w, []) == w && Run(w, []);
  }
}
