/** Whole runs of one terminal session: every interleaving of its critical sections. */
module TerminalRuns {
  import opened Wrappers
  import opened Bytes
  import opened TerminalParser
  import opened Terminal

  /** A session together with what happened to it: everything broadcast, everything recorded, and the
      attach ids handed out. */
  datatype World = World(session: Session, log: seq<Event>, history: seq<Record>, issued: set<AttachId>)

  function Start(info: Info): (w: World) {
    World(Session(info, [], 0, Normal, map[], false, false), [], [], {})
  }

  /** A session as `create` makes it. */
  predicate Newborn(info: Info) {
    info.latestSeq == 0 && info.exit.None? && info.primary.None?
  }

  /** What can happen: attach ids are not reused, and only the one operation that removed the session
      from the table closes it, once. */
  predicate Enabled(w: World, step: Step) {
    match step
    case Attach(id, _, _, _, _) => id !in w.issued
    case FinishClose => w.session.removed && !w.session.closed
    case _ => true
  }

  function Advance(w: World, step: Step): (next: World) {
    var o := Apply(w.session, step);
    World(
      o.session,
      w.log + o.events,
      if step.Output? && o.reply == Accepted
      then w.history + [Record(o.session.info.latestSeq, step.bytes)] else w.history,
      if step.Attach? then w.issued + {step.id} else w.issued)
  }

  function After(w: World, steps: seq<Step>): (next: World)
    decreases |steps|
  {
    if steps == [] then w else Advance(After(w, Front(steps)), Last(steps))
  }

  /** Every step of the run was possible when it was taken. */
  predicate Run(w: World, steps: seq<Step>)
    decreases |steps|
  {
    steps == [] || (Run(w, Front(steps)) && Enabled(After(w, Front(steps)), Last(steps)))
  }

  lemma {:induction false} RunOfConcat(w: World, a: seq<Step>, b: seq<Step>)
    ensures After(w, a + b) == After(After(w, a), b)
    ensures Run(w, a + b) <==> Run(w, a) && Run(After(w, a), b)
    decreases |b|
  {
    if b == [] {
      assert a + b == a;
    } else {
      assert Front(a + b) == a + Front(b);
      RunOfConcat(w, a, Front(b));
    }
  }

  function ReplyAt(w: World, steps: seq<Step>, k: nat): (reply: Reply)
    requires k < |steps|
  {
    Apply(After(w, steps[..k]).session, steps[k]).reply
  }

  // ---------- retention ----------

  function Total(records: seq<Record>): (n: nat) {
    if records == [] then 0 else |records[0].bytes| + Total(records[1..])
  }

  lemma {:induction false} TotalOfConcat(a: seq<Record>, b: seq<Record>)
    ensures Total(a + b) == Total(a) + Total(b)
  {
    if a == [] {
      assert a + b == b;
    } else {
      assert (a + b)[1..] == a[1..] + b;
      TotalOfConcat(a[1..], b);
    }
  }

  lemma TotalOfGrown(records: seq<Record>, record: Record)
    ensures Total(records + [record]) == Total(records) + |record.bytes|
  {
    TotalOfConcat(records, [record]);
  }

  /** `output` is the longest suffix of `history` whose bytes total at most the retention limit. */
  ghost predicate LongestSuffixThatFits(history: seq<Record>, output: seq<Record>) {
    && |output| <= |history|
    && output == history[|history| - |output|..]
    && Total(output) <= TERMINAL_OUTPUT_RETENTION_BYTES
    && forall from | 0 <= from < |history| - |output| :: Total(history[from..]) > TERMINAL_OUTPUT_RETENTION_BYTES
  }

  lemma DropOldUnfolds(output: seq<Record>)
    ensures DropOld(output, Total(output)) ==
      if Total(output) > TERMINAL_OUTPUT_RETENTION_BYTES && output != [] then DropOld(output[1..], Total(output[1..]))
      else (output, Total(output))
  {
  }

  lemma WholeFits(output: seq<Record>)
    requires Total(output) <= TERMINAL_OUTPUT_RETENTION_BYTES
    ensures LongestSuffixThatFits(output, output)
  {
    hide Total;
    assert output[0..] == output;
  }

  lemma {:induction false} DropOldStopsFirst(output: seq<Record>)
    ensures
      var (kept, retained) := DropOld(output, Total(output));
      && retained == Total(kept)
      && LongestSuffixThatFits(output, kept)
  {
    DropOldUnfolds(output);
    assert Total([]) == 0;
    hide DropOld, Total, LongestSuffixThatFits;
    if Total(output) > TERMINAL_OUTPUT_RETENTION_BYTES && output != [] {
      var rest := output[1..];
      DropOldStopsFirst(rest);
      assert output[0..] == output && output[|output| - |rest|..] == rest;
      LongestSuffixOfSuffix(output, rest, DropOld(rest, Total(rest)).0);
    } else {
      WholeFits(output);
    }
  }

  /** Dropping more from the front of a list that already had a front dropped. */
  lemma {:induction false} LongestSuffixOfSuffix(all: seq<Record>, grown: seq<Record>, kept: seq<Record>)
    requires |grown| <= |all| && grown == all[|all| - |grown|..]
    requires LongestSuffixThatFits(grown, kept)
    requires forall from | 0 <= from < |all| - |grown| :: Total(all[from..]) > TERMINAL_OUTPUT_RETENTION_BYTES
    ensures LongestSuffixThatFits(all, kept)
  {
    hide Total;
    var hidden := |all| - |grown|;
    assert kept == all[|all| - |kept|..];
    forall from | hidden <= from < |all| - |kept|
      ensures Total(all[from..]) > TERMINAL_OUTPUT_RETENTION_BYTES
    {
      assert all[from..] == grown[from - hidden..];
    }
  }

  lemma RetentionStep(history: seq<Record>, output: seq<Record>, record: Record)
    requires LongestSuffixThatFits(history, output)
    ensures
      var (kept, retained) := DropOld(output + [record], Total(output) + |record.bytes|);
      retained == Total(kept) && LongestSuffixThatFits(history + [record], kept)
  {
    hide Total, DropOld, LongestSuffixThatFits;
    var grown, all := output + [record], history + [record];
    TotalOfGrown(output, record);
    DropOldStopsFirst(grown);
    GrownSuffix(history, output, record);
    LongestSuffixOfSuffix(all, grown, DropOld(grown, Total(grown)).0);
  }

  lemma GrownSuffix(history: seq<Record>, output: seq<Record>, record: Record)
    requires LongestSuffixThatFits(history, output)
    ensures |output| <= |history| && (history + [record])[|history| - |output|..] == output + [record]
    ensures forall from | 0 <= from < |history| - |output| ::
      Total((history + [record])[from..]) > TERMINAL_OUTPUT_RETENTION_BYTES
  {
    hide Total;
    forall from | 0 <= from < |history| - |output|
      ensures Total((history + [record])[from..]) > TERMINAL_OUTPUT_RETENTION_BYTES
    {
      assert (history + [record])[from..] == history[from..] + [record];
      TotalOfConcat(history[from..], [record]);
    }
  }

  // ---------- numbering ----------

  function Min(a: nat, b: nat): (m: nat) {
    if a < b then a else b
  }

  /** The counter saturates, so record `i` carries `i + 1` only below the 64-bit limit. */
  ghost predicate Counted(history: seq<Record>, latestSeq: u64) {
    && latestSeq as nat == Min(|history|, U64_MAX as nat)
    && forall i | 0 <= i < |history| :: history[i].seqNo as nat == Min(i + 1, U64_MAX as nat)
  }

  /** Sequence numbers are consecutive from one. */
  ghost predicate Numbered(history: seq<Record>) {
    forall i | 0 <= i < |history| :: history[i].seqNo as nat == i + 1
  }

  // ---------- the broadcast log ----------

  function Chunks(events: seq<Event>): (chunks: seq<Event>) {
    if events == [] then []
    else (if events[0].OutputChunk? then [events[0]] else []) + Chunks(events[1..])
  }

  lemma {:induction false} ChunksOfConcat(a: seq<Event>, b: seq<Event>)
    ensures Chunks(a + b) == Chunks(a) + Chunks(b)
  {
    if a == [] {
      assert a + b == b;
    } else {
      assert (a + b)[1..] == a[1..] + b;
      ChunksOfConcat(a[1..], b);
      Regroup(if a[0].OutputChunk? then [a[0]] else [], Chunks(a[1..]), Chunks(b));
    }
  }

  lemma {:induction false} ChunksOfChunks(records: seq<Record>)
    ensures Chunks(AsChunks(records)) == AsChunks(records)
  {
    if records != [] {
      assert AsChunks(records)[1..] == AsChunks(records[1..]);
      ChunksOfChunks(records[1..]);
    }
  }

  lemma {:induction false} NoChunks(events: seq<Event>)
    requires forall i | 0 <= i < |events| :: !events[i].OutputChunk?
    ensures Chunks(events) == []
  {
    if events != [] {
      NoChunks(events[1..]);
    }
  }

  ghost predicate ClosedOnce(log: seq<Event>, closed: bool) {
    && (closed <==> exists i | 0 <= i < |log| :: log[i].SessionClosed?)
    && forall i, j | 0 <= i < j < |log| && log[i].SessionClosed? ::
      log[j].ControlChanged? || log[j].PseudoTerminalResized?
  }

  ghost predicate ExitedOnce(log: seq<Event>, exit: Option<Exit>) {
    && (exit.Some? <==> exists i | 0 <= i < |log| :: log[i].SessionExited?)
    && (forall i | 0 <= i < |log| && log[i].SessionExited? :: exit == Some(log[i].exit))
    && forall i, j | 0 <= i < j < |log| && log[i].SessionExited? :: !log[j].SessionExited?
  }

  // ---------- the invariant ----------

  ghost predicate Consistent(w: World) {
    && LongestSuffixThatFits(w.history, w.session.output)
    && w.session.retained == Total(w.session.output)
    && Counted(w.history, w.session.info.latestSeq)
    && Chunks(w.log) == AsChunks(w.history)
    && w.session.owners.Keys <= w.issued
    && ClosedOnce(w.log, w.session.closed)
    && ExitedOnce(w.log, w.session.info.exit)
  }

  lemma ChunksOfSection(s: Session, step: Step)
    ensures
      var o := Apply(s, step);
      Chunks(o.events) ==
        if step.Output? && o.reply == Accepted then AsChunks([Record(o.session.info.latestSeq, step.bytes)]) else []
  {
    hide Push, NoteMetadata, DropOld, ReplayEvents;
    var o := Apply(s, step);
    if step.Output? && o.reply == Accepted {
      InfoAfterOutput(s, step.bytes);
      var (_, metadata) := Push(s.parser, step.bytes);
      NoChunks(MetadataEvents(metadata));
      ChunksOfConcat([o.events[0]], MetadataEvents(metadata));
    } else {
      NoChunks(o.events);
    }
  }

  /** What one section sends is harmless to the log: chunks only for a record, and at most one exit or close. */
  lemma EventsOf(s: Session, step: Step)
    ensures
      var o := Apply(s, step);
      && (o.events == [SessionClosed] <==> step.FinishClose?)
      && (forall i | 0 <= i < |o.events| :: o.events[i].SessionClosed? <==> step.FinishClose?)
      && (forall i | 0 <= i < |o.events| && o.events[i].SessionExited? ::
        step.Exited? && o.events == [SessionExited(step.exit)])
      && (s.closed && !step.FinishClose? ==>
        forall i | 0 <= i < |o.events| :: o.events[i].ControlChanged? || o.events[i].PseudoTerminalResized?)
  {
    hide Push, NoteMetadata, DropOld, ReplayEvents;
    var events := Apply(s, step).events;
    assert events == [SessionClosed] ==> events[0].SessionClosed?;
  }

  lemma {:induction false} MetadataKeeps(info: Info, metadata: seq<Metadata>)
    ensures NoteMetadata(info, metadata).latestSeq == info.latestSeq
    ensures NoteMetadata(info, metadata).exit == info.exit
    decreases metadata
  {
    if metadata != [] {
      MetadataKeeps(NoteOne(info, metadata[0]), metadata[1..]);
    }
  }

  lemma InfoAfterOutput(s: Session, bytes: seq<byte>)
    requires DoOutput(s, bytes).reply == Accepted
    ensures DoOutput(s, bytes).session.info.latestSeq == SaturatingNext(s.info.latestSeq)
    ensures DoOutput(s, bytes).session.info.exit == s.info.exit
  {
    MetadataKeeps(s.info.(latestSeq := SaturatingNext(s.info.latestSeq)), Push(s.parser, bytes).1);
  }

  lemma ClosedStep(log: seq<Event>, closed: bool, events: seq<Event>)
    requires ClosedOnce(log, closed)
    requires forall i | 0 <= i < |events| :: !events[i].SessionClosed?
    requires closed ==> forall i | 0 <= i < |events| :: events[i].ControlChanged? || events[i].PseudoTerminalResized?
    ensures ClosedOnce(log + events, closed)
  {
    if closed {
      var i :| 0 <= i < |log| && log[i].SessionClosed?;
      assert (log + events)[i].SessionClosed?;
    }
  }

  lemma ExitedStep(log: seq<Event>, exit: Option<Exit>, events: seq<Event>)
    requires ExitedOnce(log, exit)
    requires forall i | 0 <= i < |events| :: !events[i].SessionExited?
    ensures ExitedOnce(log + events, exit)
  {
    if exit.Some? {
      var i :| 0 <= i < |log| && log[i].SessionExited?;
      assert (log + events)[i].SessionExited?;
    }
  }

  lemma LogStep(w: World, step: Step)
    requires Consistent(w) && Enabled(w, step)
    ensures ClosedOnce(Advance(w, step).log, Advance(w, step).session.closed)
    ensures ExitedOnce(Advance(w, step).log, Advance(w, step).session.info.exit)
  {
    hide LongestSuffixThatFits, Counted, Chunks, Total, DropOld, Push, NoteMetadata;
    EventsOf(w.session, step);
    if step.Output? && Apply(w.session, step).reply == Accepted {
      InfoAfterOutput(w.session, step.bytes);
    }
    var o, log, next := Apply(w.session, step), w.log, Advance(w, step);
    if step.FinishClose? {
      assert next.session.closed && next.session.info == w.session.info;
      assert next.log == log + [SessionClosed];
      assert next.log[|log|].SessionClosed?;
      ExitedStep(log, w.session.info.exit, o.events);
    } else if o.events != [] && o.events[0].SessionExited? {
      assert next.log[|log|].SessionExited?;
      ClosedStep(log, w.session.closed, o.events);
    } else {
      ClosedStep(log, w.session.closed, o.events);
      ExitedStep(log, w.session.info.exit, o.events);
      assert next.session.closed == w.session.closed;
    }
  }

  lemma HistoryStep(w: World, step: Step)
    requires Consistent(w) && Enabled(w, step)
    ensures LongestSuffixThatFits(Advance(w, step).history, Advance(w, step).session.output)
    ensures Advance(w, step).session.retained == Total(Advance(w, step).session.output)
    ensures Counted(Advance(w, step).history, Advance(w, step).session.info.latestSeq)
  {
    hide LongestSuffixThatFits, Chunks, Total, DropOld, Push, NoteMetadata, ClosedOnce, ExitedOnce;
    var o := Apply(w.session, step);
    if step.Output? && o.reply == Accepted {
      InfoAfterOutput(w.session, step.bytes);
      RetentionStep(w.history, w.session.output, Record(o.session.info.latestSeq, step.bytes));
    }
  }

  lemma ChunksStep(w: World, step: Step)
    requires Chunks(w.log) == AsChunks(w.history)
    ensures Chunks(Advance(w, step).log) == AsChunks(Advance(w, step).history)
  {
    hide Apply;
    var o := Apply(w.session, step);
    ChunksOfSection(w.session, step);
    ChunksOfConcat(w.log, o.events);
    if step.Output? && o.reply == Accepted {
      AsChunksOfConcat(w.history, [Record(o.session.info.latestSeq, step.bytes)]);
    } else {
      assert Chunks(w.log) + [] == Chunks(w.log);
    }
  }

  lemma AsChunksOfConcat(a: seq<Record>, b: seq<Record>)
    ensures AsChunks(a + b) == AsChunks(a) + AsChunks(b)
  {
  }

  lemma OwnersStep(w: World, step: Step)
    requires w.session.owners.Keys <= w.issued
    ensures Advance(w, step).session.owners.Keys <= Advance(w, step).issued
  {
    hide Push, NoteMetadata, DropOld, ReplayEvents;
  }

  lemma ConsistentStep(w: World, step: Step)
    requires Consistent(w) && Enabled(w, step)
    ensures Consistent(Advance(w, step))
  {
    LogStep(w, step);
    HistoryStep(w, step);
    ChunksStep(w, step);
    OwnersStep(w, step);
    hide Advance, Apply, Enabled, LongestSuffixThatFits, Counted, Total, Chunks, ClosedOnce, ExitedOnce;
  }

  lemma {:induction false} ConsistentRun(w: World, steps: seq<Step>)
    requires Consistent(w) && Run(w, steps)
    ensures Consistent(After(w, steps))
    decreases |steps|
  {
    if steps != [] {
      ConsistentRun(w, Front(steps));
      ConsistentStep(After(w, Front(steps)), Last(steps));
    }
  }

  lemma StartIsConsistent(info: Info)
    requires Newborn(info)
    ensures Consistent(Start(info))
  {
  }
}
