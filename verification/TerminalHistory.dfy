/** The state of a terminal session, its replies and its events, as functions of what happened to it.  Nothing
    here looks at the session: only at the steps of the run. */
module TerminalHistory {
  import opened Wrappers
  import opened Bytes
  import opened TerminalParser
  import opened Terminal
  import opened TerminalRuns

  // ---------- what the steps say ----------

  predicate Sized(cols: nat, rows: nat) {
    1 <= cols <= 65535 && 1 <= rows <= 65535
  }

  predicate Closed(steps: seq<Step>) {
    FinishClose in steps
  }

  /** Who owns the attach: the caller it was handed to while the session was open, until it is detached. */
  function Owner(steps: seq<Step>, id: AttachId): (caller: Option<RpcSessionId>)
    decreases |steps|
  {
    if steps == [] then None
    else
      var before, last := Front(steps), Last(steps);
      if last == Detach(id) then None
      else if last.Attach? && last.id == id && Sized(last.cols, last.rows) && !Closed(before) then Some(last.caller)
      else Owner(before, id)
  }

  /** The step takes control: it asks for a valid size for an attach of its own. */
  predicate Takes(before: seq<Step>, step: Step) {
    step.TakeControl? && Sized(step.cols, step.rows) && Owner(before, step.id) == Some(step.caller)
  }

  /** The attach of the last step that took control. */
  function Taker(steps: seq<Step>): (id: Option<AttachId>)
    decreases |steps|
  {
    if steps == [] then None
    else if Takes(Front(steps), Last(steps)) then Some(Last(steps).id)
    else Taker(Front(steps))
  }

  /** The size that the last step that took control asked for, or the one at the start. */
  function SizeAfter(start: (nat, nat), steps: seq<Step>): (size: (nat, nat))
    decreases |steps|
  {
    if steps == [] then start
    else if Takes(Front(steps), Last(steps)) then (Last(steps).cols, Last(steps).rows)
    else SizeAfter(start, Front(steps))
  }

  predicate Records(before: seq<Step>, step: Step) {
    step.Output? && step.bytes != [] && !Closed(before)
  }

  /** Everything that was recorded, as one text. */
  function Recorded(steps: seq<Step>): (bytes: seq<byte>)
    decreases |steps|
  {
    if steps == [] then []
    else Recorded(Front(steps)) + if Records(Front(steps), Last(steps)) then Last(steps).bytes else []
  }

  function Chunks(steps: seq<Step>): (n: nat)
    decreases |steps|
  {
    if steps == [] then 0 else Chunks(Front(steps)) + if Records(Front(steps), Last(steps)) then 1 else 0
  }

  /** The last title, or working directory, that the output announced. */
  function LastTitle(start: Option<seq<byte>>, metadata: seq<Metadata>): (title: Option<seq<byte>>)
    decreases |metadata|
  {
    if metadata == [] then start
    else if Last(metadata).Title? then Some(Last(metadata).title)
    else LastTitle(start, Front(metadata))
  }

  function LastCwd(start: Option<seq<byte>>, metadata: seq<Metadata>): (cwd: Option<seq<byte>>)
    decreases |metadata|
  {
    if metadata == [] then start
    else if Last(metadata).Cwd? then Some(Last(metadata).cwd)
    else LastCwd(start, Front(metadata))
  }

  /** The first exit while the session was open. */
  function FirstExit(steps: seq<Step>): (exit: Option<Exit>)
    decreases |steps|
  {
    if steps == [] then None
    else if FirstExit(Front(steps)).Some? then FirstExit(Front(steps))
    else if Last(steps).Exited? && !Closed(Front(steps)) then Some(Last(steps).exit)
    else None
  }

  /** The session info after the steps. */
  function InfoAfter(start: Info, steps: seq<Step>): (info: Info) {
    var metadata := Push(Normal, Recorded(steps)).1;
    var size := SizeAfter((start.cols, start.rows), steps);
    start.(
      primary := Taker(steps), cols := size.0, rows := size.1,
      latestSeq := if Chunks(steps) < U64_MAX then Chunks(steps) else U64_MAX,
      title := LastTitle(start.title, metadata), cwd := LastCwd(start.cwd, metadata), exit := FirstExit(steps))
  }

  // ---------- titles and directories ----------

  lemma {:induction false} LastOfConcat(start: Option<seq<byte>>, a: seq<Metadata>, b: seq<Metadata>)
    ensures LastTitle(start, a + b) == LastTitle(LastTitle(start, a), b)
    ensures LastCwd(start, a + b) == LastCwd(LastCwd(start, a), b)
    decreases |b|
  {
    if b == [] {
      assert a + b == a;
    } else {
      assert Front(a + b) == a + Front(b);
      LastOfConcat(start, a, Front(b));
    }
  }

  lemma {:induction false} NotedIsLast(info: Info, metadata: seq<Metadata>)
    ensures NoteMetadata(info, metadata)
      == info.(title := LastTitle(info.title, metadata), cwd := LastCwd(info.cwd, metadata))
    decreases |metadata|
  {
    if metadata != [] {
      var first, rest := metadata[..1], metadata[1..];
      assert metadata == first + rest && Front(first) == [];
      LastOfConcat(info.title, first, rest);
      LastOfConcat(info.cwd, first, rest);
      NotedIsLast(NoteOne(info, metadata[0]), rest);
    }
  }

  // ---------- the session is what its history says ----------

  ghost predicate Explained(start: Info, steps: seq<Step>, s: Session) {
    && s.info == InfoAfter(start, steps)
    && s.closed == Closed(steps) && s.removed == (Remove in steps)
    && s.parser == Push(Normal, Recorded(steps)).0
    && (forall id :: id in s.owners <==> Owner(steps, id).Some?)
    && (forall id | id in s.owners :: Owner(steps, id) == Some(s.owners[id]))
  }

  lemma Membership(steps: seq<Step>, step: Step)
    requires steps != []
    ensures step in steps <==> step in Front(steps) || Last(steps) == step
  {
  }

  /** What recording one more chunk does to the info. */
  lemma InfoAfterRecord(start: Info, steps: seq<Step>)
    requires steps != [] && Records(Front(steps), Last(steps))
    ensures
      var (parser, metadata) := Push(Push(Normal, Recorded(Front(steps))).0, Last(steps).bytes);
      var before := InfoAfter(start, Front(steps));
      && InfoAfter(start, steps) == NoteMetadata(before.(latestSeq := SaturatingNext(before.latestSeq)), metadata)
      && Push(Normal, Recorded(steps)).0 == parser
  {
    hide Push, Closed, Owner, LastTitle, LastCwd, FirstExit, NoteMetadata;
    var front := Front(steps);
    var before := InfoAfter(start, front);
    PushOfConcat(Normal, Recorded(front), Last(steps).bytes);
    var heard := Push(Normal, Recorded(front));
    var metadata := Push(heard.0, Last(steps).bytes).1;
    LastOfConcat(start.title, heard.1, metadata);
    LastOfConcat(start.cwd, heard.1, metadata);
    NotedIsLast(before.(latestSeq := SaturatingNext(before.latestSeq)), metadata);
    NoExitInRecord(steps);
  }

  lemma NoExitInRecord(steps: seq<Step>)
    requires steps != [] && !Last(steps).Exited?
    ensures FirstExit(steps) == FirstExit(Front(steps))
  {
  }

  /** A step that records nothing leaves the text, the numbers and what the text announced alone. */
  lemma SilentStep(steps: seq<Step>)
    requires steps != [] && !Records(Front(steps), Last(steps))
    ensures Recorded(steps) == Recorded(Front(steps)) && Chunks(steps) == Chunks(Front(steps))
  {
    hide Closed;
    assert Recorded(Front(steps)) + [] == Recorded(Front(steps));
  }

  /** What a step leaves alone: the owners unless it attaches or detaches, the parser unless it is recorded,
      the closing flags unless it closes. */
  lemma StepKeeps(s: Session, step: Step)
    ensures
      var after := Apply(s, step).session;
      && after.closed == (s.closed || step.FinishClose?) && after.removed == (s.removed || step.Remove?)
      && (!step.Attach? && !step.Detach? ==> after.owners == s.owners)
      && (!step.Output? ==> after.parser == s.parser)
      && (!step.Output? && !step.TakeControl? && !step.Exited? ==> after.info == s.info)
  {
    hide Push, DropOld, NoteMetadata, ReplayEvents;
  }

  lemma OutputExplained(start: Info, steps: seq<Step>, s: Session)
    requires steps != [] && Last(steps).Output? && Explained(start, Front(steps), s)
    ensures Explained(start, steps, Apply(s, Last(steps)).session)
  {
    hide Push, Closed, Owner, InfoAfter, NoteMetadata, Recorded, Apply, Chunks;
    Membership(steps, Remove);
    SameClosed(steps);
    OwnerUnmoved(steps);
    StepKeeps(s, Last(steps));
    OutputRecords(s, Last(steps).bytes);
    if Records(Front(steps), Last(steps)) {
      InfoAfterRecord(start, steps);
    } else {
      SilentStep(steps);
      SilentInfo(start, steps);
    }
  }

  /** What output does to the info and the parser. */
  lemma OutputRecords(s: Session, bytes: seq<byte>)
    ensures
      var after := Apply(s, Output(bytes)).session;
      if s.closed || bytes == [] then after == s
      else
        && after.parser == Push(s.parser, bytes).0
        && after.info ==
             NoteMetadata(s.info.(latestSeq := SaturatingNext(s.info.latestSeq)), Push(s.parser, bytes).1)
  {
    hide Push, DropOld, NoteMetadata;
  }

  lemma SilentInfo(start: Info, steps: seq<Step>)
    requires steps != [] && !Records(Front(steps), Last(steps)) && !Last(steps).TakeControl? && !Last(steps).Exited?
    ensures InfoAfter(start, steps) == InfoAfter(start, Front(steps))
  {
    hide Push, Closed, Owner, LastTitle, LastCwd;
    SilentStep(steps);
    NoExitInRecord(steps);
  }

  lemma SameClosed(steps: seq<Step>)
    requires steps != []
    ensures Closed(steps) <==> Closed(Front(steps)) || Last(steps).FinishClose?
  {
    Membership(steps, FinishClose);
  }

  lemma OwnerUnmoved(steps: seq<Step>)
    requires steps != [] && !Last(steps).Attach? && !Last(steps).Detach?
    ensures forall id :: Owner(steps, id) == Owner(Front(steps), id)
  {
  }

  lemma OwnerExplained(start: Info, steps: seq<Step>, s: Session)
    requires steps != [] && (Last(steps).Attach? || Last(steps).Detach?) && Explained(start, Front(steps), s)
    ensures Explained(start, steps, Apply(s, Last(steps)).session)
  {
    hide Push, InfoAfter, Recorded, Closed, Apply, Chunks;
    Membership(steps, Remove);
    SameClosed(steps);
    SilentStep(steps);
    SilentInfo(start, steps);
    StepKeeps(s, Last(steps));
    OwnersMove(steps, s);
  }

  lemma OwnersMove(steps: seq<Step>, s: Session)
    requires steps != [] && (Last(steps).Attach? || Last(steps).Detach?)
    requires s.closed == Closed(Front(steps))
    requires forall id :: id in s.owners <==> Owner(Front(steps), id).Some?
    requires forall id | id in s.owners :: Owner(Front(steps), id) == Some(s.owners[id])
    ensures
      var owners := Apply(s, Last(steps)).session.owners;
      && (forall id :: id in owners <==> Owner(steps, id).Some?)
      && (forall id | id in owners :: Owner(steps, id) == Some(owners[id]))
  {
    hide Push, ReplayEvents, Closed;
  }

  lemma ControlExplained(start: Info, steps: seq<Step>, s: Session)
    requires steps != [] && Last(steps).TakeControl? && Explained(start, Front(steps), s)
    ensures Explained(start, steps, Apply(s, Last(steps)).session)
  {
    hide Push, Owner, Recorded, Closed, LastTitle, LastCwd;
    Membership(steps, Remove);
    SameClosed(steps);
    OwnerUnmoved(steps);
    SilentStep(steps);
    NoExitInRecord(steps);
  }

  lemma OtherExplained(start: Info, steps: seq<Step>, s: Session)
    requires steps != [] && (Last(steps).WriteInput? || Last(steps).Remove? || Last(steps).FinishClose?)
    requires Explained(start, Front(steps), s)
    ensures Explained(start, steps, Apply(s, Last(steps)).session)
  {
    hide Push, Owner, Recorded, Closed, InfoAfter, Apply, Chunks;
    Membership(steps, Remove);
    SameClosed(steps);
    OwnerUnmoved(steps);
    SilentStep(steps);
    SilentInfo(start, steps);
    StepKeeps(s, Last(steps));
  }

  lemma ExitExplained(start: Info, steps: seq<Step>, s: Session)
    requires steps != [] && Last(steps).Exited? && Explained(start, Front(steps), s)
    ensures Explained(start, steps, Apply(s, Last(steps)).session)
  {
    hide Push, Owner, Recorded, Closed, LastTitle, LastCwd, Taker, SizeAfter;
    Membership(steps, Remove);
    SameClosed(steps);
    OwnerUnmoved(steps);
    SilentStep(steps);
    NotATaker(start, steps);
  }

  lemma NotATaker(start: Info, steps: seq<Step>)
    requires steps != [] && !Last(steps).TakeControl?
    ensures Taker(steps) == Taker(Front(steps))
    ensures forall size :: SizeAfter(size, steps) == SizeAfter(size, Front(steps))
  {
  }

  /** After every run the session is in the state that its history says. */
  lemma {:induction false} HistoryDecides(start: Info, steps: seq<Step>)
    requires Newborn(start)
    ensures Explained(start, steps, After(Start(start), steps).session)
    decreases |steps|
  {
    if steps == [] {
    } else {
      hide Explained, Apply;
      var front := Front(steps);
      HistoryDecides(start, front);
      var s := After(Start(start), front).session;
      if Last(steps).Output? {
        OutputExplained(start, steps, s);
      } else if Last(steps).Attach? || Last(steps).Detach? {
        OwnerExplained(start, steps, s);
      } else if Last(steps).TakeControl? {
        ControlExplained(start, steps, s);
      } else if Last(steps).Exited? {
        ExitExplained(start, steps, s);
      } else {
        OtherExplained(start, steps, s);
      }
    }
  }

  // ---------- what a step is answered and what it tells the others ----------

  function OwnerRefusal(steps: seq<Step>, id: AttachId, caller: RpcSessionId): (r: Option<Reply>) {
    match Owner(steps, id)
    case None => Some(AttachNotFound)
    case Some(owner) => if owner == caller then None else Some(PermissionDenied)
  }

  ghost predicate Answers(start: Info, steps: seq<Step>, step: Step, reply: Reply) {
    match step
    case Attach(_, _, cols, rows, _) =>
      if !Sized(cols, rows) then reply == SizeInvalid
      else if Closed(steps) then reply == NotFound
      else reply.Attached? && reply.info == InfoAfter(start, steps)
    case TakeControl(id, caller, cols, rows, resized) =>
      if !Sized(cols, rows) then reply == SizeInvalid
      else if OwnerRefusal(steps, id, caller).Some? then reply == OwnerRefusal(steps, id, caller).value
      else reply == if resized then Accepted else ResizeFailed
    case WriteInput(id, caller, _, failedAfter) =>
      if OwnerRefusal(steps, id, caller).Some? then reply == OwnerRefusal(steps, id, caller).value
      else if Taker(steps) != Some(id) then reply == NotPrimary
      else reply == if failedAfter.None? then Accepted else WriteFailed
    case Output(_) => reply == if Records(steps, step) then Accepted else Ignored
    case Exited(_) => reply == if FirstExit(steps).None? && !Closed(steps) then Accepted else Ignored
    case Remove => reply == if Remove in steps then NotFound else Accepted
    case _ => reply == Accepted
  }

  function NewsOf(metadata: Metadata): (event: Event) {
    match metadata case Title(title) => TitleChanged(title) case Cwd(cwd) => WorkingDirectoryChanged(cwd)
  }

  function News(metadata: seq<Metadata>): (events: seq<Event>) {
    if metadata == [] then [] else [NewsOf(metadata[0])] + News(metadata[1..])
  }

  /** The events of a step: a takeover tells of a new primary attach and of a new size, output is numbered and
      followed by what it announces, the first exit and the close are told. */
  function Told(start: Info, steps: seq<Step>, step: Step): (events: seq<Event>) {
    match step
    case TakeControl(id, _, cols, rows, resized) =>
      if !Takes(steps, step) || !resized then []
      else
        (if Taker(steps) == Some(id) then [] else [ControlChanged(id)])
        + (if SizeAfter((start.cols, start.rows), steps) == (cols, rows) then [] else [PseudoTerminalResized(cols, rows)])
    case Output(bytes) =>
      if !Records(steps, step) then []
      else
        [OutputChunk(if Chunks(steps) + 1 < U64_MAX then Chunks(steps) + 1 else U64_MAX, bytes)]
        + News(Push(Push(Normal, Recorded(steps)).0, bytes).1)
    case Exited(exit) => if FirstExit(steps).None? && !Closed(steps) then [SessionExited(exit)] else []
    case FinishClose => [SessionClosed]
    case _ => []
  }

  lemma {:induction false} NewsAreMetadataEvents(metadata: seq<Metadata>)
    ensures MetadataEvents(metadata) == News(metadata)
  {
    if metadata != [] {
      NewsAreMetadataEvents(metadata[1..]);
      assert MetadataEvents(metadata) == [NewsOf(metadata[0])] + MetadataEvents(metadata[1..]);
    }
  }

  ghost predicate AnsweredBy(start: Info, steps: seq<Step>, s: Session, step: Step) {
    var o := Apply(s, step);
    Answers(start, steps, step, o.reply) && o.events == Told(start, steps, step)
  }

  lemma OwnerIsKnown(start: Info, steps: seq<Step>, s: Session, id: AttachId, caller: RpcSessionId)
    requires Explained(start, steps, s)
    ensures OwnerRefusal(steps, id, caller) == OwnerError(s.owners, id, caller)
  {
    hide InfoAfter, Closed, Owner, Recorded, Push;
  }

  lemma ControlAnswered(start: Info, steps: seq<Step>, s: Session, step: Step)
    requires Explained(start, steps, s) && step.TakeControl?
    ensures AnsweredBy(start, steps, s, step)
  {
    OwnerIsKnown(start, steps, s, step.id, step.caller);
    hide Closed, Owner, Recorded, Push, OwnerError, Taker, SizeAfter, LastTitle, LastCwd, FirstExit, Chunks;
    assert Takes(steps, step) <==> Sized(step.cols, step.rows) && OwnerRefusal(steps, step.id, step.caller).None?;
  }

  lemma InputAnswered(start: Info, steps: seq<Step>, s: Session, step: Step)
    requires Explained(start, steps, s) && step.WriteInput?
    ensures AnsweredBy(start, steps, s, step)
  {
    OwnerIsKnown(start, steps, s, step.id, step.caller);
    hide Closed, Owner, Recorded, Push, OwnerError, OwnerRefusal, Taker, SizeAfter, LastTitle, LastCwd, FirstExit, Chunks;
  }

  lemma OutputAnswered(start: Info, steps: seq<Step>, s: Session, step: Step)
    requires Explained(start, steps, s) && step.Output?
    ensures AnsweredBy(start, steps, s, step)
  {
    NewsAreMetadataEvents(Push(s.parser, step.bytes).1);
    hide Closed, Owner, Recorded, Push, Taker, SizeAfter, LastTitle, LastCwd, FirstExit, DropOld, NoteMetadata, News;
    hide MetadataEvents, Chunks;
  }

  lemma OtherAnswered(start: Info, steps: seq<Step>, s: Session, step: Step)
    requires Explained(start, steps, s) && !step.TakeControl? && !step.WriteInput? && !step.Output?
    ensures AnsweredBy(start, steps, s, step)
  {
    hide Closed, Owner, Recorded, Push, Taker, SizeAfter, LastTitle, LastCwd, FirstExit, Chunks, ReplayEvents;
  }

  /** In every run every step is answered, and told to the others, as the steps before it say. */
  lemma StepsAreAnswered(start: Info, steps: seq<Step>, step: Step)
    requires Newborn(start)
    ensures
      var o := Apply(After(Start(start), steps).session, step);
      Answers(start, steps, step, o.reply) && o.events == Told(start, steps, step)
  {
    var s := After(Start(start), steps).session;
    HistoryDecides(start, steps);
    hide After, Apply, Answers, Told, Explained;
    match step
    case TakeControl(_, _, _, _, _) => ControlAnswered(start, steps, s, step);
    case WriteInput(_, _, _, _) => InputAnswered(start, steps, s, step);
    case Output(_) => OutputAnswered(start, steps, s, step);
    case _ => OtherAnswered(start, steps, s, step);
  }
}
