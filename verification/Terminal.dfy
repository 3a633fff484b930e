/** One terminal session.  The steps are the critical sections under the session lock; operations that
    looked the session up earlier may still run after it was removed, so any step may come at any time. */
module Terminal {
  import opened Wrappers
  import opened Bytes
  import opened TerminalParser

  const TERMINAL_OUTPUT_RETENTION_BYTES: nat := 1024 * 1024
  const U16_MAX: nat := 0xFFFF

  /** Attach ids are numbered by an atomic counter, so no id is given out twice. */
  type AttachId = nat
  type RpcSessionId = nat

  datatype Exit = Exit(code: Option<int>, signal: Option<seq<byte>>, at: nat)

  /** The part of the session info that changes, apart from time stamps. */
  datatype Info = Info(
    primary: Option<AttachId>,
    cols: nat,
    rows: nat,
    latestSeq: u64,
    title: Option<seq<byte>>,
    cwd: Option<seq<byte>>,
    exit: Option<Exit>)

  datatype Record = Record(seqNo: u64, bytes: seq<byte>)

  datatype Event =
    | OutputChunk(seqNo: u64, bytes: seq<byte>)
    | HistoryGap(nextSeq: u64)
    | TitleChanged(title: seq<byte>)
    | WorkingDirectoryChanged(cwd: seq<byte>)
    | ControlChanged(primary: AttachId)
    | PseudoTerminalResized(cols: nat, rows: nat)
    | SessionExited(exit: Exit)
    | SessionClosed

  datatype Session = Session(
    info: Info,
    output: seq<Record>,
    retained: nat,
    parser: ParserState,
    owners: map<AttachId, RpcSessionId>,
    removed: bool,
    closed: bool)

  datatype Reply =
    | Accepted
    | Attached(info: Info, replay: seq<Event>)
    | Ignored
    | SizeInvalid
    | NotFound
    | PermissionDenied
    | AttachNotFound
    | NotPrimary
    | ResizeFailed
    | WriteFailed

  datatype Outcome = Outcome(session: Session, reply: Reply, events: seq<Event>)

  datatype Step =
    | Attach(id: AttachId, caller: RpcSessionId, cols: nat, rows: nat, afterSeq: Option<u64>)
    | Detach(id: AttachId)
    | TakeControl(id: AttachId, caller: RpcSessionId, cols: nat, rows: nat, resized: bool)
    | WriteInput(id: AttachId, caller: RpcSessionId, bytes: seq<byte>, failedAfter: Option<nat>)
    | Output(bytes: seq<byte>)
    | Exited(exit: Exit)
    | Remove
    | FinishClose

  // ---------- the critical sections ----------

  predicate ValidSize(cols: nat, rows: nat) {
    0 < cols <= U16_MAX && 0 < rows <= U16_MAX
  }

  function SaturatingNext(n: u64): (r: u64)
  {
    if n == U64_MAX then n else n + 1
  }

  function AsChunks(records: seq<Record>): (events: seq<Event>)
    ensures |events| == |records|
    ensures forall i | 0 <= i < |records| :: events[i] == OutputChunk(records[i].seqNo, records[i].bytes)
  {
    seq(|records|, i requires 0 <= i < |records| => OutputChunk(records[i].seqNo, records[i].bytes))
  }

  /** The retained records that the client has not seen. */
  function Newer(records: seq<Record>, afterSeq: Option<u64>): (r: seq<Record>)
  {
    if records == [] then []
    else
      var rest := Newer(records[1..], afterSeq);
      if afterSeq.None? || records[0].seqNo > afterSeq.value then [records[0]] + rest else rest
  }

  lemma NewerAt(records: seq<Record>, afterSeq: Option<u64>, i: nat)
    requires i < |records|
    ensures AsChunks(Newer(records[i..], afterSeq)) ==
      (if afterSeq.None? || records[i].seqNo > afterSeq.value then [OutputChunk(records[i].seqNo, records[i].bytes)] else [])
      + AsChunks(Newer(records[i + 1..], afterSeq))
  {
    assert records[i..][1..] == records[i + 1..];
    var rest := Newer(records[i + 1..], afterSeq);
    assert AsChunks([records[i]] + rest) == [OutputChunk(records[i].seqNo, records[i].bytes)] + AsChunks(rest);
  }

  lemma NewerAtEnd(records: seq<Record>, afterSeq: Option<u64>)
    ensures AsChunks(Newer(records[|records|..], afterSeq)) == []
  {
  }

  function ReplayEvents(output: seq<Record>, afterSeq: Option<u64>): (events: seq<Event>)
  {
    if output == [] then []
    else
      var first := output[0].seqNo;
      var wanted := if afterSeq.Some? then SaturatingNext(afterSeq.value) else first;
      (if wanted < first then [HistoryGap(first)] else []) + AsChunks(Newer(output, afterSeq))
  }

  function DoAttach(s: Session, id: AttachId, caller: RpcSessionId, cols: nat, rows: nat, afterSeq: Option<u64>):
      (o: Outcome)
  {
    if !ValidSize(cols, rows) then Outcome(s, SizeInvalid, [])
    else if s.closed then Outcome(s, NotFound, [])
    else Outcome(s.(owners := s.owners[id := caller]), Attached(s.info, ReplayEvents(s.output, afterSeq)), [])
  }

  function DoDetach(s: Session, id: AttachId): (o: Outcome)
  {
    Outcome(s.(owners := s.owners - {id}), Accepted, [])
  }

  /** `validate_attach_owner`; `None` when the caller owns the attach. */
  function OwnerError(owners: map<AttachId, RpcSessionId>, id: AttachId, caller: RpcSessionId): (r: Option<Reply>)
  {
    if id !in owners then Some(AttachNotFound)
    else if owners[id] != caller then Some(PermissionDenied)
    else None
  }

  function DoTakeControl(s: Session, id: AttachId, caller: RpcSessionId, cols: nat, rows: nat, resized: bool): (o: Outcome)
  {
    if !ValidSize(cols, rows) then Outcome(s, SizeInvalid, [])
    else if OwnerError(s.owners, id, caller).Some? then Outcome(s, OwnerError(s.owners, id, caller).value, [])
    else
      var next := s.(info := s.info.(primary := Some(id), cols := cols, rows := rows));
      if !resized then Outcome(next, ResizeFailed, [])
      else Outcome(next, Accepted,
        (if s.info.primary != Some(id) then [ControlChanged(id)] else []) +
        (if (s.info.cols, s.info.rows) != (cols, rows) then [PseudoTerminalResized(cols, rows)] else []))
  }

  function DoWriteInput(s: Session, id: AttachId, caller: RpcSessionId, failedAfter: Option<nat>): (o: Outcome)
  {
    if OwnerError(s.owners, id, caller).Some? then Outcome(s, OwnerError(s.owners, id, caller).value, [])
    else if s.info.primary != Some(id) then Outcome(s, NotPrimary, [])
    else Outcome(s, if failedAfter.None? then Accepted else WriteFailed, [])
  }

  /** Drops records from the front until the rest fits. */
  function DropOld(output: seq<Record>, retained: nat): (r: (seq<Record>, nat))
  {
    if retained > TERMINAL_OUTPUT_RETENTION_BYTES && output != [] then
      DropOld(output[1..], if retained >= |output[0].bytes| then retained - |output[0].bytes| else 0)
    else (output, retained)
  }

  function NoteOne(info: Info, metadata: Metadata): (r: Info)
  {
    match metadata
    case Title(title) => info.(title := Some(title))
    case Cwd(cwd) => info.(cwd := Some(cwd))
  }

  function NoteMetadata(info: Info, metadata: seq<Metadata>): (r: Info)
    decreases metadata
  {
    if metadata == [] then info else NoteMetadata(NoteOne(info, metadata[0]), metadata[1..])
  }

  function MetadataEvents(metadata: seq<Metadata>): (events: seq<Event>)
    ensures |events| == |metadata|
  {
    seq(|metadata|, i requires 0 <= i < |metadata| =>
      match metadata[i] case Title(title) => TitleChanged(title) case Cwd(cwd) => WorkingDirectoryChanged(cwd))
  }

  function DoOutput(s: Session, bytes: seq<byte>): (o: Outcome)
  {
    if s.closed || bytes == [] then Outcome(s, Ignored, [])
    else
      var (parser, metadata) := Push(s.parser, bytes);
      var seqNo := SaturatingNext(s.info.latestSeq);
      var info := NoteMetadata(s.info.(latestSeq := seqNo), metadata);
      var (output, retained) := DropOld(s.output + [Record(seqNo, bytes)], s.retained + |bytes|);
      Outcome(s.(info := info, parser := parser, output := output, retained := retained), Accepted,
              [OutputChunk(seqNo, bytes)] + MetadataEvents(metadata))
  }

  function DoExited(s: Session, exit: Exit): (o: Outcome)
  {
    if s.closed || s.info.exit.Some? then Outcome(s, Ignored, [])
    else Outcome(s.(info := s.info.(exit := Some(exit))), Accepted, [SessionExited(exit)])
  }

  /** The first section of closing: taking the session out of the table, which succeeds once. */
  function DoRemove(s: Session): (o: Outcome)
  {
    if s.removed then Outcome(s, NotFound, []) else Outcome(s.(removed := true), Accepted, [])
  }

  /** The second section of closing, run by the operation that removed the session. */
  function DoFinishClose(s: Session): (o: Outcome)
  {
    Outcome(s.(closed := true), Accepted, [SessionClosed])
  }

  function Apply(s: Session, step: Step): (o: Outcome)
  {
    match step
    case Attach(id, caller, cols, rows, afterSeq) => DoAttach(s, id, caller, cols, rows, afterSeq)
    case Detach(id) => DoDetach(s, id)
    case TakeControl(id, caller, cols, rows, resized) => DoTakeControl(s, id, caller, cols, rows, resized)
    case WriteInput(id, caller, _, failedAfter) => DoWriteInput(s, id, caller, failedAfter)
    case Output(bytes) => DoOutput(s, bytes)
    case Exited(exit) => DoExited(s, exit)
    case Remove => DoRemove(s)
    case FinishClose => DoFinishClose(s)
  }

  // ---------- the session object ----------

  class TerminalSession {
    var info: Info
    var outputBuffer: seq<Record>
    var retainedOutputBytes: nat
    var metadataParser: TerminalMetadataParser
    var attachOwners: map<AttachId, RpcSessionId>
    var removed: bool
    var closed: bool
    /** Everything that was broadcast; a receiver sees what is sent after it subscribed. */
    ghost var sent: seq<Event>
    /** Everything that was written to the pseudo-terminal. */
    ghost var input: seq<byte>
    /** The child can still be killed; whether it was. */
    var childKiller: bool
    var childKilled: bool

    ghost function View(): (s: Session)
      reads this, metadataParser
    {
      Session(info, outputBuffer, retainedOutputBytes, metadataParser.state, attachOwners, removed, closed)
    }

    /** The section changed the session, replied and broadcast exactly as `o` says. */
    ghost predicate Did(o: Outcome, reply: Reply, before: seq<Event>)
      reads this, metadataParser
    {
      View() == o.session && reply == o.reply && sent == before + o.events
    }

    constructor (info: Info)
      ensures View() == Session(info, [], 0, Normal, map[], false, false) && sent == [] && input == []
      ensures childKiller && !childKilled
      ensures fresh(metadataParser)
    {
      this.info := info;
      outputBuffer := [];
      retainedOutputBytes := 0;
      metadataParser := new TerminalMetadataParser();
      attachOwners := map[];
      removed, closed := false, false;
      sent, input := [], [];
      childKiller, childKilled := true, false;
    }

    method AttachClient(id: AttachId, caller: RpcSessionId, cols: nat, rows: nat, afterSeq: Option<u64>)
        returns (reply: Reply)
      modifies this`attachOwners
      ensures Did(DoAttach(old(View()), id, caller, cols, rows, afterSeq), reply, old(sent))
    {
      if !ValidSize(cols, rows) {
        return SizeInvalid;
      }
      if closed {
        return NotFound;
      }
      attachOwners := attachOwners[id := caller];
      var replay := Replay(afterSeq);
      return Attached(info, replay);
    }

    method Replay(afterSeq: Option<u64>) returns (events: seq<Event>)
      ensures events == ReplayEvents(outputBuffer, afterSeq)
    {
      if outputBuffer == [] {
        return [];
      }
      events := [];
      var first := outputBuffer[0].seqNo;
      var wanted := if afterSeq.Some? then SaturatingNext(afterSeq.value) else first;
      if wanted < first {
        events := [HistoryGap(first)];
      }
      hide Newer;
      ghost var gap := events;
      assert outputBuffer[0..] == outputBuffer;
      for i := 0 to |outputBuffer|
        invariant gap + AsChunks(Newer(outputBuffer, afterSeq)) == events + AsChunks(Newer(outputBuffer[i..], afterSeq))
      {
        var record := outputBuffer[i];
        NewerAt(outputBuffer, afterSeq, i);
        if afterSeq.None? || record.seqNo > afterSeq.value {
          Regroup(events, [OutputChunk(record.seqNo, record.bytes)], AsChunks(Newer(outputBuffer[i + 1..], afterSeq)));
          events := events + [OutputChunk(record.seqNo, record.bytes)];
        }
      }
      NewerAtEnd(outputBuffer, afterSeq);
    }

    method DetachClient(id: AttachId) returns (reply: Reply)
      modifies this`attachOwners
      ensures Did(DoDetach(old(View()), id), reply, old(sent))
    {
      attachOwners := attachOwners - {id};
      reply := Accepted;
    }

    method TakeTerminalControl(id: AttachId, caller: RpcSessionId, cols: nat, rows: nat, resized: bool)
        returns (reply: Reply)
      modifies this`info, this`sent
      ensures Did(DoTakeControl(old(View()), id, caller, cols, rows, resized), reply, old(sent))
    {
      if !ValidSize(cols, rows) {
        return SizeInvalid;
      }
      var owner := OwnerError(attachOwners, id, caller);
      if owner.Some? {
        return owner.value;
      }
      var previousPrimary, previousSize := info.primary, (info.cols, info.rows);
      info := info.(primary := Some(id), cols := cols, rows := rows);
      if !resized {
        return ResizeFailed;
      }
      if previousPrimary != Some(id) {
        sent := sent + [ControlChanged(id)];
      }
      if previousSize != (cols, rows) {
        sent := sent + [PseudoTerminalResized(cols, rows)];
      }
      return Accepted;
    }

    /** The write succeeds, or fails when the terminal has taken some of the bytes. */
    method WriteTerminalInput(id: AttachId, caller: RpcSessionId, bytes: seq<byte>, failedAfter: Option<nat>)
        returns (reply: Reply)
      requires failedAfter.Some? ==> failedAfter.value <= |bytes|
      modifies this`input
      ensures Did(DoWriteInput(old(View()), id, caller, failedAfter), reply, old(sent))
      ensures reply in {Accepted, WriteFailed} ==>
                input == old(input) + if failedAfter.None? then bytes else bytes[..failedAfter.value]
      ensures reply !in {Accepted, WriteFailed} ==> input == old(input)
    {
      var owner := OwnerError(attachOwners, id, caller);
      if owner.Some? {
        return owner.value;
      }
      if info.primary != Some(id) {
        return NotPrimary;
      }
      if failedAfter.Some? {
        input := input + bytes[..failedAfter.value];
        return WriteFailed;
      }
      input := input + bytes;
      return Accepted;
    }

    method RecordOutput(bytes: seq<byte>) returns (reply: Reply)
      modifies this`info, this`outputBuffer, this`retainedOutputBytes, this`sent, metadataParser
      ensures Did(DoOutput(old(View()), bytes), reply, old(sent))
    {
      hide DropOld, NoteMetadata, Push;
      if closed || bytes == [] {
        return Ignored;
      }
      var metadata := metadataParser.PushBytes(bytes);
      var seqNo := SaturatingNext(info.latestSeq);
      info := info.(latestSeq := seqNo);
      Remember(metadata);
      retainedOutputBytes := retainedOutputBytes + |bytes|;
      outputBuffer := outputBuffer + [Record(seqNo, bytes)];
      DropOldest();
      sent := sent + ([OutputChunk(seqNo, bytes)] + MetadataEvents(metadata));
      return Accepted;
    }

    method Remember(metadata: seq<Metadata>)
      modifies this`info
      ensures info == NoteMetadata(old(info), metadata)
    {
      ghost var before := info;
      assert metadata[0..] == metadata;
      for i := 0 to |metadata|
        invariant NoteMetadata(before, metadata) == NoteMetadata(info, metadata[i..])
      {
        assert metadata[i..][1..] == metadata[i + 1..];
        match metadata[i]
        case Title(title) =>
          if info.title != Some(title) {
            info := info.(title := Some(title));
          }
        case Cwd(cwd) =>
          if info.cwd != Some(cwd) {
            info := info.(cwd := Some(cwd));
          }
      }
    }

    method DropOldest()
      modifies this`outputBuffer, this`retainedOutputBytes
      ensures (outputBuffer, retainedOutputBytes) == DropOld(old(outputBuffer), old(retainedOutputBytes))
    {
      while retainedOutputBytes > TERMINAL_OUTPUT_RETENTION_BYTES && outputBuffer != []
        invariant DropOld(outputBuffer, retainedOutputBytes) == DropOld(old(outputBuffer), old(retainedOutputBytes))
        decreases |outputBuffer|
      {
        var size := |outputBuffer[0].bytes|;
        outputBuffer := outputBuffer[1..];
        retainedOutputBytes := if retainedOutputBytes >= size then retainedOutputBytes - size else 0;
      }
    }

    method MarkExited(exit: Exit) returns (reply: Reply)
      modifies this`info, this`sent
      ensures Did(DoExited(old(View()), exit), reply, old(sent))
    {
      if closed || info.exit.Some? {
        return Ignored;
      }
      info := info.(exit := Some(exit));
      sent := sent + [SessionExited(exit)];
      return Accepted;
    }

    method RemoveFromTable() returns (reply: Reply)
      modifies this`removed
      ensures Did(DoRemove(old(View())), reply, old(sent))
    {
      if removed {
        return NotFound;
      }
      removed := true;
      return Accepted;
    }

    method FinishClosing() returns (reply: Reply)
      modifies this`closed, this`sent, this`childKiller, this`childKilled
      ensures Did(DoFinishClose(old(View())), reply, old(sent))
      ensures !childKiller && childKilled == (old(childKilled) || (old(childKiller) && info.exit.None?))
    {
      closed := true;
      if childKiller {
        childKiller := false;
        if info.exit.None? {
          childKilled := true;
        }
      }
      sent := sent + [SessionClosed];
      return Accepted;
    }
  }
}
