/** `ReqResMessageReader`: messages out of a stream that arrives in arbitrary chunks. */
module MessageReader {
  import opened Wrappers
  import opened Bytes
  import opened Schema
  import opened Wire

  /** The bytes that the transport delivers before the stream ends; an empty read also ends it. */
  function Flow(chunks: seq<seq<byte>>): (bytes: seq<byte>)
  {
    if chunks == [] || chunks[0] == [] then [] else chunks[0] + Flow(chunks[1..])
  }

  /** The transport fails behind the last chunk, and no empty read ends the stream before. */
  predicate FlowFails(chunks: seq<seq<byte>>, fails: bool)
  {
    if chunks == [] then fails else chunks[0] != [] && FlowFails(chunks[1..], fails)
  }

  lemma {:induction false} FlowOfSplit(chunks: seq<seq<byte>>, fails: bool)
    requires forall i | 0 <= i < |chunks| :: chunks[i] != []
    ensures Flow(chunks) == Concat(chunks) && FlowFails(chunks, fails) == fails
  {
    if chunks != [] {
      FlowOfSplit(chunks[1..], fails);
    }
  }

  datatype ReadError = Wire(error: WireError) | EndedInsideMessage | LimitExceeded | ReadFailed

  /** What is at the front of the stream decides how it goes on, whatever has arrived behind it. */
  lemma FrontDecides(front: seq<byte>, rest: seq<byte>)
    ensures
      var prefix := MessagePrefix(front);
      if prefix.Err? then Run(front + rest) == Transcript([], Failed(prefix.error))
      else if prefix.value.Some? then
        var (message, length) := prefix.value.value;
        var later := Run(front[length..] + rest);
        Run(front + rest) == Transcript([message] + later.messages, later.outcome)
      else Run(front) == Transcript([], if front == [] then Clean else Incomplete)
  {
    hide MessagePrefix;
    MessagePrefixIsStable(front, rest);
    var prefix := MessagePrefix(front);
    if prefix.Ok? && prefix.value.Some? {
      var length := prefix.value.value.1;
      assert (front + rest)[length..] == front[length..] + rest;
    }
  }

  class ReqResMessageReader {
    /** The chunks that the transport has not delivered yet. */
    var incoming: seq<seq<byte>>
    /** Whether the read behind the last chunk fails instead of ending the stream. */
    const fails: bool
    var buffer: seq<byte>
    var bytesRead: nat
    var finished: bool
    /** The bytes of the messages that were returned. */
    ghost var consumed: seq<byte>
    ghost var received: seq<byte>

    ghost predicate Valid()
      reads this
    {
      && consumed + buffer == received
      && |received| == bytesRead <= MAX_MESSAGE_SEQUENCE_SIZE
    }

    /** Everything that is still to be read as messages. */
    ghost function Pending(): (bytes: seq<byte>)
      reads this
    {
      if finished then buffer else buffer + Flow(incoming)
    }

    /** How long the stream is in all. */
    ghost function Total(): (n: nat)
      reads this
    {
      if finished then bytesRead else bytesRead + |Flow(incoming)|
    }

    /** The stream will not end but fail. */
    ghost predicate Failing()
      reads this
    {
      !finished && FlowFails(incoming, fails)
    }

    constructor (chunks: seq<seq<byte>>, fails: bool)
      ensures Valid() && Pending() == Flow(chunks) && Total() == |Flow(chunks)| && Failing() == FlowFails(chunks, fails)
    {
      incoming := chunks;
      this.fails := fails;
      buffer := [];
      bytesRead := 0;
      finished := false;
      consumed, received := [], [];
    }

    method ReadMore() returns (r: Result<(), ReadError>)
      requires Valid() && !finished
      modifies this
      ensures Total() == old(Total()) && consumed == old(consumed)
      ensures r.Ok? ==> Valid() && Pending() == old(Pending()) && Failing() == old(Failing())
      ensures r.Ok? ==> finished || (|incoming| < |old(incoming)| && buffer != [])
      ensures r.Err? ==>
                || (r == Err(LimitExceeded) && Total() > MAX_MESSAGE_SEQUENCE_SIZE)
                || (r == Err(ReadFailed) && old(Failing() && Pending() == buffer) && Total() <= MAX_MESSAGE_SEQUENCE_SIZE)
    {
      if incoming == [] {
        if fails {
          assert buffer + Flow(incoming) == buffer;
          return Err(ReadFailed);
        }
        finished := true;
        return Ok(());
      }
      var chunk := incoming[0];
      if chunk == [] {
        finished := true;
        return Ok(());
      }
      incoming := incoming[1..];
      bytesRead := bytesRead + |chunk|;
      if bytesRead > MAX_MESSAGE_SEQUENCE_SIZE {
        return Err(LimitExceeded);
      }
      assert buffer + (chunk + Flow(incoming)) == (buffer + chunk) + Flow(incoming);
      assert consumed + (buffer + chunk) == (consumed + buffer) + chunk;
      buffer := buffer + chunk;
      received := received + chunk;
      return Ok(());
    }

    /** Returns what the whole stream says comes next, whatever the chunks are. */
    method Next() returns (r: Result<Option<Model>, ReadError>)
      requires Valid()
      modifies this
      ensures Total() == old(Total())
      ensures r.Ok? ==> Valid()
      ensures match r
              case Ok(Some(message)) =>
                && Run(old(Pending())) == Transcript([message] + Run(Pending()).messages, Run(Pending()).outcome)
                && |Pending()| < |old(Pending())| && Failing() == old(Failing())
              case Ok(None) =>
                Run(old(Pending())) == Transcript([], Clean) && !old(Failing()) && Total() <= MAX_MESSAGE_SEQUENCE_SIZE
              case Err(EndedInsideMessage) =>
                Run(old(Pending())) == Transcript([], Incomplete) && !old(Failing()) && Total() <= MAX_MESSAGE_SEQUENCE_SIZE
              case Err(ReadFailed) =>
                && Run(old(Pending())).messages == [] && !Run(old(Pending())).outcome.Failed? && old(Failing())
                && Total() <= MAX_MESSAGE_SEQUENCE_SIZE
              case Err(Wire(error)) => Run(old(Pending())) == Transcript([], Failed(error))
              case Err(LimitExceeded) => Total() > MAX_MESSAGE_SEQUENCE_SIZE
    {
      hide MessagePrefix, Run;
      while true
        invariant Valid() && Pending() == old(Pending()) && Total() == old(Total()) && Failing() == old(Failing())
        decreases !finished, |incoming|
      {
        ghost var rest := Pending()[|buffer|..];
        assert Pending() == buffer + rest;
        FrontDecides(buffer, rest);
        var prefix := DecodePrefix(buffer);
        match prefix {
          case Err(error) =>
            return Err(Wire(error));
          case Ok(Some((message, length))) =>
            assert consumed + buffer == (consumed + buffer[..length]) + buffer[length..];
            consumed := consumed + buffer[..length];
            buffer := buffer[length..];
            assert Pending() == buffer + rest;
            return Ok(Some(message));
          case Ok(None) =>
        }
        if finished {
          if buffer == [] {
            return Ok(None);
          }
          return Err(EndedInsideMessage);
        }
        var _ :- ReadMore();
      }
    }
  }

  datatype Ending = Finished(outcome: Outcome) | OverLimit | Broken

  function EndingOf(error: ReadError): (e: Ending)
  {
    match error
    case Wire(e) => Finished(Failed(e))
    case EndedInsideMessage => Finished(Incomplete)
    case LimitExceeded => OverLimit
    case ReadFailed => Broken
  }

  /** How a stream within the size limit ends: a transport that fails hides only that it would have ended. */
  function EndOf(bytes: seq<byte>, fails: bool): (e: Ending) {
    if fails && !Run(bytes).outcome.Failed? then Broken else Finished(Run(bytes).outcome)
  }

  /** `read_remaining_reqres_messages` on a fresh reader.  Within the size limit, messages and ending are
      those of the bytes, for every split into chunks.  Beyond it, the messages are the first ones of the
      stream, and the reading never ends cleanly. */
  method ReadAll(chunks: seq<seq<byte>>, fails: bool) returns (messages: seq<Model>, ending: Ending)
    ensures |Flow(chunks)| <= MAX_MESSAGE_SEQUENCE_SIZE ==>
              messages == Run(Flow(chunks)).messages && ending == EndOf(Flow(chunks), FlowFails(chunks, fails))
    ensures |Flow(chunks)| > MAX_MESSAGE_SEQUENCE_SIZE ==>
              && messages <= Run(Flow(chunks)).messages
              && (ending == OverLimit ||
                  (ending == Finished(Run(Flow(chunks)).outcome) && ending.outcome.Failed? &&
                   messages == Run(Flow(chunks)).messages))
  {
    hide Run, Flow, FlowFails;
    var reader := new ReqResMessageReader(chunks, fails);
    messages := [];
    ghost var all := Run(Flow(chunks));
    while true
      invariant reader.Valid() && reader.Total() == |Flow(chunks)| && reader.Failing() == FlowFails(chunks, fails)
      invariant all.messages == messages + Run(reader.Pending()).messages
      invariant all.outcome == Run(reader.Pending()).outcome
      decreases |reader.Pending()|
    {
      var next := reader.Next();
      match next {
        case Ok(Some(message)) =>
          Regroup(messages, [message], Run(reader.Pending()).messages);
          messages := messages + [message];
        case Ok(None) => return messages, Finished(Clean);
        case Err(error) => return messages, EndingOf(error);
      }
    }
  }

  /** Two ways of splitting one stream are read alike: both give the messages and the outcome of its bytes. */
  method SplitsAreReadAlike(a: seq<seq<byte>>, b: seq<seq<byte>>, fails: bool)
      returns (messagesA: seq<Model>, endingA: Ending, messagesB: seq<Model>, endingB: Ending)
    requires forall i | 0 <= i < |a| :: a[i] != []
    requires forall i | 0 <= i < |b| :: b[i] != []
    requires Concat(a) == Concat(b) && |Concat(a)| <= MAX_MESSAGE_SEQUENCE_SIZE
    ensures messagesA == messagesB == Run(Concat(a)).messages
    ensures endingA == endingB == EndOf(Concat(a), fails)
  {
    FlowOfSplit(a, fails);
    FlowOfSplit(b, fails);
    messagesA, endingA := ReadAll(a, fails);
    messagesB, endingB := ReadAll(b, fails);
  }
}
