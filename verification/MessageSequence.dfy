/** Decoding a complete buffer at once, and how that compares with reading it as a stream. */
module MessageSequence {
  import opened Wrappers
  import opened Bytes
  import opened CborValue
  import opened Cbor
  import opened CborTheorems
  import opened Schema
  import opened Wire
  import RustCbor

  /** `Value::decode_sequence`: all items of a buffer. */
  function ValueSequence(bytes: seq<byte>): (r: Result<seq<Value>, CborError>)
    decreases |bytes|
  {
    if bytes == [] then Ok([])
    else
      match Parse(Rust, bytes, 0)
      case Fail(error) => Err(error)
      case Done(tree, next) => Prepend([Sort(tree)], ValueSequence(bytes[next..]))
  }

  /** Kinds and fields taken two by two. */
  function Pairs(values: seq<Value>): (r: Result<seq<Model>, WireError>)
  {
    if values == [] then Ok([])
    else if |values| == 1 then Err(IncompleteMessagePair)
    else
      match FromFlattenedParts(Rust, values[0], values[1])
      case Err(error) => Err(CodecFailure(error))
      case Ok(message) => Prepend([message], Pairs(values[2..]))
  }

  /** `ReqResMessage::decode_sequence`. */
  function DecodeSequence(bytes: seq<byte>): (r: Result<seq<Model>, WireError>)
  {
    if |bytes| > MAX_MESSAGE_SEQUENCE_SIZE then Err(SequenceTooLarge)
    else
      match ValueSequence(bytes)
      case Err(error) => Err(CborFailure(error))
      case Ok(values) =>
        if values == [] then Err(EmptySequence)
        else if |values| % 2 != 0 then Err(IncompleteMessagePair)
        else Pairs(values)
  }

  // ---------- the code ----------

  method DecodeValueSequence(bytes: seq<byte>) returns (r: Result<seq<Value>, CborError>)
    ensures r == ValueSequence(bytes)
  {
    hide Parse;
    var cursor := new RustCbor.Cursor(bytes);
    var values: seq<Value> := [];
    PrependLaws([], [], ValueSequence(bytes));
    assert bytes[0..] == bytes;
    while cursor.position != |bytes|
      invariant cursor.Valid() && cursor.bytes == bytes
      invariant ValueSequence(bytes) == Prepend(values, ValueSequence(bytes[cursor.position..]))
      decreases |bytes| - cursor.position
    {
      ghost var start := cursor.position;
      ParseAtOffset(Rust, bytes, start);
      var value :- cursor.DecodeValue();
      assert bytes[start..][cursor.position - start..] == bytes[cursor.position..];
      PrependLaws(values, [value], ValueSequence(bytes[cursor.position..]));
      values := values + [value];
    }
    assert values + [] == values;
    return Ok(values);
  }

  method DecodeMessageSequence(bytes: seq<byte>) returns (r: Result<seq<Model>, WireError>)
    ensures r == DecodeSequence(bytes)
  {
    if |bytes| > MAX_MESSAGE_SEQUENCE_SIZE {
      return Err(SequenceTooLarge);
    }
    var decoded := DecodeValueSequence(bytes);
    if decoded.Err? {
      return Err(CborFailure(decoded.error));
    }
    var values := decoded.value;
    if values == [] {
      return Err(EmptySequence);
    }
    if |values| % 2 != 0 {
      return Err(IncompleteMessagePair);
    }
    r := DecodePairs(values);
  }

  method DecodePairs(values: seq<Value>) returns (r: Result<seq<Model>, WireError>)
    requires |values| % 2 == 0
    ensures r == Pairs(values)
  {
    hide FromFlattenedParts;
    var messages: seq<Model> := [];
    var i := 0;
    PrependLaws([], [], Pairs(values));
    assert values[0..] == values;
    while i < |values|
      invariant i <= |values| && i % 2 == 0
      invariant Pairs(values) == Prepend(messages, Pairs(values[i..]))
    {
      var message := FromFlattenedParts(Rust, values[i], values[i + 1]);
      assert values[i..][2..] == values[i + 2..];
      if message.Err? {
        return Err(CodecFailure(message.error));
      }
      PrependLaws(messages, [message.value], Pairs(values[i + 2..]));
      messages := messages + [message.value];
      i := i + 2;
    }
    assert messages + [] == messages;
    return Ok(messages);
  }

  // ---------- one meaning ----------

  /** Every item is read, they come in pairs, and each pair is a message. */
  ghost predicate DecodesTo(bytes: seq<byte>, messages: seq<Model>) {
    ValueSequence(bytes).Ok? && Pairs(ValueSequence(bytes).value) == Ok(messages)
  }

  lemma {:induction false} PairsAreEven(values: seq<Value>)
    ensures Pairs(values).Ok? ==> |values| % 2 == 0
  {
    if |values| >= 2 {
      PairsAreEven(values[2..]);
    }
  }

  /** A kind and fields in front are the first message, if they are one, and the rest goes on behind them. */
  lemma FrontPair(bytes: seq<byte>, k: Value, n: nat, f: Value, m: nat, messages: seq<Model>)
    requires bytes != [] && ValuePrefix(bytes) == Ok(Some((k, n))) && n <= |bytes|
    requires ValuePrefix(bytes[n..]) == Ok(Some((f, m))) && m <= |bytes| - n
    ensures
      var message := FromFlattenedParts(Rust, k, f);
      DecodesTo(bytes, messages) <==>
        message.Ok? && messages != [] && messages[0] == message.value && DecodesTo(bytes[n + m..], messages[1..])
  {
    hide FromFlattenedParts, ValuePrefix, Parse, ValueSequence;
    ValueSequenceStep(bytes);
    assert bytes[n..] != [] by {
      EmptyNeedsMore();
    }
    ValueSequenceStep(bytes[n..]);
    var rest := bytes[n + m..];
    assert bytes[n..][m..] == rest;
    PrependLaws([k], [f], ValueSequence(rest));
    if ValueSequence(rest).Ok? {
      var values := ValueSequence(rest).value;
      assert ([k] + [f] + values)[2..] == values;
      assert messages != [] ==> messages == [messages[0]] + messages[1..];
    }
  }

  lemma {:induction false} WholeBufferIsCleanStream(bytes: seq<byte>, messages: seq<Model>)
    ensures DecodesTo(bytes, messages) <==> Run(bytes) == Transcript(messages, Clean)
    decreases |bytes|
  {
    hide FromFlattenedParts, ValuePrefix, Parse;
    EmptyNeedsMore();
    if bytes != [] {
      ValueSequenceStep(bytes);
    }
    var kind := ValuePrefix(bytes);
    if kind.Ok? && kind.value.Some? {
      var (k, n) := kind.value.value;
      if bytes[n..] != [] {
        ValueSequenceStep(bytes[n..]);
      }
      var fields := ValuePrefix(bytes[n..]);
      if fields.Ok? && fields.value.Some? {
        var (f, m) := fields.value.value;
        FrontPair(bytes, k, n, f, m, messages);
        hide DecodesTo;
        WholeBufferIsCleanStream(bytes[n + m..], if messages == [] then [] else messages[1..]);
        assert messages != [] ==> messages == [messages[0]] + messages[1..];
      }
    }
  }

  lemma EmptyNeedsMore()
    ensures ValuePrefix([]) == Ok(None)
  {
  }

  lemma ValueSequenceStep(bytes: seq<byte>)
    requires bytes != []
    ensures var r := ValuePrefix(bytes);
            if r.Ok? && r.value.Some? then
              ValueSequence(bytes) == Prepend([r.value.value.0], ValueSequence(bytes[r.value.value.1..]))
            else ValueSequence(bytes).Err?
  {
    hide Parse;
  }

  lemma ValuesAreSome(bytes: seq<byte>)
    requires bytes != [] && ValueSequence(bytes).Ok?
    ensures ValueSequence(bytes).value != []
  {
    hide Parse;
  }

  /** Decoding a non-empty buffer at once succeeds exactly when reading it as a stream ends cleanly, and
      gives the same messages. */
  lemma BatchAgreesWithStream(bytes: seq<byte>, messages: seq<Model>)
    requires bytes != [] && |bytes| <= MAX_MESSAGE_SEQUENCE_SIZE
    ensures DecodeSequence(bytes) == Ok(messages) <==> Run(bytes) == Transcript(messages, Clean)
  {
    hide ValueSequence, Pairs, Run, Parse;
    WholeBufferIsCleanStream(bytes, messages);
    if ValueSequence(bytes).Ok? {
      ValuesAreSome(bytes);
      PairsAreEven(ValueSequence(bytes).value);
    }
  }
}
