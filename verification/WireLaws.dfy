/** The messages of a stream, continued: when a message is incomplete, and what follows a list of messages. */
module WireLaws {
  import opened Wrappers
  import opened Bytes
  import opened CborValue
  import opened Cbor
  import opened CborTheorems
  import opened CborVerdicts
  import opened Schema
  import opened Wire

  lemma ValuePrefixSettles(bytes: seq<byte>) returns (more: seq<byte>)
    ensures ValuePrefix(bytes + more) != Ok(None)
  {
    hide Parse;
    var k := ParseSettles(Rust, bytes, 0);
    more := Zeros(k);
  }

  lemma FieldsSettle(bytes: seq<byte>) returns (more: seq<byte>)
    requires ValuePrefix(bytes) != Ok(None)
    ensures MessagePrefix(bytes + more) != Ok(None)
  {
    hide ValuePrefix, FromFlattenedParts;
    more := [];
    var kind := ValuePrefix(bytes);
    if kind.Ok? {
      var n := kind.value.value.1;
      more := ValuePrefixSettles(bytes[n..]);
      assert (bytes + more)[n..] == bytes[n..] + more;
    }
    ValuePrefixIsStable(bytes, more);
  }

  /** The front of a buffer counts as incomplete exactly if some continuation gives a message or an error. */
  lemma NeedsMoreExactly(bytes: seq<byte>)
    ensures MessagePrefix(bytes) == Ok(None)
      <==> exists more :: MessagePrefix(bytes + more) != MessagePrefix(bytes)
  {
    hide MessagePrefix;
    if MessagePrefix(bytes) == Ok(None) {
      var a := ValuePrefixSettles(bytes);
      var b := FieldsSettle(bytes + a);
      assert (bytes + a) + b == bytes + (a + b);
      assert MessagePrefix(bytes + (a + b)) != MessagePrefix(bytes);
    }
    if more :| MessagePrefix(bytes + more) != MessagePrefix(bytes) {
      MessagePrefixIsStable(bytes, more);
    }
  }

  /** Behind a list of encoded messages a stream goes on as what follows them alone. */
  lemma {:induction false} RunBehindMessages(messages: seq<Model>, tail: seq<byte>)
    requires AllSendable(messages)
    ensures Run(EncodeSequence(messages) + tail) == Transcript(messages + Run(tail).messages, Run(tail).outcome)
  {
    hide EncodeMessage, Sendable, MessagePrefix;
    if messages == [] {
      assert [] + tail == tail && [] + Run(tail).messages == Run(tail).messages;
    } else {
      var first, rest := EncodeMessage(messages[0]), EncodeSequence(messages[1..]);
      assert (first + rest) + tail == first + (rest + tail);
      MessagePrefixOfEncode(messages[0], rest + tail);
      assert (first + (rest + tail))[|first|..] == rest + tail;
      RunBehindMessages(messages[1..], tail);
      assert [messages[0]] + (messages[1..] + Run(tail).messages) == messages + Run(tail).messages;
    }
  }

  /** How a stream ends that has no whole message in front: nothing left is a clean end, an undecodable front
      an error, anything else is incomplete. */
  lemma TailDecides(tail: seq<byte>)
    requires Run(tail).messages == []
    ensures Run(tail).outcome == Clean <==> tail == []
    ensures Run(tail).outcome == Incomplete <==>
      tail != [] && exists more :: MessagePrefix(tail + more) != MessagePrefix(tail)
    ensures forall error | Run(tail).outcome == Failed(error) :: forall more :: Run(tail + more) == Run(tail)
  {
    hide MessagePrefix;
    NeedsMoreExactly(tail);
    assert MessagePrefix([]) == Ok(None) by {
      EmptyIsOpen();
    }
    forall more | MessagePrefix(tail).Err? ensures Run(tail + more) == Run(tail) {
      MessagePrefixIsStable(tail, more);
    }
  }

  lemma EmptyIsOpen()
    ensures MessagePrefix([]) == Ok(None)
  {
  }
}
