/** The TypeScript side of a server stream: the buffering loop of `streamServerEvents`. */
module EventStream {
  import opened Wrappers
  import opened Bytes
  import opened CborValue
  import opened Cbor
  import opened CborLaws
  import opened CborTheorems
  import opened CborAgreement
  import opened Schema
  import opened SchemaEvolution
  import opened Wire
  import JsCbor

  // ---------- the items and messages at the front of a buffer ----------

  datatype Item = Item(value: Value, endOffset: nat)

  /** `decodeCborSequencePrefix`: whole items up to the first one that needs more input. */
  function ItemsFrom(bytes: seq<byte>, pos: nat): (r: Result<seq<Item>, CborError>)
    requires pos <= |bytes|
    ensures r.Ok? ==> forall i | 0 <= i < |r.value| :: r.value[i].endOffset <= |bytes|
    decreases |bytes| - pos
  {
    if pos == |bytes| then Ok([])
    else
      match Parse(Js, bytes, pos)
      case Fail(error) => if error == UnexpectedEnd then Ok([]) else Err(error)
      case Done(value, next) => Prepend([Item(value, next)], ItemsFrom(bytes, next))
  }

  datatype StreamError =
    | BadCbor(cbor: CborError)
    | BadMessage(codec: CodecError)
    | RpcFailure(message: Model)
    | UnexpectedMessage
    | MissingPayload
    | IncompleteMessage

  /** Messages from the items taken two by two, and where the last whole message ends. */
  function PairUp(items: seq<Item>, offset: nat): (r: Result<(seq<Model>, nat), StreamError>)
  {
    if |items| < 2 then Ok(([], offset))
    else
      match FromFlattenedParts(Js, items[0].value, items[1].value)
      case Err(error) => Err(BadMessage(error))
      case Ok(message) => PrependMessages([message], PairUp(items[2..], items[1].endOffset))
  }

  function PrependMessages(front: seq<Model>, r: Result<(seq<Model>, nat), StreamError>):
      (all: Result<(seq<Model>, nat), StreamError>)
  {
    match r
    case Ok(rest) => Ok((front + rest.0, rest.1))
    case Err(error) => Err(error)
  }

  lemma PrependMessagesLaws(a: seq<Model>, b: seq<Model>, r: Result<(seq<Model>, nat), StreamError>)
    ensures PrependMessages([], r) == r
    ensures PrependMessages(a, PrependMessages(b, r)) == PrependMessages(a + b, r)
  {
    if r.Ok? {
      assert [] + r.value.0 == r.value.0;
      assert a + (b + r.value.0) == (a + b) + r.value.0;
    }
  }

  /** `decodeReqResMessageSequencePrefix`. */
  function MessagesInFront(bytes: seq<byte>): (r: Result<(seq<Model>, nat), StreamError>)
  {
    match ItemsFrom(bytes, 0)
    case Err(error) => Err(BadCbor(error))
    case Ok(items) => PairUp(items, 0)
  }

  lemma {:induction false} FrontEndsInside(items: seq<Item>, offset: nat, limit: nat)
    requires offset <= limit && forall i | 0 <= i < |items| :: items[i].endOffset <= limit
    requires PairUp(items, offset).Ok?
    ensures PairUp(items, offset).value.1 <= limit
  {
    if |items| >= 2 {
      FrontEndsInside(items[2..], items[1].endOffset, limit);
    }
  }

  method DecodeSequencePrefix(bytes: seq<byte>) returns (r: Result<seq<Item>, CborError>)
    ensures r == ItemsFrom(bytes, 0)
  {
    var cursor := new JsCbor.JsCursor(bytes);
    hide Parse;
    var items: seq<Item> := [];
    PrependLaws([], [], ItemsFrom(bytes, 0));
    while cursor.offset != |bytes|
      invariant cursor.Valid() && cursor.bytes == bytes
      invariant ItemsFrom(bytes, 0) == Prepend(items, ItemsFrom(bytes, cursor.offset))
      decreases |bytes| - cursor.offset
    {
      var value := cursor.Decode();
      match value {
        case Ok(v) =>
          PrependLaws(items, [Item(v, cursor.offset)], ItemsFrom(bytes, cursor.offset));
          items := items + [Item(v, cursor.offset)];
        case Err(error) =>
          assert items + [] == items;
          if error == UnexpectedEnd {
            return Ok(items);
          }
          return Err(error);
      }
    }
    assert items + [] == items;
    return Ok(items);
  }

  method DecodeMessagesInFront(bytes: seq<byte>) returns (r: Result<(seq<Model>, nat), StreamError>)
    ensures r == MessagesInFront(bytes)
    ensures r.Ok? ==> r.value.1 <= |bytes|
  {
    var decoded := DecodeSequencePrefix(bytes);
    if decoded.Err? {
      return Err(BadCbor(decoded.error));
    }
    r := PairItems(decoded.value);
    if r.Ok? {
      FrontEndsInside(decoded.value, 0, |bytes|);
    }
  }

  method PairItems(items: seq<Item>) returns (r: Result<(seq<Model>, nat), StreamError>)
    ensures r == PairUp(items, 0)
  {
    hide FromFlattenedParts;
    var messages: seq<Model> := [];
    var readBytes := 0;
    var i := 0;
    PrependMessagesLaws([], [], PairUp(items, 0));
    assert items[0..] == items;
    while i + 1 < |items|
      invariant i <= |items|
      invariant PairUp(items, 0) == PrependMessages(messages, PairUp(items[i..], readBytes))
    {
      var message := FromFlattenedParts(Js, items[i].value, items[i + 1].value);
      assert items[i..][2..] == items[i + 2..];
      if message.Err? {
        return Err(BadMessage(message.error));
      }
      readBytes := items[i + 1].endOffset;
      PrependMessagesLaws(messages, [message.value], PairUp(items[i + 2..], readBytes));
      messages := messages + [message.value];
      i := i + 2;
    }
    assert messages + [] == messages;
    return Ok((messages, readBytes));
  }

  // ---------- event messages ----------

  /** The payload that the consumer is given for a message, or the error that ends the stream. */
  function StreamPayload(m: Model): (r: Result<seq<byte>, StreamError>)
  {
    if !m.Case? then Err(UnexpectedMessage)
    else if m.index == 7 then Err(RpcFailure(m))
    else if m.index != 5 && m.index != 6 then Err(UnexpectedMessage)
    else if |m.slots| == 1 && m.slots[0].Present? && m.slots[0].value.Octets? then Ok(m.slots[0].value.bytes)
    else Err(MissingPayload)
  }

  /** A message that carries a payload and that a server may send on a stream. */
  ghost predicate IsEvent(m: Model) {
    Sendable(m) && StreamPayload(m).Ok?
  }

  ghost predicate AllEvents(messages: seq<Model>) {
    forall i | 0 <= i < |messages| :: IsEvent(messages[i])
  }

  function Payloads(messages: seq<Model>): (payloads: seq<seq<byte>>)
    requires AllEvents(messages)
    ensures |payloads| == |messages|
    ensures forall i | 0 <= i < |messages| :: payloads[i] == StreamPayload(messages[i]).value
  {
    seq(|messages|, i requires 0 <= i < |messages| => StreamPayload(messages[i]).value)
  }

  /** What the consumer is given of a list of messages: the payloads before the first one that is no event,
      and that one's error. */
  function Consumed(messages: seq<Model>): (r: (seq<seq<byte>>, Result<(), StreamError>))
    ensures r.1.Ok? ==> r.1 == Ok(())
  {
    if messages == [] then ([], Ok(()))
    else
      match StreamPayload(messages[0])
      case Err(error) => ([], Err(error))
      case Ok(payload) =>
        var (later, end) := Consumed(messages[1..]);
        ([payload] + later, end)
  }

  lemma {:induction false} ConsumedOfConcat(a: seq<Model>, b: seq<Model>)
    ensures Consumed(a + b) ==
      if Consumed(a).1.Err? then Consumed(a) else (Consumed(a).0 + Consumed(b).0, Consumed(b).1)
  {
    hide StreamPayload;
    if a == [] {
      assert a + b == b && [] + Consumed(b).0 == Consumed(b).0;
    } else {
      ConsumedOfConcat(a[1..], b);
      assert (a + b)[1..] == a[1..] + b;
      if StreamPayload(a[0]).Ok? {
        Regroup([StreamPayload(a[0]).value], Consumed(a[1..]).0, Consumed(b).0);
      }
    }
  }

  lemma {:induction false} ConsumedEvents(messages: seq<Model>)
    requires AllEvents(messages)
    ensures Consumed(messages) == (Payloads(messages), Ok(()))
  {
    hide StreamPayload, Sendable;
    if messages != [] {
      ConsumedEvents(messages[1..]);
      assert Payloads(messages) == [StreamPayload(messages[0]).value] + Payloads(messages[1..]);
    }
  }

  /** The message has no text that starts with a byte-order mark, so TypeScript reads it as Rust does. */
  ghost predicate IsClear(m: Model)
    requires Sendable(m)
  {
    var (kind, fields) := FlattenedParts(m);
    NoBom(kind) && NoBom(fields)
  }

  ghost predicate AllClear(messages: seq<Model>) {
    AllSendable(messages) && forall i | 0 <= i < |messages| :: IsClear(messages[i])
  }

  // ---------- the front of an encoded list of messages ----------

  lemma ClearParts(m: Model)
    requires Sendable(m) && IsClear(m)
    ensures var (kind, fields) := FlattenedParts(m);
            && RustValue(kind) && RustValue(fields) && Readable(Js, kind) && Readable(Js, fields)
            && FromFlattenedParts(Js, Reading(Js, kind), Reading(Js, fields)) == Ok(m)
  {
    PartsFit(m);
    PartsDecode(Js, m);
    var (kind, fields) := FlattenedParts(m);
    hide WireSchema, FlattenedParts, FromFlattenedParts;
    NoBomReadsAlike(kind);
    NoBomReadsAlike(fields);
  }

  /** Events carry no text. */
  lemma EventIsClear(m: Model)
    requires IsEvent(m)
    ensures IsClear(m)
  {
    var s := WireSchema();
    var variant := s[MESSAGE.path].variants[m.index];
    assert variant.fields == [if m.index == 5 then OPTIONAL_PAYLOAD else PAYLOAD];
    assert HasType(s, Named(MESSAGE.path), m);
    hide WireSchema, WireDeclarations;
    OneBlobSlot(s, variant.fields[0], m.slots);
    var (kind, fields) := FlattenedParts(m);
    assert NoBom(kind) && NoBom(fields);
  }

  lemma OneBlobSlot(s: Schema, field: Field, slots: seq<Slot>)
    requires Valid(s) && field.ty == Blob && HaveTypes(s, [field], slots) && |slots| == 1
    requires slots[0].Present? && slots[0].value.Octets?
    ensures EncodeSlots(s, [field], slots, []) == Ok([Entry(field.id, Bytes(slots[0].value.bytes))])
  {
    assert EncodeModel(s, Blob, slots[0].value) == Ok(Bytes(slots[0].value.bytes));
    assert EncodeSlot(s, field, slots[0]) == Ok(Some(Bytes(slots[0].value.bytes)));
    assert slots[1..] == [] && [field][1..] == [];
    var entry := Entry(field.id, Bytes(slots[0].value.bytes));
    assert Insert([], entry) == [entry];
  }

  /** A print that is there in full is one item. */
  lemma OneItem(bytes: seq<byte>, pos: nat, v: Value)
    requires Fits(v) && Readable(Js, v) && At(bytes, pos, Print(v))
    ensures var next := pos + |Print(v)|;
            ItemsFrom(bytes, pos) == Prepend([Item(Reading(Js, v), next)], ItemsFrom(bytes, next))
  {
    hide Parse, Print, Reading, Readable;
    ParsePrinted(Js, v, bytes, pos);
  }

  /** A kind followed by fields, both there in full, are two items. */
  lemma TwoItems(bytes: seq<byte>, pos: nat, m: Model)
    requires Sendable(m) && IsClear(m) && At(bytes, pos, EncodeMessage(m))
    ensures var next := pos + |EncodeMessage(m)|;
            var (kind, fields) := FlattenedParts(m);
            ItemsFrom(bytes, pos) ==
            Prepend([Item(Reading(Js, kind), pos + |Print(kind)|), Item(Reading(Js, fields), next)], ItemsFrom(bytes, next))
  {
    hide ItemsFrom, Print, Reading, Readable, FlattenedParts, Fits;
    var (kind, fields) := FlattenedParts(m);
    ClearParts(m);
    AtParts(bytes, pos, Print(kind), Print(fields));
    var middle, next := pos + |Print(kind)|, pos + |EncodeMessage(m)|;
    OneItem(bytes, pos, kind);
    OneItem(bytes, middle, fields);
    var a, b := Item(Reading(Js, kind), middle), Item(Reading(Js, fields), next);
    PrependLaws([a], [b], ItemsFrom(bytes, next));
    assert [a] + [b] == [a, b];
  }

  lemma OneMessage(bytes: seq<byte>, pos: nat, m: Model)
    requires Sendable(m) && IsClear(m) && At(bytes, pos, EncodeMessage(m))
    requires ItemsFrom(bytes, pos + |EncodeMessage(m)|).Ok?
    ensures ItemsFrom(bytes, pos).Ok?
    ensures var next := pos + |EncodeMessage(m)|;
            PairUp(ItemsFrom(bytes, pos).value, pos) ==
            PrependMessages([m], PairUp(ItemsFrom(bytes, next).value, next))
  {
    hide ItemsFrom, FlattenedParts, FromFlattenedParts, Reading, Print;
    TwoItems(bytes, pos, m);
    ClearParts(m);
    assert ItemsFrom(bytes, pos).value[2..] == ItemsFrom(bytes, pos + |EncodeMessage(m)|).value;
  }

  /** A cut print gives no item. */
  lemma CutPrintHasNoItem(bytes: seq<byte>, pos: nat, v: Value)
    requires pos <= |bytes| && Fits(v) && Readable(Js, v)
    requires bytes[pos..] <= Print(v) && |bytes| - pos < |Print(v)|
    ensures ItemsFrom(bytes, pos) == Ok([])
  {
    hide Parse, Print;
    assert bytes[pos..] == Print(v)[..|bytes| - pos];
    ProperPrefixNeedsMore(Js, v, |bytes| - pos);
    ParseAtOffset(Js, bytes, pos);
  }

  lemma PrefixSplits(text: seq<byte>, x: seq<byte>, y: seq<byte>)
    requires text <= x + y
    ensures if |text| < |x| then text <= x else text[..|x|] == x && text[|x|..] <= y
  {
  }

  /** A cut message gives at most its kind. */
  lemma CutMessageHasAtMostOneItem(bytes: seq<byte>, pos: nat, m: Model)
    requires Sendable(m) && IsClear(m) && pos <= |bytes|
    requires bytes[pos..] <= EncodeMessage(m) && |bytes| - pos < |EncodeMessage(m)|
    ensures ItemsFrom(bytes, pos).Ok? && |ItemsFrom(bytes, pos).value| < 2
  {
    hide ItemsFrom, Print, Reading, Readable, FlattenedParts, Fits;
    var (kind, fields) := FlattenedParts(m);
    ClearParts(m);
    PrefixSplits(bytes[pos..], Print(kind), Print(fields));
    hide EncodeMessage;
    if |bytes| - pos < |Print(kind)| {
      CutPrintHasNoItem(bytes, pos, kind);
    } else {
      CutFieldsHaveNoItem(bytes, pos, kind, fields);
    }
  }

  lemma CutFieldsHaveNoItem(bytes: seq<byte>, pos: nat, kind: Value, fields: Value)
    requires Fits(kind) && Readable(Js, kind) && Fits(fields) && Readable(Js, fields)
    requires pos + |Print(kind)| <= |bytes| < pos + |Print(kind)| + |Print(fields)|
    requires bytes[pos..][..|Print(kind)|] == Print(kind) && bytes[pos..][|Print(kind)|..] <= Print(fields)
    ensures ItemsFrom(bytes, pos).Ok? && |ItemsFrom(bytes, pos).value| < 2
  {
    hide ItemsFrom, Print, Reading, Readable, Fits;
    var middle := pos + |Print(kind)|;
    assert bytes[middle..] == bytes[pos..][|Print(kind)|..];
    assert bytes[pos..middle] == bytes[pos..][..|Print(kind)|];
    CutPrintHasNoItem(bytes, middle, fields);
    OneItem(bytes, pos, kind);
  }

  lemma EncodeFirst(messages: seq<Model>, k: nat)
    requires AllSendable(messages) && k < |messages|
    ensures messages[..k + 1] == [messages[0]] + messages[1..][..k]
    ensures EncodeSequence(messages[..k + 1]) == EncodeMessage(messages[0]) + EncodeSequence(messages[1..][..k])
  {
    hide EncodeMessage, Sendable;
    assert messages[..k + 1][1..] == messages[1..][..k];
  }

  /** The front of a buffer that starts an encoded list of messages: the first `j` of them, the next one not
      being there in full. */
  lemma {:induction false} FrontOfMessages(messages: seq<Model>, bytes: seq<byte>, pos: nat) returns (j: nat)
    requires AllClear(messages) && pos <= |bytes| && bytes[pos..] <= EncodeSequence(messages)
    ensures j <= |messages| && pos + |EncodeSequence(messages[..j])| <= |bytes|
    ensures ItemsFrom(bytes, pos).Ok?
    ensures PairUp(ItemsFrom(bytes, pos).value, pos) == Ok((messages[..j], pos + |EncodeSequence(messages[..j])|))
    ensures j < |messages| ==> |bytes| - pos - |EncodeSequence(messages[..j])| < |EncodeMessage(messages[j])|
    decreases messages
  {
    hide EncodeMessage, FromFlattenedParts, Sendable, IsClear, Parse;
    j := 0;
    assert messages[..0] == [];
    if messages != [] {
      hide ItemsFrom;
      var first, rest := EncodeMessage(messages[0]), messages[1..];
      PrefixSplits(bytes[pos..], first, EncodeSequence(rest));
      if |bytes| - pos < |first| {
        CutMessageHasAtMostOneItem(bytes, pos, messages[0]);
      } else {
        hide PairUp;
        var next := pos + |first|;
        assert bytes[pos..next] == bytes[pos..][..|first|] && bytes[next..] == bytes[pos..][|first|..];
        hide EncodeSequence;
        var k := FrontOfMessages(rest, bytes, next);
        j := k + 1;
        OneMessage(bytes, pos, messages[0]);
        EncodeFirst(messages, k);
      }
    }
  }

  // ---------- what a message means, by its encoded parts ----------

  const START: nat := 5
  const CHUNK: nat := 6
  const ERROR_END: nat := 7
  const PAYLOAD_FIELD: nat := 2

  /** The message is a start or a chunk, and its payload field holds these bytes. */
  ghost predicate Carries(m: Model, payload: seq<byte>) {
    Sendable(m) &&
    var (kind, fields) := FlattenedParts(m);
    kind.u in {START, CHUNK} && Get(fields.entries, PAYLOAD_FIELD) == Some(Bytes(payload))
  }

  /** The error with which the message ends the stream. */
  ghost predicate Ends(m: Model, error: StreamError) {
    Sendable(m) &&
    var (kind, fields) := FlattenedParts(m);
    if kind.u == ERROR_END then error == RpcFailure(m)
    else if kind.u in {START, CHUNK} then Get(fields.entries, PAYLOAD_FIELD).None? && error == MissingPayload
    else error == UnexpectedMessage
  }

  lemma UnionParts(s: Schema, path: string, m: Model)
    requires Valid(s) && path in s && s[path].Union? && HasType(s, Named(path), m)
    requires EncodeModel(s, Named(path), m).Ok?
    ensures
      var variant := s[path].variants[m.index];
      && EncodeSlots(s, variant.fields, m.slots, []).Ok?
      && EncodeModel(s, Named(path), m) ==
        Ok(Array([U64(variant.id), Map(EncodeSlots(s, variant.fields, m.slots, []).value)]))
  {
    hide EncodeSlots;
  }

  lemma PartsOfMessage(m: Model)
    requires Sendable(m)
    ensures
      var (kind, fields) := FlattenedParts(m);
      && kind == U64(m.index)
      && (m.index in {START, CHUNK} ==>
        && |m.slots| == 1 && (m.slots[0].Present? ==> m.slots[0].value.Octets?)
        && Get(fields.entries, PAYLOAD_FIELD) ==
          if m.slots[0].Present? then Some(Bytes(m.slots[0].value.bytes)) else None)
  {
    var s := WireSchema();
    var variant := s[MESSAGE.path].variants[m.index];
    assert variant.id == m.index;
    assert HasType(s, Named(MESSAGE.path), m);
    if m.index in {START, CHUNK} {
      assert variant.fields == [if m.index == START then OPTIONAL_PAYLOAD else PAYLOAD];
    }
    hide WireSchema, WireDeclarations;
    var (kind, fields) := FlattenedParts(m);
    UnionParts(s, MESSAGE.path, m);
    hide FlattenedParts, EncodeModel;
    var items := [kind, fields];
    assert items[0] == U64(m.index) && items[1] == fields;
    if m.index in {START, CHUNK} {
      PayloadOf(s, variant.fields[0], m.slots);
    }
  }

  lemma PayloadOf(s: Schema, field: Field, slots: seq<Slot>)
    requires Valid(s) && field.ty == Blob && HaveTypes(s, [field], slots) && |slots| == 1
    ensures slots[0].Present? ==> slots[0].value.Octets?
    ensures
      var r := EncodeSlots(s, [field], slots, []);
      r.Ok? && Get(r.value, field.id) == if slots[0].Present? then Some(Bytes(slots[0].value.bytes)) else None
  {
    assert SlotHasType(s, field, slots[0]);
    if slots[0].Present? {
      assert HasType(s, Blob, slots[0].value);
      OneBlobSlot(s, field, slots);
    } else {
      assert slots[1..] == [] && [field][1..] == [];
    }
  }

  /** A message gives the consumer its payload exactly if it carries one, and else ends the stream with the
      error of its kind. */
  lemma PayloadIsCarried(m: Model)
    requires Sendable(m)
    ensures
      match StreamPayload(m)
      case Ok(payload) => Carries(m, payload)
      case Err(error) => Ends(m, error)
  {
    PartsOfMessage(m);
    hide FlattenedParts, WireSchema, WireDeclarations;
  }

  /** The consumer was given the payloads of the first messages, all of them or up to one that ends the stream. */
  ghost predicate Gives(messages: seq<Model>, payloads: seq<seq<byte>>, end: Result<(), StreamError>) {
    var n := |payloads|;
    && n <= |messages|
    && (forall i | 0 <= i < n :: Carries(messages[i], payloads[i]))
    && if n == |messages| then end == Ok(()) else end.Err? && Ends(messages[n], end.error)
  }

  lemma {:induction false} ConsumedIsGiven(messages: seq<Model>)
    requires AllSendable(messages)
    ensures Gives(messages, Consumed(messages).0, Consumed(messages).1)
  {
    hide Sendable, StreamPayload, Carries, Ends;
    if messages != [] {
      PayloadIsCarried(messages[0]);
      ConsumedIsGiven(messages[1..]);
    }
  }

  // ---------- the loop ----------

  function ConcatBytes(left: seq<byte>, right: seq<byte>): (r: seq<byte>)
    ensures r == left + right
  {
    if left == [] then right else if right == [] then left else left + right
  }

  class ServerEventStream {
    var incoming: seq<seq<byte>>
    var buffered: seq<byte>
    var completed: bool
    /** What the consumer was given, in order. */
    var delivered: seq<seq<byte>>

    constructor (chunks: seq<seq<byte>>)
      ensures incoming == chunks && buffered == [] && delivered == [] && !completed
    {
      incoming := chunks;
      buffered := [];
      completed := false;
      delivered := [];
    }

    /** Gives the consumer the payloads of the messages, up to the first one that ends the stream. */
    method Deliver(messages: seq<Model>) returns (r: Result<(), StreamError>)
      modifies this`delivered
      ensures (delivered, r) == (old(delivered) + Consumed(messages).0, Consumed(messages).1)
      ensures AllSendable(messages) ==> Gives(messages, delivered[|old(delivered)|..], r)
    {
      hide StreamPayload, Sendable, Gives;
      if AllSendable(messages) {
        ConsumedIsGiven(messages);
      }
      assert messages[0..] == messages;
      for i := 0 to |messages|
        invariant old(delivered) + Consumed(messages).0 == delivered + Consumed(messages[i..]).0
        invariant Consumed(messages).1 == Consumed(messages[i..]).1
      {
        assert messages[i..][1..] == messages[i + 1..];
        var payload := StreamPayload(messages[i]);
        if payload.Err? {
          assert delivered + [] == delivered;
          return Err(payload.error);
        }
        Regroup(delivered, [payload.value], Consumed(messages[i + 1..]).0);
        delivered := delivered + [payload.value];
      }
      assert delivered + [] == delivered;
      return Ok(());
    }

    /** For every list of messages and every split of its encoding into chunks, the consumer gets exactly the
        payloads before the first message that is no event, in order, and the stream ends with that message's
        error; if all are events it ends normally and nothing stays in the buffer. */
    method Stream(ghost messages: seq<Model>) returns (r: Result<(), StreamError>)
      requires buffered == [] && delivered == []
      modifies this
      ensures AllClear(messages) && Concat(old(incoming)) == EncodeSequence(messages) ==>
                (delivered, r) == Consumed(messages) && Gives(messages, delivered, r) && (r.Ok? ==> completed)
      ensures AllEvents(messages) && Concat(old(incoming)) == EncodeSequence(messages) ==>
                r.Ok? && completed && delivered == Payloads(messages) && buffered == []
      ensures r.Ok? ==> buffered == []
    {
      hide EncodeMessage, Sendable, StreamPayload, MessagesInFront, IsClear, IsEvent, Consumed, Gives;
      ghost var expected := AllClear(messages) && Concat(incoming) == EncodeSequence(messages);
      if AllEvents(messages) {
        EventsAreClear(messages);
        ConsumedEvents(messages);
      }
      if AllClear(messages) {
        ConsumedIsGiven(messages);
      }
      ghost var done := 0;
      NothingConsumed(messages);
      while true
        invariant done <= |messages|
        invariant expected ==> InStep(messages, done, buffered, Concat(incoming), delivered)
        decreases |incoming|
      {
        if incoming == [] {
          completed := true;
          break;
        }
        ghost var before := buffered;
        ghost var rest := Concat(incoming[1..]);
        buffered := ConcatBytes(buffered, incoming[0]);
        assert before + (incoming[0] + rest) == buffered + rest;
        incoming := incoming[1..];
        var front := DecodeMessagesInFront(buffered);
        if expected {
          done := NextInStep(messages, done, buffered, rest, delivered);
        }
        if front.Err? {
          return Err(front.error);
        }
        var (arrived, readBytes) := front.value;
        if readBytes > 0 {
          buffered := buffered[readBytes..];
        }
        var _ :- Deliver(arrived);
      }
      if |buffered| > 0 {
        return Err(IncompleteMessage);
      }
      if expected {
        EndInStep(messages, done, delivered);
      }
      return Ok(());
    }
  }

  lemma EventsAreClear(messages: seq<Model>)
    requires AllEvents(messages)
    ensures AllClear(messages)
  {
    hide StreamPayload, Sendable, IsClear;
    forall i | 0 <= i < |messages| ensures Sendable(messages[i]) && IsClear(messages[i]) {
      assert IsEvent(messages[i]);
      EventIsClear(messages[i]);
    }
  }

  lemma NothingConsumed(messages: seq<Model>)
    ensures Consumed(messages[..0]) == ([], Ok(())) && messages[0..] == messages
  {
  }

  /** The first `done` messages were delivered without an error; the others are in the buffer and in what is to
      come, and the buffer does not hold the next one in full. */
  ghost predicate InStep(messages: seq<Model>, done: nat, buffered: seq<byte>, rest: seq<byte>, delivered: seq<seq<byte>>) {
    && AllClear(messages) && done <= |messages|
    && Consumed(messages[..done]) == (delivered, Ok(()))
    && buffered + rest == EncodeSequence(messages[done..])
    && (done < |messages| ==> |buffered| < |EncodeMessage(messages[done])|)
  }

  /** The messages that one more chunk completes.  If they are all delivered the stream is in step again;
      otherwise what was delivered and the error are those of the whole list. */
  lemma NextInStep(messages: seq<Model>, done: nat, buffered: seq<byte>, rest: seq<byte>, delivered: seq<seq<byte>>)
      returns (done': nat)
    requires AllClear(messages) && done <= |messages| && Consumed(messages[..done]) == (delivered, Ok(()))
    requires buffered + rest == EncodeSequence(messages[done..])
    ensures done <= done' <= |messages|
    ensures MessagesInFront(buffered).Ok? && MessagesInFront(buffered).value.0 == messages[done..done']
    ensures
      var n := MessagesInFront(buffered).value.1;
      var (payloads, end) := Consumed(messages[done..done']);
      && n <= |buffered|
      && (end.Ok? ==> InStep(messages, done', buffered[n..], rest, delivered + payloads))
      && (end.Err? ==> Consumed(messages) == (delivered + payloads, end))
  {
    hide EncodeMessage, IsClear, Sendable, PairUp, ItemsFrom, EncodeSequence, Consumed;
    var later := messages[done..];
    assert buffered[0..] == buffered;
    var j := FrontOfMessages(later, buffered, 0);
    done' := done + j;
    assert later[..j] == messages[done..done'] && later[j..] == messages[done'..];
    EncodeSequenceSplits(later, j);
    var n := |EncodeSequence(later[..j])|;
    assert buffered[n..] + rest == (buffered + rest)[n..] == EncodeSequence(later[j..]);
    ConsumedOfConcat(messages[..done], messages[done..done']);
    assert messages[..done] + messages[done..done'] == messages[..done'];
    ConsumedOfConcat(messages[..done'], messages[done'..]);
    assert messages[..done'] + messages[done'..] == messages;
    assert done' < |messages| ==> later[j] == messages[done'];
    assert MessagesInFront(buffered).value.1 == n;
    hide MessagesInFront;
  }

  lemma EndInStep(messages: seq<Model>, done: nat, delivered: seq<seq<byte>>)
    requires InStep(messages, done, [], [], delivered)
    ensures Consumed(messages) == (delivered, Ok(()))
  {
    hide EncodeMessage, IsClear, Sendable, Consumed;
    assert done == |messages|;
    assert messages[..done] == messages;
  }
}
