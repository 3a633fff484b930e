/** Request/response messages: the schema they have, their flattened form on a stream, and what a whole
    stream of bytes means. */
module Wire {
  import opened Wrappers
  import opened Bytes
  import opened CborValue
  import opened Cbor
  import opened CborTheorems
  import opened Schema
  import opened SchemaLaws
  import opened SchemaEvolution

  const MAX_MESSAGE_SEQUENCE_SIZE: nat := 64 * 1024 * 1024

  const MESSAGE: TypeRef := Named("ReqResMessage")

  const PROC_ID := Field(1, false, U53)
  const OPTIONAL_PAYLOAD := Field(2, true, Blob)
  const PAYLOAD := Field(2, false, Blob)
  const ERROR := Field(3, false, Blob)
  const ERROR_KIND := Field(4, false, Named("RpcErrorKind"))

  /** The message declarations of the wire protocol. */
  function WireDeclarations(): (s: Schema)
  {
    map[
    "ReqResMessage" := Union(1, [
      UnionVariant(0, [PROC_ID, OPTIONAL_PAYLOAD]),
      UnionVariant(1, [PROC_ID, OPTIONAL_PAYLOAD]),
      UnionVariant(2, [PAYLOAD]),
      UnionVariant(3, [OPTIONAL_PAYLOAD]),
      UnionVariant(4, [ERROR, ERROR_KIND]),
      UnionVariant(5, [OPTIONAL_PAYLOAD]),
      UnionVariant(6, [PAYLOAD]),
      UnionVariant(7, [ERROR, ERROR_KIND]),
      UnionVariant(8, [Field(1, false, Str), PAYLOAD]),
      UnionVariant(9, []),
      UnionVariant(10, [Field(1, false, Named("SessionAuthErrorCode")), Field(2, false, Str)])]),
    "RpcErrorKind" := Enum([1, 2]),
    "SessionAuthErrorCode" := Enum([1, 2, 3, 4])]
  }

  lemma WireDeclarationsAreValid()
    ensures Valid(WireDeclarations())
  {
    var variants := WireDeclarations()["ReqResMessage"].variants;
    forall i | 0 <= i < |variants|
      ensures ValidFields(WireDeclarations(), variants[i].fields, 1)
    {
      var fields := variants[i].fields;
      assert |fields| <= 2;
      assert |fields| == 2 ==> FieldIds(fields)[0] != FieldIds(fields)[1];
    }
  }

  function WireSchema(): (s: Schema)
    ensures Valid(s) && MESSAGE.path in s && s[MESSAGE.path].Union?
  {
    WireDeclarationsAreValid();
    WireDeclarations()
  }

  /** A message that can be sent: it has the message type and its integers are safe. */
  ghost predicate Sendable(m: Model) {
    HasType(WireSchema(), MESSAGE, m) && InRange(WireSchema(), MESSAGE, m)
  }

  datatype WireError =
    | CborFailure(cbor: CborError)
    | CodecFailure(codec: CodecError)
    | EmptySequence
    | IncompleteMessagePair
    | SequenceTooLarge

  // ---------- one message ----------

  /** `to_flattened_parts`: the union tuple without its array head. */
  function FlattenedParts(m: Model): (r: (Value, Value))
    requires Sendable(m)
    ensures EncodeModel(WireSchema(), MESSAGE, m) == Ok(Array([r.0, r.1])) && r.0.U64? && r.1.Map?
  {
    hide WireSchema, HasType, InRange, EncodeModel;
    EncodeSucceedsInRange(Rust, WireSchema(), MESSAGE, m);
    UnionEncodesAsPair(WireSchema(), MESSAGE.path, m);
    var items := EncodeModel(WireSchema(), MESSAGE, m).value.items;
    (items[0], items[1])
  }

  lemma UnionEncodesAsPair(s: Schema, path: string, m: Model)
    requires Valid(s) && path in s && s[path].Union? && HasType(s, Named(path), m)
    requires EncodeModel(s, Named(path), m).Ok?
    ensures var v := EncodeModel(s, Named(path), m).value;
            v.Array? && |v.items| == 2 && v.items[0].U64? && v.items[1].Map? && v.items == [v.items[0], v.items[1]]
  {
  }

  /** `ReqResMessage::encode`: the kind, then the fields. */
  function EncodeMessage(m: Model): (bytes: seq<byte>)
    requires Sendable(m)
    ensures bytes != []
  {
    var (kind, fields) := FlattenedParts(m);
    PartsFit(m);
    Print(kind) + Print(fields)
  }

  /** Types whose values hold no list. */
  ghost predicate Flat(s: Schema, ty: TypeRef) {
    !ty.ArrayOf? && (ty.Named? ==> ty.path in s && s[ty.path].Enum?)
  }

  lemma FlatSlotsFit(s: Schema, fields: seq<Field>, slots: seq<Slot>)
    requires HaveTypes(s, fields, slots) && forall i | 0 <= i < |fields| :: Flat(s, fields[i].ty)
    ensures SlotsFit(slots)
  {
    forall i | 0 <= i < |slots| ensures SlotFits(slots[i]) {
      FlatSlotFits(s, fields[i], slots[i]);
    }
  }

  lemma FlatSlotFits(s: Schema, field: Field, slot: Slot)
    requires SlotHasType(s, field, slot) && Flat(s, field.ty)
    ensures SlotFits(slot)
  {
    if slot.Present? {
      assert HasType(s, field.ty, slot.value);
      assert !slot.value.List? && !slot.value.Record? && !slot.value.Case?;
    }
  }

  lemma MessagesHoldNoLists(m: Model)
    requires HasType(WireSchema(), MESSAGE, m)
    ensures ListsFit(m)
  {
    FlatVariants(m.index);
    hide WireSchema, WireDeclarations;
    FlatSlotsFit(WireSchema(), WireSchema()[MESSAGE.path].variants[m.index].fields, m.slots);
  }

  lemma FlatVariants(index: nat)
    requires index < |WireSchema()[MESSAGE.path].variants|
    ensures
      var fields := WireSchema()[MESSAGE.path].variants[index].fields;
      forall i | 0 <= i < |fields| :: Flat(WireSchema(), fields[i].ty)
  {
    var fields := WireSchema()[MESSAGE.path].variants[index].fields;
    forall i | 0 <= i < |fields| ensures Flat(WireSchema(), fields[i].ty) {
      assert fields[i] in {PROC_ID, OPTIONAL_PAYLOAD, PAYLOAD, ERROR, ERROR_KIND} ||
             fields[i].ty in {Str, Named("SessionAuthErrorCode")};
    }
  }

  lemma PartsFit(m: Model)
    requires Sendable(m)
    ensures var (kind, fields) := FlattenedParts(m);
            RustValue(kind) && RustValue(fields) && Readable(Js, kind) && Readable(Js, fields)
  {
    hide WireSchema, WireDeclarations, HasType, InRange, EncodeModel;
    var (kind, fields) := FlattenedParts(m);
    MessagesHoldNoLists(m);
    EncodeSucceedsInRange(Js, WireSchema(), MESSAGE, m);
    var items := [kind, fields];
    assert FitsItems(items) && ReadableItems(Js, items) && Ascending(Array(items));
    assert items[0] == kind && items[1] == fields;
  }

  ghost predicate AllSendable(messages: seq<Model>) {
    forall i | 0 <= i < |messages| :: Sendable(messages[i])
  }

  function EncodeSequence(messages: seq<Model>): (bytes: seq<byte>)
    requires AllSendable(messages)
  {
    if messages == [] then [] else EncodeMessage(messages[0]) + EncodeSequence(messages[1..])
  }

  lemma {:induction false} EncodeSequenceSplits(messages: seq<Model>, j: nat)
    requires AllSendable(messages) && j <= |messages|
    ensures EncodeSequence(messages) == EncodeSequence(messages[..j]) + EncodeSequence(messages[j..])
  {
    hide EncodeMessage, Sendable;
    if j == 0 {
      assert messages[0..] == messages;
    } else {
      EncodeSequenceSplits(messages[1..], j - 1);
      assert messages[..j][1..] == messages[1..][..j - 1] && messages[j..] == messages[1..][j - 1..];
    }
  }

  /** `from_flattened_parts`. */
  function FromFlattenedParts(d: Dialect, kind: Value, fields: Value): (r: Result<Model, CodecError>)
  {
    DecodeModel(d, WireSchema(), MESSAGE, Array([kind, fields]))
  }

  // ---------- reading from the front of a buffer ----------

  /** `Value::decode_prefix`. */
  function ValuePrefix(bytes: seq<byte>): (r: Result<Option<(Value, nat)>, CborError>)
    ensures r.Ok? && r.value.Some? ==> 0 < r.value.value.1 <= |bytes|
  {
    match Parse(Rust, bytes, 0)
    case Done(tree, next) => Ok(Some((Sort(tree), next)))
    case Fail(error) => if error == UnexpectedEnd then Ok(None) else Err(error)
  }

  /** `ReqResMessage::decode_prefix` on a buffer within the size limit. */
  function MessagePrefix(bytes: seq<byte>): (r: Result<Option<(Model, nat)>, WireError>)
    ensures r.Ok? && r.value.Some? ==> 0 < r.value.value.1 <= |bytes|
  {
    match ValuePrefix(bytes)
    case Err(error) => Err(CborFailure(error))
    case Ok(None) => Ok(None)
    case Ok(Some((kind, kindLength))) =>
      match ValuePrefix(bytes[kindLength..])
      case Err(error) => Err(CborFailure(error))
      case Ok(None) => Ok(None)
      case Ok(Some((fields, fieldsLength))) =>
        match FromFlattenedParts(Rust, kind, fields)
        case Err(error) => Err(CodecFailure(error))
        case Ok(message) => Ok(Some((message, kindLength + fieldsLength)))
  }

  function DecodePrefix(bytes: seq<byte>): (r: Result<Option<(Model, nat)>, WireError>)
    ensures r.Ok? && r.value.Some? ==> 0 < r.value.value.1 <= |bytes|
  {
    if |bytes| > MAX_MESSAGE_SEQUENCE_SIZE then Err(SequenceTooLarge) else MessagePrefix(bytes)
  }

  /** How the reading of a stream ends. */
  datatype Outcome = Clean | Incomplete | Failed(error: WireError)

  datatype Transcript = Transcript(messages: seq<Model>, outcome: Outcome)

  /** What a whole stream means, however it is split: its messages in order and how it ends. */
  function Run(bytes: seq<byte>): (t: Transcript)
    decreases |bytes|
  {
    match MessagePrefix(bytes)
    case Err(error) => Transcript([], Failed(error))
    case Ok(None) => Transcript([], if bytes == [] then Clean else Incomplete)
    case Ok(Some((message, length))) =>
      var rest := Run(bytes[length..]);
      Transcript([message] + rest.messages, rest.outcome)
  }

  // ---------- verdicts on a buffer are final ----------

  lemma ValuePrefixIsStable(bytes: seq<byte>, more: seq<byte>)
    ensures ValuePrefix(bytes) != Ok(None) ==> ValuePrefix(bytes + more) == ValuePrefix(bytes)
  {
    hide Parse;
    VerdictsAreStable(Rust, bytes, more);
  }

  /** More input never changes a message or an error that was already reported. */
  lemma MessagePrefixIsStable(bytes: seq<byte>, more: seq<byte>)
    ensures MessagePrefix(bytes) != Ok(None) ==> MessagePrefix(bytes + more) == MessagePrefix(bytes)
  {
    hide ValuePrefix, FromFlattenedParts;
    ValuePrefixIsStable(bytes, more);
    var kind := ValuePrefix(bytes);
    if kind.Ok? && kind.value.Some? {
      var n := kind.value.value.1;
      assert (bytes + more)[n..] == bytes[n..] + more;
      ValuePrefixIsStable(bytes[n..], more);
    }
  }

  // ---------- round trip of a list of messages ----------

  lemma ValuePrefixOfPrint(v: Value, suffix: seq<byte>)
    requires RustValue(v)
    ensures ValuePrefix(Print(v) + suffix) == Ok(Some((Reading(Rust, v), |Print(v)|)))
  {
    hide Parse, Print;
    RoundTripWithSuffix(Rust, v, suffix);
    RustReadingIsRustValue(v);
    SortFixesExactlyAscending(Reading(Rust, v));
  }

  /** The message decoders undo the encoder. */
  lemma PartsDecode(d: Dialect, m: Model)
    requires Sendable(m)
    ensures var (kind, fields) := FlattenedParts(m);
            FromFlattenedParts(d, Reading(Rust, kind), Reading(Rust, fields)) == Ok(m)
  {
    hide WireSchema, WireDeclarations, HasType, InRange, EncodeModel, DecodeModel, Project;
    var (kind, fields) := FlattenedParts(m);
    SchemaFitsItself(WireSchema());
    SelfProjection(WireSchema(), MESSAGE, m);
    ReaderSeesProjection(d, WireSchema(), WireSchema(), MESSAGE, m);
    assert ReadingItems(Rust, [kind, fields]) == [Reading(Rust, kind), Reading(Rust, fields)];
  }

  lemma MessagePrefixOfEncode(m: Model, suffix: seq<byte>)
    requires Sendable(m)
    ensures MessagePrefix(EncodeMessage(m) + suffix) == Ok(Some((m, |EncodeMessage(m)|)))
  {
    hide Parse, Print, Reading, Sort, FromFlattenedParts, ValuePrefix, FlattenedParts;
    var (kind, fields) := FlattenedParts(m);
    PartsFit(m);
    assert EncodeMessage(m) + suffix == Print(kind) + (Print(fields) + suffix);
    ValuePrefixOfPrint(kind, Print(fields) + suffix);
    assert (EncodeMessage(m) + suffix)[|Print(kind)|..] == Print(fields) + suffix;
    ValuePrefixOfPrint(fields, suffix);
    PartsDecode(Rust, m);
  }

  /** A stream of encoded messages means exactly those messages, cleanly ended. */
  lemma {:induction false} RunOfEncodedSequence(messages: seq<Model>)
    requires AllSendable(messages)
    ensures Run(EncodeSequence(messages)) == Transcript(messages, Clean)
  {
    hide EncodeMessage, Sendable;
    if messages == [] {
      assert MessagePrefix([]) == Ok(None);
    } else {
      hide MessagePrefix;
      var first, rest := EncodeMessage(messages[0]), EncodeSequence(messages[1..]);
      MessagePrefixOfEncode(messages[0], rest);
      assert (first + rest)[|first|..] == rest;
      RunOfEncodedSequence(messages[1..]);
      assert [messages[0]] + messages[1..] == messages;
    }
  }
}
