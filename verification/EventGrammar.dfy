/** What the browser takes from the front of any bytes whatever: the messages that they spell in its dialect. */
module EventGrammar {
  import opened Wrappers
  import opened Bytes
  import opened CborValue
  import opened Cbor
  import opened CborGrammar
  import opened Schema
  import opened SchemaReading
  import opened Wire
  import opened EventStream

  // ---------- items ----------

  /** The items stand one behind the other. */
  ghost predicate ItemsAt(bytes: seq<byte>, from: nat, items: seq<Item>)
    decreases |items|
  {
    items == [] ||
    (&& from < items[0].endOffset <= |bytes| && Spells(Js, bytes, from, items[0].endOffset, items[0].value)
     && ItemsAt(bytes, items[0].endOffset, items[1..]))
  }

  function EndOf(from: nat, items: seq<Item>): (end: nat) {
    if items == [] then from else items[|items| - 1].endOffset
  }

  /** The input stops here, or in the middle of an item. */
  ghost predicate StopsAt(bytes: seq<byte>, pos: nat) {
    pos == |bytes| || (pos < |bytes| && Parse(Js, bytes, pos) == Fail(UnexpectedEnd))
  }

  ghost predicate FailsAt(bytes: seq<byte>, pos: nat, error: CborError) {
    pos < |bytes| && Parse(Js, bytes, pos) == Fail(error) && error != UnexpectedEnd
  }

  /** All whole items are taken, up to where the input stops; or one of them is refused. */
  lemma {:induction false} ItemsAreTaken(bytes: seq<byte>, pos: nat) returns (items: seq<Item>)
    requires pos <= |bytes|
    ensures ItemsAt(bytes, pos, items)
    ensures
      var r := ItemsFrom(bytes, pos);
      if r.Ok? then r.value == items && StopsAt(bytes, EndOf(pos, items)) else FailsAt(bytes, EndOf(pos, items), r.error)
    decreases |bytes| - pos
  {
    hide Parse, Spells;
    items := [];
    if pos < |bytes| {
      var first := Parse(Js, bytes, pos);
      if first.Done? {
        ItemIsSpelled(Js, bytes, pos, first.next, first.value);
        var rest := ItemsAreTaken(bytes, first.next);
        items := [Item(first.value, first.next)] + rest;
        assert items[1..] == rest;
      }
    }
  }

  // ---------- messages ----------

  /** Two items that mean a message. */
  ghost predicate MessageAt(bytes: seq<byte>, from: nat, end: nat, m: Model) {
    exists mid: nat, kind, fields | from < mid < end <= |bytes| ::
      && Spells(Js, bytes, from, mid, kind) && Spells(Js, bytes, mid, end, fields)
      && Means(Js, WireSchema(), MESSAGE, Array([kind, fields]), m)
  }

  ghost predicate MessagesAt(bytes: seq<byte>, from: nat, end: nat, messages: seq<Model>)
    decreases |messages|
  {
    if messages == [] then from == end
    else exists next: nat | from < next <= end ::
      MessageAt(bytes, from, next, messages[0]) && MessagesAt(bytes, next, end, messages[1..])
  }

  /** Two items that are no message, with the reason. */
  ghost predicate NoMessageAt(bytes: seq<byte>, from: nat, error: CodecError) {
    exists mid: nat, end: nat, kind, fields | from < mid < end <= |bytes| ::
      && Spells(Js, bytes, from, mid, kind) && Spells(Js, bytes, mid, end, fields)
      && Refused(Js, WireSchema(), MESSAGE, Array([kind, fields]), error)
  }

  /** At most one more item, and then the input stops. */
  ghost predicate LessThanAMessage(bytes: seq<byte>, from: nat) {
    || StopsAt(bytes, from)
    || exists mid: nat, kind | from < mid <= |bytes| :: Spells(Js, bytes, from, mid, kind) && StopsAt(bytes, mid)
  }

  lemma PairMeans(bytes: seq<byte>, from: nat, items: seq<Item>)
    requires |items| >= 2 && ItemsAt(bytes, from, items)
    ensures
      var r := FromFlattenedParts(Js, items[0].value, items[1].value);
      if r.Ok? then from < items[1].endOffset && MessageAt(bytes, from, items[1].endOffset, r.value)
      else NoMessageAt(bytes, from, r.error)
    ensures ItemsAt(bytes, items[1].endOffset, items[2..])
  {
    hide Spells, Means, Refused, DecodeModel, WireSchema, WireDeclarations;
    var rest := items[1..];
    assert rest[0] == items[1] && rest[1..] == items[2..];
    assert ItemsAt(bytes, items[0].endOffset, rest);
    var pair := Array([items[0].value, items[1].value]);
    var r := FromFlattenedParts(Js, items[0].value, items[1].value);
    if r.Ok? {
      DecodedIsMeant(Js, WireSchema(), MESSAGE, pair, r.value);
    } else {
      RefusalIsExplained(Js, WireSchema(), MESSAGE, pair, r.error);
    }
  }

  lemma {:induction false} PairsAreTaken(bytes: seq<byte>, from: nat, items: seq<Item>)
      returns (messages: seq<Model>, end: nat)
    requires from <= |bytes| && ItemsAt(bytes, from, items)
    ensures from <= end && MessagesAt(bytes, from, end, messages)
    ensures
      var r := PairUp(items, from);
      if r.Ok? then r.value == (messages, end) && (StopsAt(bytes, EndOf(from, items)) ==> LessThanAMessage(bytes, end))
      else r.error.BadMessage? && NoMessageAt(bytes, end, r.error.codec)
    decreases |items|
  {
    hide Spells, StopsAt, MessageAt, NoMessageAt, FromFlattenedParts, ItemsAt;
    messages, end := [], from;
    if |items| >= 2 {
      PairMeans(bytes, from, items);
      var next := items[1].endOffset;
      var r := FromFlattenedParts(Js, items[0].value, items[1].value);
      if r.Ok? {
        assert EndOf(next, items[2..]) == EndOf(from, items);
        EndsInside(bytes, from, items);
        var later, last := PairsAreTaken(bytes, next, items[2..]);
        messages, end := [r.value] + later, last;
        assert messages[1..] == later;
      }
    } else if |items| == 1 {
      OneItemLeft(bytes, from, items);
    }
  }

  lemma EndsInside(bytes: seq<byte>, from: nat, items: seq<Item>)
    requires |items| >= 2 && ItemsAt(bytes, from, items)
    ensures items[1].endOffset <= |bytes|
  {
    hide Spells;
    assert items[1..][0] == items[1];
  }

  lemma OneItemLeft(bytes: seq<byte>, from: nat, items: seq<Item>)
    requires |items| == 1 && ItemsAt(bytes, from, items)
    ensures StopsAt(bytes, EndOf(from, items)) ==> LessThanAMessage(bytes, from)
  {
    hide Spells, StopsAt;
  }

  // ---------- the front of a buffer ----------

  /** What the buffer's front gives: the whole messages there are, with less than one more behind them; an error
      that some item behind whole items has; or, if all items are well formed, why two of them behind whole
      messages are no message. */
  ghost predicate FrontIs(bytes: seq<byte>, r: Result<(seq<Model>, nat), StreamError>) {
    if r.Ok? then
      r.value.1 <= |bytes| && MessagesAt(bytes, 0, r.value.1, r.value.0) && LessThanAMessage(bytes, r.value.1)
    else
      match r.error
      case BadCbor(error) => exists items :: ItemsAt(bytes, 0, items) && FailsAt(bytes, EndOf(0, items), error)
      case BadMessage(error) =>
        && (exists items :: ItemsAt(bytes, 0, items) && StopsAt(bytes, EndOf(0, items)))
        && (exists messages, end: nat :: MessagesAt(bytes, 0, end, messages) && NoMessageAt(bytes, end, error))
      case _ => false
  }

  lemma FrontIsTaken(bytes: seq<byte>)
    ensures FrontIs(bytes, MessagesInFront(bytes))
  {
    hide StopsAt, FailsAt, ItemsFrom, PairUp, ItemsAt, MessagesAt, NoMessageAt, LessThanAMessage;
    var items := ItemsAreTaken(bytes, 0);
    if ItemsFrom(bytes, 0).Ok? {
      var messages, end := PairsAreTaken(bytes, 0, items);
      if PairUp(items, 0).Ok? {
        MessagesEndInside(bytes, 0, end, messages);
      }
    }
  }

  lemma {:induction false} MessagesEndInside(bytes: seq<byte>, from: nat, end: nat, messages: seq<Model>)
    requires from <= |bytes| && MessagesAt(bytes, from, end, messages)
    ensures end <= |bytes|
    decreases |messages|
  {
    if messages != [] {
      var next: nat :| from < next <= end && MessageAt(bytes, from, next, messages[0])
                       && MessagesAt(bytes, next, end, messages[1..]);
      MessagesEndInside(bytes, next, end, messages[1..]);
    }
  }
}
