/** Which bytes are a message: the grammar of the encoding and the meaning of the types, joined. */
module WireGrammar {
  import opened Wrappers
  import opened Bytes
  import opened CborValue
  import opened Cbor
  import opened CborLaws
  import opened CborTheorems
  import opened CborGrammar
  import opened Schema
  import opened SchemaViews
  import opened SchemaReading
  import opened Wire
  import opened MessageSequence

  // ---------- the order of map entries means nothing ----------

  /** The entry that a key holds before sorting is the one that it holds afterwards. */
  lemma SortedHolds(entries: seq<Entry>, key: u64)
    requires FitsEntries(entries) && Distinct(entries)
    ensures
      var sorted := SortEntries(SortValues(entries));
      var i, j := FindKey(entries, key), FindKey(sorted, key);
      if i < |entries| then j < |sorted| && sorted[j] == SortEntry(entries[i]) else j == |sorted|
  {
    var values := SortValues(entries);
    var sorted := SortEntries(values);
    SortEntriesMembers(values);
    SortEntriesAscends(values);
    var i, j := FindKey(entries, key), FindKey(sorted, key);
    if i < |entries| {
      assert values[i] in sorted;
      var k :| 0 <= k < |sorted| && sorted[k] == values[i];
      assert sorted[k].key == key;
    }
    if j < |sorted| {
      assert sorted[j] in values;
      var k :| 0 <= k < |values| && values[k] == sorted[j];
      assert entries[k].key == key;
    }
  }

  lemma {:induction false} SortKeepsMeaning(d: Dialect, s: Schema, ty: TypeRef, v: Value, m: Model)
    requires Valid(s) && Declared(s, ty) && Fits(v)
    ensures Means(d, s, ty, Sort(v), m) <==> Means(d, s, ty, v, m)
    decreases v, 1
  {
    match ty
    case ArrayOf(item) => SortKeepsItems(d, s, item, v, m);
    case Named(path) =>
      assert ValidDecl(s, s[path]);
      match s[path] {
        case Struct(_, fields) =>
          if v.Map? && m.Record? {
            SortKeepsFields(d, s, fields, v.entries, m.slots);
          }
        case Enum(_) =>
        case Union(_, _) => SortKeepsUnion(d, s, path, v, m);
      }
    case _ =>
  }

  lemma {:induction false} SortKeepsItems(d: Dialect, s: Schema, item: TypeRef, v: Value, m: Model)
    requires Valid(s) && Declared(s, item) && Fits(v)
    ensures Means(d, s, ArrayOf(item), Sort(v), m) <==> Means(d, s, ArrayOf(item), v, m)
    decreases v, 0
  {
    if v.Array? && m.List? && |m.items| == |v.items| {
      forall i | 0 <= i < |v.items|
        ensures Means(d, s, item, Sort(v.items[i]), m.items[i]) <==> Means(d, s, item, v.items[i], m.items[i])
      {
        SortKeepsMeaning(d, s, item, v.items[i], m.items[i]);
      }
    }
  }

  lemma {:induction false} SortKeepsUnion(d: Dialect, s: Schema, path: string, v: Value, m: Model)
    requires Valid(s) && path in s && s[path].Union? && Fits(v)
    ensures Means(d, s, Named(path), Sort(v), m) <==> Means(d, s, Named(path), v, m)
    decreases v, 0
  {
    assert ValidDecl(s, s[path]);
    var variants := s[path].variants;
    if v.Array? && |v.items| == 2 && v.items[1].Map? && m.Case? && m.index < |variants| {
      assert ValidFields(s, variants[m.index].fields, s[path].depth);
      assert Fits(v.items[1]);
      SortKeepsFields(d, s, variants[m.index].fields, v.items[1].entries, m.slots);
    }
  }

  lemma {:induction false} SortKeepsFields(d: Dialect, s: Schema, fields: seq<Field>, entries: seq<Entry>, slots: seq<Slot>)
    requires Valid(s) && (forall i | 0 <= i < |fields| :: Declared(s, fields[i].ty))
    requires FitsEntries(entries) && Distinct(entries)
    ensures FieldsMean(d, s, fields, SortEntries(SortValues(entries)), slots) <==> FieldsMean(d, s, fields, entries, slots)
    decreases entries, 1
  {
    hide Valid, Declared, FieldMeans, SortEntries, SortValues;
    if |slots| == |fields| {
      forall k | 0 <= k < |fields|
        ensures FieldMeans(d, s, fields[k], SortEntries(SortValues(entries)), slots[k])
          <==> FieldMeans(d, s, fields[k], entries, slots[k])
      {
        SortKeepsField(d, s, fields[k], entries, slots[k]);
      }
    }
  }

  lemma {:induction false} SortKeepsField(d: Dialect, s: Schema, field: Field, entries: seq<Entry>, slot: Slot)
    requires Valid(s) && Declared(s, field.ty) && FitsEntries(entries) && Distinct(entries)
    ensures FieldMeans(d, s, field, SortEntries(SortValues(entries)), slot) <==> FieldMeans(d, s, field, entries, slot)
    decreases entries, 0
  {
    hide Valid, Declared, Means, SortEntries, SortValues, Fits;
    SortedHolds(entries, field.id);
    KeyIsFoundAt(entries, field.id);
    KeyIsFoundAt(SortEntries(SortValues(entries)), field.id);
    var i := FindKey(entries, field.id);
    if i < |entries| && slot.Present? {
      assert FitsEntry(entries[i]);
      SortKeepsEntry(d, s, field.ty, entries[i], slot.value);
    }
  }

  lemma {:induction false} SortKeepsEntry(d: Dialect, s: Schema, ty: TypeRef, entry: Entry, m: Model)
    requires Valid(s) && Declared(s, ty) && FitsEntry(entry)
    ensures EntryMeans(d, s, ty, SortEntry(entry), m) <==> EntryMeans(d, s, ty, entry, m)
    decreases entry, 0
  {
    SortKeepsMeaning(d, s, ty, entry.value, m);
  }

  // ---------- messages ----------

  /** The first `n` bytes are a message: they spell its kind and its fields, which mean it. */
  ghost predicate SpellsMessage(bytes: seq<byte>, n: nat, m: Model) {
    n <= |bytes| && exists k: nat, kind, fields | 0 < k < n :: SpelledParts(bytes, k, n, kind, fields, m)
  }

  ghost predicate SpelledParts(bytes: seq<byte>, k: nat, n: nat, kind: Value, fields: Value, m: Model)
    requires 0 < k < n <= |bytes|
  {
    && Spells(Rust, bytes, 0, k, kind) && Spells(Rust, bytes, k, n, fields)
    && Means(Rust, WireSchema(), MESSAGE, Array([kind, fields]), m)
  }

  lemma PartsMean(kind: Value, fields: Value, m: Model)
    requires Fits(kind) && Fits(fields)
    ensures FromFlattenedParts(Rust, Sort(kind), Sort(fields)) == Ok(m)
      <==> Means(Rust, WireSchema(), MESSAGE, Array([kind, fields]), m)
  {
    hide Means, Sort, WireSchema, WireDeclarations, DecodeModel;
    var v := Array([kind, fields]);
    assert FitsItems([kind, fields]);
    assert Fits(v) by {
      assert |[kind, fields]| == 2;
    }
    SortPair(kind, fields);
    DecodedIsMeant(Rust, WireSchema(), MESSAGE, Sort(v), m);
    SortKeepsMeaning(Rust, WireSchema(), MESSAGE, v, m);
  }

  lemma SortPair(kind: Value, fields: Value)
    ensures Sort(Array([kind, fields])) == Array([Sort(kind), Sort(fields)])
  {
    assert SortItems([kind, fields]) == [Sort(kind), Sort(fields)];
  }

  /** A message is taken from the front of a buffer exactly if the front is one, with exactly its bytes. */
  lemma MessageIsSpelled(bytes: seq<byte>, n: nat, m: Model)
    ensures MessagePrefix(bytes) == Ok(Some((m, n))) <==> SpellsMessage(bytes, n, m)
  {
    hide Parse, Spells, Sort, Means, FromFlattenedParts, WireSchema;
    if MessagePrefix(bytes) == Ok(Some((m, n))) {
      var k := Parse(Rust, bytes, 0).next;
      ParseAtOffset(Rust, bytes, k);
      var kind, fields := Parse(Rust, bytes, 0).value, Parse(Rust, bytes, k).value;
      ItemIsSpelled(Rust, bytes, 0, k, kind);
      ItemIsSpelled(Rust, bytes, k, n, fields);
      PrintParsed(bytes, 0);
      PrintParsed(bytes, k);
      PartsMean(kind, fields, m);
      assert SpelledParts(bytes, k, n, kind, fields, m);
    }
    if SpellsMessage(bytes, n, m) {
      var k: nat, kind, fields :| 0 < k < n && SpelledParts(bytes, k, n, kind, fields, m);
      ItemIsSpelled(Rust, bytes, 0, k, kind);
      ItemIsSpelled(Rust, bytes, k, n, fields);
      ParseAtOffset(Rust, bytes, k);
      PrintParsed(bytes, 0);
      PrintParsed(bytes, k);
      PartsMean(kind, fields, m);
    }
  }

  /** Why the front of a buffer is refused: one of its two items is, or the two together are no message. */
  ghost predicate BadFront(bytes: seq<byte>, error: WireError) {
    match error
    case CborFailure(cbor) =>
      && cbor != UnexpectedEnd
      && (|| Parse(Rust, bytes, 0) == Fail(cbor)
          || exists k: nat, kind | 0 < k <= |bytes| ::
               Spells(Rust, bytes, 0, k, kind) && Parse(Rust, bytes, k) == Fail(cbor))
    case CodecFailure(codec) =>
      exists k: nat, n: nat, kind, fields | 0 < k < n <= |bytes| ::
        && Spells(Rust, bytes, 0, k, kind) && Spells(Rust, bytes, k, n, fields)
        && Refused(Rust, WireSchema(), MESSAGE, Array([Sort(kind), Sort(fields)]), codec)
    case _ => false
  }

  lemma RefusalNamesBadFront(bytes: seq<byte>, error: WireError)
    requires MessagePrefix(bytes) == Err(error)
    ensures BadFront(bytes, error)
  {
    hide Parse, Spells, Sort, Means, Refused, WireSchema, WireDeclarations, DecodeModel;
    var first := Parse(Rust, bytes, 0);
    if first.Done? {
      var k := first.next;
      ItemIsSpelled(Rust, bytes, 0, k, first.value);
      ParseAtOffset(Rust, bytes, k);
      var second := Parse(Rust, bytes, k);
      if second.Done? {
        ItemIsSpelled(Rust, bytes, k, second.next, second.value);
        RefusalIsExplained(Rust, WireSchema(), MESSAGE, Array([Sort(first.value), Sort(second.value)]), error.codec);
      }
    }
  }

  /** A buffer counts as too large exactly if it is longer than the limit, whatever it holds. */
  lemma OnlyLongBuffersAreTooLarge(bytes: seq<byte>)
    ensures DecodePrefix(bytes) == Err(SequenceTooLarge) <==> |bytes| > 64 * 1024 * 1024
    ensures |bytes| <= 64 * 1024 * 1024 ==> DecodePrefix(bytes) == MessagePrefix(bytes)
  {
    hide MessagePrefix;
    if MessagePrefix(bytes).Err? {
      RefusalNamesBadFront(bytes, MessagePrefix(bytes).error);
    }
  }

  // ---------- a whole buffer at once ----------

  /** The items of a buffer up to its end, or up to the first that does not decode. */
  lemma {:induction false} SequenceIsSpelled(bytes: seq<byte>, pos: nat) returns (items: seq<Value>, end: nat)
    requires pos <= |bytes|
    ensures pos <= end <= |bytes| && SpellItems(Rust, bytes, pos, end, items)
    ensures
      var r := ValueSequence(bytes[pos..]);
      if r.Ok? then end == |bytes| && r.value == SortItems(items)
      else end < |bytes| && Parse(Rust, bytes, end) == Fail(r.error)
    decreases |bytes| - pos
  {
    hide Parse, Spells, Sort;
    items, end := [], pos;
    if pos < |bytes| {
      var first := Parse(Rust, bytes, pos);
      ParseAtOffset(Rust, bytes, pos);
      if first.Done? {
        ItemIsSpelled(Rust, bytes, pos, first.next, first.value);
        assert bytes[pos..][first.next - pos..] == bytes[first.next..];
        var rest, last := SequenceIsSpelled(bytes, first.next);
        items, end := [first.value] + rest, last;
        assert items[1..] == rest;
      }
    }
  }

  /** The first pair of items that is no message. */
  lemma {:induction false} FirstBadPair(values: seq<Value>, error: WireError) returns (k: nat)
    requires Pairs(values) == Err(error) && |values| % 2 == 0
    ensures error.CodecFailure? && k + 1 < |values| && k % 2 == 0
    ensures FromFlattenedParts(Rust, values[k], values[k + 1]) == Err(error.codec)
  {
    hide FromFlattenedParts;
    if FromFlattenedParts(Rust, values[0], values[1]).Err? {
      k := 0;
    } else {
      k := FirstBadPair(values[2..], error);
      k := k + 2;
    }
  }

  /** Why a buffer is refused: it is too long, empty, holds an item that does not decode (also because it is cut),
      an odd number of items, or two items that are no message. */
  ghost predicate BadSequence(bytes: seq<byte>, error: WireError) {
    match error
    case SequenceTooLarge => |bytes| > MAX_MESSAGE_SEQUENCE_SIZE
    case EmptySequence => bytes == []
    case CborFailure(cbor) =>
      exists items, end: nat | end < |bytes| ::
        SpellItems(Rust, bytes, 0, end, items) && Parse(Rust, bytes, end) == Fail(cbor)
    case IncompleteMessagePair => exists items :: SpellItems(Rust, bytes, 0, |bytes|, items) && |items| % 2 == 1
    case CodecFailure(codec) =>
      exists items, k: nat | k + 1 < |items| && k % 2 == 0 ::
        && SpellItems(Rust, bytes, 0, |bytes|, items)
        && Refused(Rust, WireSchema(), MESSAGE, Array([Sort(items[k]), Sort(items[k + 1])]), codec)
  }

  lemma BatchRefusalIsExplained(bytes: seq<byte>, error: WireError)
    requires DecodeSequence(bytes) == Err(error)
    ensures BadSequence(bytes, error)
    ensures error != SequenceTooLarge ==> |bytes| <= MAX_MESSAGE_SEQUENCE_SIZE
  {
    hide ValueSequence, Pairs, Parse, SpellItems, Sort, Refused, WireSchema, WireDeclarations, DecodeModel;
    var items, end := SequenceIsSpelled(bytes, 0);
    assert bytes[0..] == bytes;
    var values := ValueSequence(bytes);
    if |bytes| <= MAX_MESSAGE_SEQUENCE_SIZE && values.Ok? && values.value != [] && |values.value| % 2 == 0 {
      var k := FirstBadPair(values.value, error);
      RefusalIsExplained(Rust, WireSchema(), MESSAGE, Array([Sort(items[k]), Sort(items[k + 1])]), error.codec);
    }
    if values == Ok([]) && bytes != [] {
      ValuesAreSome(bytes);
    }
  }
}
