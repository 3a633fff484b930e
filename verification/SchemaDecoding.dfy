/** What the generated Rust decoders give for input that no generated encoder may have written. */
module SchemaDecoding {
  import opened Wrappers
  import opened Bytes
  import opened CborValue
  import opened Cbor
  import opened CborTheorems
  import opened Schema
  import opened SchemaLaws
  import opened SchemaEvolution
  import Utf8

  lemma {:induction false} DefaultIsTyped(s: Schema, ty: TypeRef)
    requires Valid(s) && Declared(s, ty)
    ensures HasType(s, ty, Default(s, ty)) && InRange(s, ty, Default(s, ty))
    decreases Depth(s, ty), 1
  {
    match ty
    case Named(path) =>
      assert ValidDecl(s, s[path]);
      match s[path] {
        case Struct(depth, fields) => DefaultSlotsAreTyped(s, fields, depth);
        case Enum(_) =>
        case Union(depth, variants) =>
          assert VariantIds(variants) != [];
          DefaultSlotsAreTyped(s, variants[0].fields, depth);
      }
    case Str => assert Utf8.Valid([]);
    case _ =>
  }

  lemma {:induction false} DefaultSlotsAreTyped(s: Schema, fields: seq<Field>, depth: nat)
    requires Valid(s) && ValidFields(s, fields, depth)
    ensures HaveTypes(s, fields, DefaultSlots(s, fields, depth))
    ensures SlotsInRange(s, fields, DefaultSlots(s, fields, depth))
    decreases depth, 0
  {
    forall i | 0 <= i < |fields| && !fields[i].optional
      ensures HasType(s, fields[i].ty, Default(s, fields[i].ty)) && InRange(s, fields[i].ty, Default(s, fields[i].ty))
    {
      DefaultIsTyped(s, fields[i].ty);
    }
  }

  lemma {:induction false} ItemsPrintAtLeastTheirCount(items: seq<Value>)
    requires FitsItems(items)
    ensures |items| <= |PrintItems(items)|
  {
    if items != [] {
      ItemsPrintAtLeastTheirCount(items[1..]);
    }
  }

  lemma {:induction false} EntryPrintsWithin(entries: seq<Entry>, i: nat)
    requires FitsEntries(entries) && i < |entries|
    ensures FitsEntry(entries[i]) && |Print(entries[i].value)| <= |PrintEntries(entries)|
  {
    hide Print;
    if i > 0 {
      EntryPrintsWithin(entries[1..], i - 1);
    }
  }

  /** Whatever value the decoder is given, what it accepts is a value of the type; the bound is the longest
      string that a host can hold. */
  lemma {:induction false} DecodedIsTyped(s: Schema, ty: TypeRef, v: Value)
    requires Valid(s) && Declared(s, ty) && Fits(v) && |Print(v)| <= MAX_SAFE && DecodeModel(Rust, s, ty, v).Ok?
    ensures HasType(s, ty, DecodeModel(Rust, s, ty, v).value)
    decreases v, 1
  {
    match ty
    case ArrayOf(item) =>
      ItemsPrintAtLeastTheirCount(v.items);
      DecodedItemsAreTyped(s, item, v.items);
    case Named(path) =>
      assert ValidDecl(s, s[path]);
      match s[path] {
        case Struct(_, fields) => DecodedSlotsAreTyped(s, fields, v.entries);
        case Enum(_) =>
        case Union(_, variants) =>
          var index := FindId(VariantIds(variants), ExpectU64(Rust, v.items[0]).value);
          assert PrintItems(v.items) == Print(v.items[0]) + (Print(v.items[1]) + PrintItems(v.items[1..][1..]));
          assert Fits(v.items[1]);
          DecodedSlotsAreTyped(s, variants[index].fields, v.items[1].entries);
      }
    case _ =>
  }

  lemma {:induction false} DecodedItemsAreTyped(s: Schema, ty: TypeRef, items: seq<Value>)
    requires Valid(s) && Declared(s, ty) && FitsItems(items) && |PrintItems(items)| <= MAX_SAFE
    requires DecodeItems(Rust, s, ty, items).Ok?
    ensures
      var models := DecodeItems(Rust, s, ty, items).value;
      |models| == |items| && forall i | 0 <= i < |models| :: HasType(s, ty, models[i])
    decreases items, 0
  {
    hide HasType;
    if items != [] {
      DecodedIsTyped(s, ty, items[0]);
      DecodedItemsAreTyped(s, ty, items[1..]);
    }
  }

  lemma {:induction false} DecodedSlotsAreTyped(s: Schema, fields: seq<Field>, entries: seq<Entry>)
    requires Valid(s) && (forall i | 0 <= i < |fields| :: Declared(s, fields[i].ty)) && FitsEntries(entries)
    requires |PrintEntries(entries)| <= MAX_SAFE
    requires DecodeSlots(Rust, s, fields, entries).Ok?
    ensures HaveTypes(s, fields, DecodeSlots(Rust, s, fields, entries).value)
    decreases entries, 1, |fields|
  {
    hide HasType;
    if fields != [] {
      DecodedSlotIsTyped(s, fields[0], entries);
      DecodedSlotsAreTyped(s, fields[1..], entries);
    }
  }

  lemma {:induction false} DecodedSlotIsTyped(s: Schema, field: Field, entries: seq<Entry>)
    requires Valid(s) && Declared(s, field.ty) && FitsEntries(entries)
    requires |PrintEntries(entries)| <= MAX_SAFE
    requires DecodeSlot(Rust, s, field, entries).Ok?
    ensures SlotHasType(s, field, DecodeSlot(Rust, s, field, entries).value)
    decreases entries, 0
  {
    hide HasType;
    var i := FindKey(entries, field.id);
    if i < |entries| {
      EntryPrintsWithin(entries, i);
      DecodedEntryIsTyped(s, field.ty, entries[i]);
    } else {
      DefaultIsTyped(s, field.ty);
    }
  }

  lemma {:induction false} DecodedEntryIsTyped(s: Schema, ty: TypeRef, entry: Entry)
    requires Valid(s) && Declared(s, ty) && FitsEntry(entry) && |Print(entry.value)| <= MAX_SAFE
    requires DecodeEntry(Rust, s, ty, entry).Ok?
    ensures HasType(s, ty, DecodeEntry(Rust, s, ty, entry).value)
    decreases entry, 0
  {
    DecodedIsTyped(s, ty, entry.value);
  }

  /** Any bytes that the decoders accept as a value of a type, whoever wrote them, give a value of that type,
      and it can be encoded again exactly when its integers are safe and its floats finite; the fields nobody
      declared are then gone and the absent required ones filled in, and the typed value is the same. */
  lemma AcceptedBytesAreTyped(s: Schema, ty: TypeRef, bytes: seq<byte>)
    requires Valid(s) && Declared(s, ty) && |bytes| <= MAX_SAFE
    requires Decode(bytes).Done? && DecodeModel(Rust, s, ty, Decode(bytes).value).Ok?
    ensures
      var m := DecodeModel(Rust, s, ty, Decode(bytes).value).value;
      && HasType(s, ty, m)
      && var again := EncodeModel(s, ty, m);
      && (again.Ok? <==> InRange(s, ty, m))
      && (again.Ok? ==>
        && RustValue(again.value)
        && Decode(Print(again.value)).Done?
        && DecodeModel(Rust, s, ty, Decode(Print(again.value)).value) == Ok(m))
  {
    AcceptedInput(bytes);
    DecodedIsTyped(s, ty, Decode(bytes).value);
    var m := DecodeModel(Rust, s, ty, Decode(bytes).value).value;
    EncodeSucceedsInRange(Rust, s, ty, m);
    if InRange(s, ty, m) {
      TypedRoundTrip(s, ty, m);
    }
  }
}
