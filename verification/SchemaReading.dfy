/** What the generated decoders make of any value whatever, as relations that do not decode. */
module SchemaReading {
  import opened Wrappers
  import opened Bytes
  import opened CborValue
  import opened Cbor
  import opened CborFormat
  import opened Schema
  import opened SchemaViews

  predicate IsInteger(v: Value, n: int) {
    (v.U64? && v.u == n) || (v.I64? && v.i == n)
  }

  /** The value reads as the typed value.  Rust wants numbers to fit the type, TypeScript lets any integer pass;
      entries that no field asks for do not matter. */
  ghost predicate Means(d: Dialect, s: Schema, ty: TypeRef, v: Value, m: Model)
    decreases v, 1
  {
    match ty
    case Void => m == Unit
    case U53 => m.Number? && IsInteger(v, m.n) && (d.Rust? ==> 0 <= m.n)
    case I53 => m.Number? && IsInteger(v, m.n) && (d.Rust? ==> m.n <= I64_MAX)
    case Float => m.Double? && v == F64(m.bits)
    case Str => m.Chars? && v == Text(m.utf8)
    case Flag => m.Truth? && v == Bool(m.b)
    case Blob => m.Octets? && v == Bytes(m.bytes)
    case ArrayOf(item) => v.Array? && m.List? && ItemsMean(d, s, item, v.items, m.items)
    case Named(path) =>
      path in s &&
      match s[path]
      case Struct(_, fields) => v.Map? && m.Record? && FieldsMean(d, s, fields, v.entries, m.slots)
      case Enum(ids) => m.Choice? && m.index < |ids| && IsInteger(v, ids[m.index])
      case Union(_, variants) =>
        && v.Array? && |v.items| == 2 && v.items[1].Map?
        && m.Case? && m.index < |variants| && IsInteger(v.items[0], variants[m.index].id)
        && FieldsMean(d, s, variants[m.index].fields, v.items[1].entries, m.slots)
  }

  ghost predicate ItemsMean(d: Dialect, s: Schema, ty: TypeRef, items: seq<Value>, models: seq<Model>)
    decreases items, 0
  {
    |models| == |items| && forall i | 0 <= i < |items| :: Means(d, s, ty, items[i], models[i])
  }

  ghost predicate FieldsMean(d: Dialect, s: Schema, fields: seq<Field>, entries: seq<Entry>, slots: seq<Slot>)
    decreases entries, 1
  {
    |slots| == |fields| && forall k | 0 <= k < |fields| :: FieldMeans(d, s, fields[k], entries, slots[k])
  }

  /** Entry `i` is the first under the key. */
  ghost predicate Holds(entries: seq<Entry>, key: u64, i: nat) {
    i < |entries| && entries[i].key == key && forall j | 0 <= j < i :: entries[j].key != key
  }

  /** A field is what its entry means; without one it is absent, or zero if it is required. */
  ghost predicate FieldMeans(d: Dialect, s: Schema, field: Field, entries: seq<Entry>, slot: Slot)
    decreases entries, 0
  {
    if exists i :: Holds(entries, field.id, i) then
      slot.Present? && forall i | 0 <= i < |entries| && Holds(entries, field.id, i) ::
        EntryMeans(d, s, field.ty, entries[i], slot.value)
    else if field.optional then slot.Absent?
    else slot.Present? && IsZero(s, field.ty, slot.value)
  }

  ghost predicate EntryMeans(d: Dialect, s: Schema, ty: TypeRef, entry: Entry, m: Model)
    decreases entry, 0
  {
    Means(d, s, ty, entry.value, m)
  }

  // ---------- decoding gives the meaning ----------

  lemma KeyIsFoundAt(entries: seq<Entry>, key: u64)
    ensures var i := FindKey(entries, key);
            && (i < |entries| ==> Holds(entries, key, i))
            && forall j: nat :: Holds(entries, key, j) ==> j == i
  {
  }

  /** A decoder accepts a value exactly as what it means. */
  lemma {:induction false} DecodedIsMeant(d: Dialect, s: Schema, ty: TypeRef, v: Value, m: Model)
    requires Valid(s) && Declared(s, ty)
    ensures DecodeModel(d, s, ty, v) == Ok(m) <==> Means(d, s, ty, v, m)
    decreases v, 1
  {
    match ty
    case ArrayOf(item) =>
      if v.Array? && m.List? {
        DecodedItemsAreMeant(d, s, item, v.items, m.items);
      }
    case Named(path) =>
      assert ValidDecl(s, s[path]);
      match s[path] {
        case Struct(_, fields) =>
          if v.Map? && m.Record? {
            DecodedFieldsAreMeant(d, s, fields, v.entries, m.slots);
          }
        case Enum(ids) => EnumIsMeant(d, s, path, v, m);
        case Union(_, variants) => UnionIsMeant(d, s, path, v, m);
      }
    case _ =>
  }

  lemma EnumIsMeant(d: Dialect, s: Schema, path: string, v: Value, m: Model)
    requires Valid(s) && path in s && s[path].Enum?
    ensures DecodeModel(d, s, Named(path), v) == Ok(m) <==> Means(d, s, Named(path), v, m)
  {
    assert ValidDecl(s, s[path]);
    if m.Choice? && ExpectU64(d, v).Ok? {
      forall id: Id ensures FindId(s[path].ids, id) < |s[path].ids| && FindId(s[path].ids, id) == m.index
          <==> m.index < |s[path].ids| && s[path].ids[m.index] == id {
        IdIsFoundAt(s[path].ids, id, m.index);
      }
    }
  }

  lemma {:induction false} UnionIsMeant(d: Dialect, s: Schema, path: string, v: Value, m: Model)
    requires Valid(s) && path in s && s[path].Union?
    ensures DecodeModel(d, s, Named(path), v) == Ok(m) <==> Means(d, s, Named(path), v, m)
    decreases v, 0
  {
    assert ValidDecl(s, s[path]);
    var variants := s[path].variants;
    if v.Array? && |v.items| == 2 && v.items[1].Map? && m.Case? && m.index < |variants| {
      assert ValidFields(s, variants[m.index].fields, s[path].depth);
      DecodedFieldsAreMeant(d, s, variants[m.index].fields, v.items[1].entries, m.slots);
      IdIsFoundAt(VariantIds(variants), variants[m.index].id, m.index);
    }
    hide DecodeSlots, FieldsMean;
  }

  lemma {:induction false} DecodedItemsAreMeant(d: Dialect, s: Schema, ty: TypeRef, items: seq<Value>, models: seq<Model>)
    requires Valid(s) && Declared(s, ty)
    ensures DecodeItems(d, s, ty, items) == Ok(models) <==> ItemsMean(d, s, ty, items, models)
    decreases items, 0
  {
    hide Valid, Declared, DecodeModel, Means;
    if items != [] && models != [] {
      DecodedIsMeant(d, s, ty, items[0], models[0]);
      DecodedItemsAreMeant(d, s, ty, items[1..], models[1..]);
      ItemsMeanStep(d, s, ty, items, models);
      assert models == [models[0]] + models[1..];
    }
  }

  lemma ItemsMeanStep(d: Dialect, s: Schema, ty: TypeRef, items: seq<Value>, models: seq<Model>)
    requires items != [] && models != []
    ensures ItemsMean(d, s, ty, items, models) <==>
      Means(d, s, ty, items[0], models[0]) && ItemsMean(d, s, ty, items[1..], models[1..])
  {
    hide Means;
    assert items == [items[0]] + items[1..] && models == [models[0]] + models[1..];
  }

  lemma {:induction false} DecodedFieldsAreMeant(d: Dialect, s: Schema, fields: seq<Field>, entries: seq<Entry>,
                                                 slots: seq<Slot>)
    requires Valid(s) && forall i | 0 <= i < |fields| :: Declared(s, fields[i].ty)
    ensures DecodeSlots(d, s, fields, entries) == Ok(slots) <==> FieldsMean(d, s, fields, entries, slots)
    decreases entries, 1, |fields|
  {
    hide Valid, Declared, DecodeSlot, FieldMeans;
    if fields != [] && slots != [] {
      DecodedFieldIsMeant(d, s, fields[0], entries, slots[0]);
      DecodedFieldsAreMeant(d, s, fields[1..], entries, slots[1..]);
      FieldsMeanStep(d, s, fields, entries, slots);
      assert slots == [slots[0]] + slots[1..];
    }
  }

  lemma FieldsMeanStep(d: Dialect, s: Schema, fields: seq<Field>, entries: seq<Entry>, slots: seq<Slot>)
    requires fields != [] && slots != []
    ensures FieldsMean(d, s, fields, entries, slots) <==>
      FieldMeans(d, s, fields[0], entries, slots[0]) && FieldsMean(d, s, fields[1..], entries, slots[1..])
  {
    hide FieldMeans;
    assert fields == [fields[0]] + fields[1..] && slots == [slots[0]] + slots[1..];
  }

  lemma {:induction false} DecodedFieldIsMeant(d: Dialect, s: Schema, field: Field, entries: seq<Entry>, slot: Slot)
    requires Valid(s) && Declared(s, field.ty)
    ensures DecodeSlot(d, s, field, entries) == Ok(slot) <==> FieldMeans(d, s, field, entries, slot)
    decreases entries, 0
  {
    hide Valid, DecodeModel, Means;
    KeyIsFoundAt(entries, field.id);
    var i := FindKey(entries, field.id);
    if i < |entries| && slot.Present? {
      DecodedEntryIsMeant(d, s, field.ty, entries[i], slot.value);
    } else if slot.Present? {
      DefaultIsTheZero(s, field.ty, slot.value);
    }
  }

  lemma {:induction false} DecodedEntryIsMeant(d: Dialect, s: Schema, ty: TypeRef, entry: Entry, m: Model)
    requires Valid(s) && Declared(s, ty)
    ensures DecodeEntry(d, s, ty, entry) == Ok(m) <==> EntryMeans(d, s, ty, entry, m)
    decreases entry, 0
  {
    DecodedIsMeant(d, s, ty, entry.value, m);
  }

  // ---------- refusals ----------

  /** What a decoder of a plain type says about a value of another kind. */
  function KindError(ty: TypeRef): (error: CodecError) {
    match ty
    case Float => ExpectedF64
    case Str => ExpectedText
    case Flag => ExpectedBool
    case Blob => ExpectedBytes
    case ArrayOf(_) => ExpectedArray
    case _ => ExpectedInteger
  }

  ghost predicate Meaningful(d: Dialect, s: Schema, ty: TypeRef, v: Value) {
    exists m :: Means(d, s, ty, v, m)
  }

  ghost predicate FieldIsMeaningful(d: Dialect, s: Schema, field: Field, entries: seq<Entry>) {
    exists slot :: FieldMeans(d, s, field, entries, slot)
  }

  /** Why a value is refused: it is of another kind, names no variant, or the first item or field, in the order
      of the type, that means nothing is refused for that reason. */
  ghost predicate Refused(d: Dialect, s: Schema, ty: TypeRef, v: Value, error: CodecError)
    decreases v, 1
  {
    match ty
    case ArrayOf(item) =>
      if !v.Array? then error == ExpectedArray
      else exists k | 0 <= k < |v.items| ::
        && (forall j | 0 <= j < k :: Meaningful(d, s, item, v.items[j]))
        && Refused(d, s, item, v.items[k], error)
    case Named(path) =>
      path in s &&
      (match s[path]
       case Struct(_, fields) =>
         if !v.Map? then error == ExpectedMap else FieldsRefused(d, s, fields, v.entries, error)
       case Enum(ids) =>
         if !Meaningful(d, s, U53, v) then error == ExpectedInteger
         else exists n :: IsInteger(v, n) && n !in ids && error == UnknownEnumVariant(n)
       case Union(_, variants) =>
         if !v.Array? || |v.items| != 2 then error == ExpectedArray
         else if !Meaningful(d, s, U53, v.items[0]) then error == ExpectedInteger
         else if !v.items[1].Map? then error == ExpectedMap
         else
           || (exists n :: IsInteger(v.items[0], n) && n !in VariantIds(variants) && error == UnknownUnionVariant(n))
           || (exists k | 0 <= k < |variants| ::
                IsInteger(v.items[0], variants[k].id)
                && FieldsRefused(d, s, variants[k].fields, v.items[1].entries, error)))
    case _ => error == KindError(ty) && !Meaningful(d, s, ty, v)
  }

  ghost predicate FieldsRefused(d: Dialect, s: Schema, fields: seq<Field>, entries: seq<Entry>, error: CodecError)
    decreases entries, 2
  {
    exists k | 0 <= k < |fields| ::
      && (forall j | 0 <= j < k :: FieldIsMeaningful(d, s, fields[j], entries))
      && FieldRefused(d, s, fields[k], entries, error)
  }

  ghost predicate FieldRefused(d: Dialect, s: Schema, field: Field, entries: seq<Entry>, error: CodecError)
    decreases entries, 1
  {
    exists i | 0 <= i < |entries| :: Holds(entries, field.id, i) && EntryRefused(d, s, field.ty, entries[i], error)
  }

  ghost predicate EntryRefused(d: Dialect, s: Schema, ty: TypeRef, entry: Entry, error: CodecError)
    decreases entry, 0
  {
    Refused(d, s, ty, entry.value, error)
  }

  /** The error of a decoder says why the value means nothing. */
  lemma {:induction false} RefusalIsExplained(d: Dialect, s: Schema, ty: TypeRef, v: Value, error: CodecError)
    requires Valid(s) && Declared(s, ty) && DecodeModel(d, s, ty, v) == Err(error)
    ensures Refused(d, s, ty, v, error)
    decreases v, 1
  {
    match ty
    case ArrayOf(item) =>
      if v.Array? {
        var k := FirstRefusedItem(d, s, item, v.items, error);
      }
    case Named(path) =>
      assert ValidDecl(s, s[path]);
      match s[path] {
        case Struct(_, fields) =>
          if v.Map? {
            var k := FirstRefusedField(d, s, fields, v.entries, error);
          }
        case Enum(ids) =>
          UnsignedIsMeaningful(d, s, v);
        case Union(_, variants) =>
          UnionIsRefused(d, s, path, v, error);
      }
    case _ => PlainIsRefused(d, s, ty, v, error);
  }

  lemma PlainIsRefused(d: Dialect, s: Schema, ty: TypeRef, v: Value, error: CodecError)
    requires Valid(s) && !ty.ArrayOf? && !ty.Named? && DecodeModel(d, s, ty, v) == Err(error)
    ensures error == KindError(ty) && !Meaningful(d, s, ty, v)
  {
    forall m ensures !Means(d, s, ty, v, m) {
      DecodedIsMeant(d, s, ty, v, m);
    }
  }

  lemma UnsignedIsMeaningful(d: Dialect, s: Schema, v: Value)
    ensures Meaningful(d, s, U53, v) <==> ExpectU64(d, v).Ok?
    ensures ExpectU64(d, v).Ok? ==> IsInteger(v, ExpectU64(d, v).value)
    ensures ExpectU64(d, v).Err? ==> ExpectU64(d, v).error == ExpectedInteger
  {
    if ExpectU64(d, v).Ok? {
      assert Means(d, s, U53, v, Number(ExpectU64(d, v).value));
    }
  }

  lemma {:induction false} UnionIsRefused(d: Dialect, s: Schema, path: string, v: Value, error: CodecError)
    requires Valid(s) && path in s && s[path].Union? && DecodeModel(d, s, Named(path), v) == Err(error)
    ensures Refused(d, s, Named(path), v, error)
    decreases v, 0
  {
    assert ValidDecl(s, s[path]);
    var variants := s[path].variants;
    if v.Array? && |v.items| == 2 {
      UnsignedIsMeaningful(d, s, v.items[0]);
      if ExpectU64(d, v.items[0]).Ok? && v.items[1].Map? {
        var k := FindId(VariantIds(variants), ExpectU64(d, v.items[0]).value);
        if k < |variants| {
          assert ValidFields(s, variants[k].fields, s[path].depth);
          var first := FirstRefusedField(d, s, variants[k].fields, v.items[1].entries, error);
        }
      }
    }
    hide DecodeSlots, FieldsRefused, Meaningful;
  }

  lemma {:induction false} FirstRefusedItem(d: Dialect, s: Schema, ty: TypeRef, items: seq<Value>, error: CodecError)
      returns (k: nat)
    requires Valid(s) && Declared(s, ty) && DecodeItems(d, s, ty, items) == Err(error)
    ensures k < |items| && (forall j | 0 <= j < k :: Meaningful(d, s, ty, items[j]))
    ensures Refused(d, s, ty, items[k], error)
    decreases items, 0
  {
    hide Valid, Declared, DecodeModel, Means, Refused;
    var first := DecodeModel(d, s, ty, items[0]);
    if first.Err? {
      RefusalIsExplained(d, s, ty, items[0], error);
      k := 0;
    } else {
      DecodedIsMeant(d, s, ty, items[0], first.value);
      k := FirstRefusedItem(d, s, ty, items[1..], error);
      k := k + 1;
      assert forall j | 0 < j < k :: items[j] == items[1..][j - 1];
    }
  }

  lemma {:induction false} FirstRefusedField(d: Dialect, s: Schema, fields: seq<Field>, entries: seq<Entry>,
                                             error: CodecError) returns (k: nat)
    requires Valid(s) && (forall i | 0 <= i < |fields| :: Declared(s, fields[i].ty))
    requires DecodeSlots(d, s, fields, entries) == Err(error)
    ensures k < |fields| && (forall j | 0 <= j < k :: FieldIsMeaningful(d, s, fields[j], entries))
    ensures FieldRefused(d, s, fields[k], entries, error)
    decreases entries, 1, |fields|
  {
    hide Valid, Declared, DecodeSlot, FieldMeans, EntryRefused;
    var first := DecodeSlot(d, s, fields[0], entries);
    if first.Err? {
      var i := EntryIsRefused(d, s, fields[0], entries, error);
      assert Holds(entries, fields[0].id, i) && EntryRefused(d, s, fields[0].ty, entries[i], error);
      k := 0;
    } else {
      DecodedFieldIsMeant(d, s, fields[0], entries, first.value);
      k := FirstRefusedField(d, s, fields[1..], entries, error);
      k := k + 1;
      assert forall j | 0 < j <= k :: fields[j] == fields[1..][j - 1];
    }
  }

  lemma {:induction false} EntryIsRefused(d: Dialect, s: Schema, field: Field, entries: seq<Entry>, error: CodecError)
      returns (i: nat)
    requires Valid(s) && Declared(s, field.ty) && DecodeSlot(d, s, field, entries) == Err(error)
    ensures i < |entries| && Holds(entries, field.id, i) && EntryRefused(d, s, field.ty, entries[i], error)
    decreases entries, 0
  {
    hide Valid, Declared, DecodeModel, Refused;
    KeyIsFoundAt(entries, field.id);
    i := FindKey(entries, field.id);
    EntryValueIsRefused(d, s, field.ty, entries[i], error);
  }

  lemma {:induction false} EntryValueIsRefused(d: Dialect, s: Schema, ty: TypeRef, entry: Entry, error: CodecError)
    requires Valid(s) && Declared(s, ty) && DecodeEntry(d, s, ty, entry) == Err(error)
    ensures EntryRefused(d, s, ty, entry, error)
    decreases entry, 0
  {
    RefusalIsExplained(d, s, ty, entry.value, error);
  }

  // ---------- the two languages ----------

  /** Every number is in the range of its type. */
  ghost predicate NumbersFit(s: Schema, ty: TypeRef, m: Model)
    decreases m, 1
  {
    match ty
    case U53 => m.Number? ==> 0 <= m.n
    case I53 => m.Number? ==> m.n <= I64_MAX
    case ArrayOf(item) => m.List? ==> forall i | 0 <= i < |m.items| :: NumbersFit(s, item, m.items[i])
    case Named(path) =>
      path in s &&
      (match s[path]
       case Struct(_, fields) => m.Record? ==> SlotNumbersFit(s, fields, m.slots)
       case Enum(_) => true
       case Union(_, variants) => m.Case? && m.index < |variants| ==> SlotNumbersFit(s, variants[m.index].fields, m.slots))
    case _ => true
  }

  ghost predicate SlotNumbersFit(s: Schema, fields: seq<Field>, slots: seq<Slot>)
    decreases slots, 1
  {
    forall k | 0 <= k < |slots| && k < |fields| :: SlotNumberFits(s, fields[k], slots[k])
  }

  ghost predicate SlotNumberFits(s: Schema, field: Field, slot: Slot)
    decreases slot, 0
  {
    slot.Present? ==> NumbersFit(s, field.ty, slot.value)
  }

  lemma {:induction false} ZeroFits(s: Schema, ty: TypeRef, m: Model)
    requires IsZero(s, ty, m)
    ensures NumbersFit(s, ty, m)
    decreases m, 1
  {
    if ty.Named? {
      match s[ty.path]
      case Struct(_, fields) => ZeroSlotsFit(s, fields, m.slots);
      case Enum(_) =>
      case Union(_, variants) => ZeroSlotsFit(s, variants[0].fields, m.slots);
    }
  }

  lemma {:induction false} ZeroSlotsFit(s: Schema, fields: seq<Field>, slots: seq<Slot>)
    requires AreZero(s, fields, slots)
    ensures SlotNumbersFit(s, fields, slots)
    decreases slots, 0
  {
    forall k | 0 <= k < |slots| ensures SlotNumberFits(s, fields[k], slots[k]) {
      assert IsZeroSlot(s, fields[k], slots[k]);
      ZeroSlotFits(s, fields[k], slots[k]);
    }
  }

  lemma {:induction false} ZeroSlotFits(s: Schema, field: Field, slot: Slot)
    requires IsZeroSlot(s, field, slot)
    ensures SlotNumberFits(s, field, slot)
    decreases slot, 0
  {
    if slot.Present? {
      ZeroFits(s, field.ty, slot.value);
    }
  }

  lemma {:induction false} MeaningsDiffer(s: Schema, ty: TypeRef, v: Value, m: Model)
    requires Valid(s) && Declared(s, ty)
    ensures Means(Rust, s, ty, v, m) <==> Means(Js, s, ty, v, m) && NumbersFit(s, ty, m)
    decreases v, 1
  {
    hide Means, NumbersFit;
    if ty.ArrayOf? {
      ArrayMeaningsDiffer(s, ty.item, v, m);
    } else if ty.Named? && s[ty.path].Struct? {
      StructMeaningsDiffer(s, ty.path, v, m);
    } else if ty.Named? && s[ty.path].Union? {
      UnionMeaningsDiffer(s, ty.path, v, m);
    } else {
      PlainMeaningsDiffer(s, ty, v, m);
    }
  }

  lemma PlainMeaningsDiffer(s: Schema, ty: TypeRef, v: Value, m: Model)
    requires !ty.ArrayOf? && Declared(s, ty) && (ty.Named? ==> s[ty.path].Enum?)
    ensures Means(Rust, s, ty, v, m) <==> Means(Js, s, ty, v, m) && NumbersFit(s, ty, m)
  {
  }

  lemma {:induction false} StructMeaningsDiffer(s: Schema, path: string, v: Value, m: Model)
    requires Valid(s) && path in s && s[path].Struct?
    ensures Means(Rust, s, Named(path), v, m) <==> Means(Js, s, Named(path), v, m) && NumbersFit(s, Named(path), m)
    decreases v, 0
  {
    assert ValidDecl(s, s[path]);
    if v.Map? && m.Record? {
      FieldMeaningsDiffer(s, s[path].fields, v.entries, m.slots);
    }
  }

  lemma {:induction false} UnionMeaningsDiffer(s: Schema, path: string, v: Value, m: Model)
    requires Valid(s) && path in s && s[path].Union?
    ensures Means(Rust, s, Named(path), v, m) <==> Means(Js, s, Named(path), v, m) && NumbersFit(s, Named(path), m)
    decreases v, 0
  {
    assert ValidDecl(s, s[path]);
    var variants := s[path].variants;
    if v.Array? && |v.items| == 2 && v.items[1].Map? && m.Case? && m.index < |variants| {
      assert ValidFields(s, variants[m.index].fields, s[path].depth);
      FieldMeaningsDiffer(s, variants[m.index].fields, v.items[1].entries, m.slots);
    }
  }

  lemma {:induction false} ArrayMeaningsDiffer(s: Schema, item: TypeRef, v: Value, m: Model)
    requires Valid(s) && Declared(s, item)
    ensures Means(Rust, s, ArrayOf(item), v, m) <==> Means(Js, s, ArrayOf(item), v, m) && NumbersFit(s, ArrayOf(item), m)
    decreases v, 0
  {
    if v.Array? && m.List? && |v.items| == |m.items| {
      forall i | 0 <= i < |v.items|
        ensures Means(Rust, s, item, v.items[i], m.items[i]) <==>
          Means(Js, s, item, v.items[i], m.items[i]) && NumbersFit(s, item, m.items[i])
      {
        MeaningsDiffer(s, item, v.items[i], m.items[i]);
      }
    }
  }

  lemma {:induction false} FieldMeaningsDiffer(s: Schema, fields: seq<Field>, entries: seq<Entry>, slots: seq<Slot>)
    requires Valid(s) && forall i | 0 <= i < |fields| :: Declared(s, fields[i].ty)
    ensures FieldsMean(Rust, s, fields, entries, slots) <==>
      FieldsMean(Js, s, fields, entries, slots) && SlotNumbersFit(s, fields, slots)
    decreases entries, 1
  {
    hide Valid, Declared, FieldMeans, SlotNumberFits;
    if |slots| == |fields| {
      forall k | 0 <= k < |fields|
        ensures FieldMeans(Rust, s, fields[k], entries, slots[k]) <==>
          FieldMeans(Js, s, fields[k], entries, slots[k]) && SlotNumberFits(s, fields[k], slots[k])
      {
        FieldMeaningDiffers(s, fields[k], entries, slots[k]);
      }
    }
  }

  lemma {:induction false} FieldMeaningDiffers(s: Schema, field: Field, entries: seq<Entry>, slot: Slot)
    requires Valid(s) && Declared(s, field.ty)
    ensures FieldMeans(Rust, s, field, entries, slot) <==>
      FieldMeans(Js, s, field, entries, slot) && SlotNumberFits(s, field, slot)
    decreases entries, 0
  {
    hide Valid, Declared, Means, NumbersFit;
    KeyIsFoundAt(entries, field.id);
    var i := FindKey(entries, field.id);
    if slot.Present? {
      if i < |entries| {
        EntryMeaningDiffers(s, field.ty, entries[i], slot.value);
      } else if IsZero(s, field.ty, slot.value) {
        ZeroFits(s, field.ty, slot.value);
      }
    }
  }

  lemma {:induction false} EntryMeaningDiffers(s: Schema, ty: TypeRef, entry: Entry, m: Model)
    requires Valid(s) && Declared(s, ty)
    ensures EntryMeans(Rust, s, ty, entry, m) <==> EntryMeans(Js, s, ty, entry, m) && NumbersFit(s, ty, m)
    decreases entry, 0
  {
    MeaningsDiffer(s, ty, entry.value, m);
  }

  /** On every value whatever, the Rust decoder accepts exactly what the TypeScript decoder accepts with all
      numbers in the range of their types, and gives the same. */
  lemma DecodersDifferOnNumbersOnly(s: Schema, ty: TypeRef, v: Value, m: Model)
    requires Valid(s) && Declared(s, ty)
    ensures DecodeModel(Rust, s, ty, v) == Ok(m) <==> DecodeModel(Js, s, ty, v) == Ok(m) && NumbersFit(s, ty, m)
  {
    hide Means, NumbersFit, DecodeModel;
    DecodedIsMeant(Rust, s, ty, v, m);
    DecodedIsMeant(Js, s, ty, v, m);
    MeaningsDiffer(s, ty, v, m);
  }

  // ---------- what cannot be written ----------

  /** Somewhere in the value is what the error says: an unsafe integer, or a float that is not finite. */
  ghost predicate Unfit(s: Schema, ty: TypeRef, m: Model, error: CodecError)
    decreases m, 1
  {
    match ty
    case U53 => m.Number? && m.n > MAX_SAFE && error == IntegerOutOfRange
    case I53 => m.Number? && !(-MAX_SAFE <= m.n <= MAX_SAFE) && error == IntegerOutOfRange
    case Float => m.Double? && m.bits % 0x8000_0000_0000_0000 >= 0x7FF0_0000_0000_0000 && error == NonFinite
    case ArrayOf(item) => m.List? && exists i | 0 <= i < |m.items| :: Unfit(s, item, m.items[i], error)
    case Named(path) =>
      path in s &&
      (match s[path]
       case Struct(_, fields) => m.Record? && SlotsUnfit(s, fields, m.slots, error)
       case Enum(_) => false
       case Union(_, variants) =>
         m.Case? && m.index < |variants| && SlotsUnfit(s, variants[m.index].fields, m.slots, error))
    case _ => false
  }

  ghost predicate SlotsUnfit(s: Schema, fields: seq<Field>, slots: seq<Slot>, error: CodecError)
    decreases slots, 1
  {
    exists k | 0 <= k < |slots| && k < |fields| :: SlotUnfit(s, fields[k], slots[k], error)
  }

  ghost predicate SlotUnfit(s: Schema, field: Field, slot: Slot, error: CodecError)
    decreases slot, 0
  {
    slot.Present? && Unfit(s, field.ty, slot.value, error)
  }

  /** The error of an encoder is about something in the value. */
  lemma {:induction false} EncodingErrorIsTrue(s: Schema, ty: TypeRef, m: Model, error: CodecError)
    requires Valid(s) && HasType(s, ty, m) && EncodeModel(s, ty, m) == Err(error)
    ensures Unfit(s, ty, m, error)
    decreases m, 1
  {
    match ty
    case Float => FiniteIsBelowInfinity(m.bits);
    case ArrayOf(item) => var i := UnfitItem(s, item, m.items, error);
    case Named(path) =>
      assert ValidDecl(s, s[path]);
      match s[path] {
        case Struct(_, fields) => var k := UnfitSlot(s, fields, m.slots, [], error);
        case Enum(_) =>
        case Union(_, variants) => var k := UnfitSlot(s, variants[m.index].fields, m.slots, [], error);
      }
    case _ =>
  }

  lemma {:induction false} UnfitItem(s: Schema, ty: TypeRef, items: seq<Model>, error: CodecError) returns (i: nat)
    requires Valid(s) && (forall i | 0 <= i < |items| :: HasType(s, ty, items[i]))
    requires EncodeItems(s, ty, items) == Err(error)
    ensures i < |items| && Unfit(s, ty, items[i], error)
    decreases items, 0
  {
    hide Valid, HasType, EncodeModel, Unfit;
    if EncodeModel(s, ty, items[0]).Err? {
      EncodingErrorIsTrue(s, ty, items[0], error);
      i := 0;
    } else {
      i := UnfitItem(s, ty, items[1..], error);
      i := i + 1;
    }
  }

  lemma {:induction false} UnfitSlot(s: Schema, fields: seq<Field>, slots: seq<Slot>, acc: seq<Entry>, error: CodecError)
      returns (k: nat)
    requires Valid(s) && HaveTypes(s, fields, slots) && EncodeSlots(s, fields, slots, acc) == Err(error)
    ensures k < |slots| && k < |fields| && SlotUnfit(s, fields[k], slots[k], error)
    decreases slots, 0
  {
    hide Valid, HasType, EncodeModel, Unfit;
    assert SlotHasType(s, fields[0], slots[0]);
    var encoded := EncodeSlot(s, fields[0], slots[0]);
    if encoded.Err? {
      SlotErrorIsTrue(s, fields[0], slots[0], error);
      k := 0;
    } else {
      k := UnfitSlot(s, fields[1..], slots[1..], InsertPresent(acc, fields[0].id, encoded.value), error);
      k := k + 1;
    }
  }

  lemma {:induction false} SlotErrorIsTrue(s: Schema, field: Field, slot: Slot, error: CodecError)
    requires Valid(s) && SlotHasType(s, field, slot) && EncodeSlot(s, field, slot) == Err(error)
    ensures SlotUnfit(s, field, slot, error)
    decreases slot, 0
  {
    EncodingErrorIsTrue(s, field.ty, slot.value, error);
  }
}
