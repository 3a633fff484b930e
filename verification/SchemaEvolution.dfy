/** Reading with one schema what was written with another; the round trip is the case of one schema. */
module SchemaEvolution {
  import opened Wrappers
  import opened Bytes
  import opened CborValue
  import opened Cbor
  import opened CborTheorems
  import opened CborAgreement
  import opened Schema
  import opened SchemaLaws

  // ---------- which schemas fit together ----------

  ghost predicate SameTypes(read: seq<Field>, written: seq<Field>) {
    forall i, j | 0 <= i < |read| && 0 <= j < |written| && read[i].id == written[j].id :: read[i].ty == written[j].ty
  }

  /** The declarations are of one kind, and fields that share an id have one type. */
  ghost predicate CompatibleDecls(read: Decl, written: Decl) {
    match (read, written)
    case (Struct(_, r), Struct(_, w)) => SameTypes(r, w)
    case (Enum(_), Enum(_)) => true
    case (Union(_, r), Union(_, w)) =>
      forall i, j | 0 <= i < |r| && 0 <= j < |w| && r[i].id == w[j].id :: SameTypes(r[i].fields, w[j].fields)
    case _ => false
  }

  ghost predicate Compatible(read: Schema, written: Schema) {
    forall path | path in read && path in written :: CompatibleDecls(read[path], written[path])
  }

  // ---------- what the reader must see ----------

  /** The value `m`, written with one schema, as the other schema shows it: unknown fields are gone, an
      absent optional field is absent, an absent required one has its default; unknown variants are errors. */
  function Project(read: Schema, written: Schema, ty: TypeRef, m: Model): (r: Result<Model, CodecError>)
    requires Valid(read) && Valid(written) && Compatible(read, written)
    requires Declared(read, ty) && HasType(written, ty, m)
    decreases m, 1
  {
    match ty
    case ArrayOf(item) =>
      var items :- ProjectItems(read, written, item, m.items);
      Ok(List(items))
    case Named(path) =>
      assert ValidDecl(read, read[path]) && CompatibleDecls(read[path], written[path]);
      (match written[path]
       case Struct(_, fields) =>
         var slots :- ProjectSlots(read, written, read[path].fields, fields, m.slots);
         Ok(Record(slots))
       case Enum(ids) =>
         var id := ids[m.index];
         var index := FindId(read[path].ids, id);
         if index < |read[path].ids| then Ok(Choice(index)) else Err(UnknownEnumVariant(id))
       case Union(_, variants) =>
         var id := variants[m.index].id;
         var index := FindId(VariantIds(read[path].variants), id);
         if index == |read[path].variants| then Err(UnknownUnionVariant(id))
         else
           var slots :- ProjectSlots(read, written, read[path].variants[index].fields, variants[m.index].fields, m.slots);
           Ok(Case(index, slots)))
    case _ => Ok(m)
  }

  function ProjectItems(read: Schema, written: Schema, ty: TypeRef, items: seq<Model>): (r: Result<seq<Model>, CodecError>)
    requires Valid(read) && Valid(written) && Compatible(read, written)
    requires Declared(read, ty) && forall i | 0 <= i < |items| :: HasType(written, ty, items[i])
    decreases items, 0
  {
    if items == [] then Ok([])
    else
      var first :- Project(read, written, ty, items[0]);
      var rest :- ProjectItems(read, written, ty, items[1..]);
      Ok([first] + rest)
  }

  function ProjectSlots(read: Schema, written: Schema, wanted: seq<Field>, fields: seq<Field>, slots: seq<Slot>):
      (r: Result<seq<Slot>, CodecError>)
    requires Valid(read) && Valid(written) && Compatible(read, written)
    requires HaveTypes(written, fields, slots) && SameTypes(wanted, fields)
    requires forall i | 0 <= i < |wanted| :: Declared(read, wanted[i].ty)
    decreases slots, 1, |wanted|
  {
    if wanted == [] then Ok([])
    else
      var slot :- ProjectField(read, written, wanted[0], fields, slots);
      var rest :- ProjectSlots(read, written, wanted[1..], fields, slots);
      Ok([slot] + rest)
  }

  function ProjectField(read: Schema, written: Schema, wanted: Field, fields: seq<Field>, slots: seq<Slot>):
      (r: Result<Slot, CodecError>)
    requires Valid(read) && Valid(written) && Compatible(read, written)
    requires HaveTypes(written, fields, slots) && SameTypes([wanted], fields)
    requires Declared(read, wanted.ty)
    decreases slots, 0
  {
    var i := FindId(FieldIds(fields), wanted.id);
    if i < |fields| && slots[i].Present? then
      assert SlotHasType(written, fields[i], slots[i]) && [wanted][0].id == fields[i].id;
      ProjectSlot(read, written, fields[i], slots[i])
    else if wanted.optional then Ok(Absent)
    else Ok(Present(Default(read, wanted.ty)))
  }

  function ProjectSlot(read: Schema, written: Schema, field: Field, slot: Slot): (r: Result<Slot, CodecError>)
    requires Valid(read) && Valid(written) && Compatible(read, written)
    requires SlotHasType(written, field, slot) && slot.Present? && Declared(read, field.ty)
    decreases slot, 0
  {
    var value :- Project(read, written, field.ty, slot.value);
    Ok(Present(value))
  }

  // ---------- the reader sees exactly that ----------

  /** The map an encoder fills holds, under each id, the encoding of the field with that id. */
  lemma {:induction false} EncodedFieldIsFound(s: Schema, fields: seq<Field>, slots: seq<Slot>, acc: seq<Entry>, id: Id)
    requires Valid(s) && HaveTypes(s, fields, slots) && UniqueIds(FieldIds(fields))
    requires EncodeSlots(s, fields, slots, acc).Ok?
    ensures var i := FindId(FieldIds(fields), id);
            && (i < |fields| ==> SlotHasType(s, fields[i], slots[i]) && EncodeSlot(s, fields[i], slots[i]).Ok?)
            && Get(EncodeSlots(s, fields, slots, acc).value, id) ==
               if i < |fields| && slots[i].Present? then EncodeSlot(s, fields[i], slots[i]).value
               else Get(acc, id)
    decreases slots
  {
    hide EncodeSlot, Get, Valid, SlotHasType;
    if slots != [] {
      var encoded := EncodeSlot(s, fields[0], slots[0]).value;
      var acc' := InsertPresent(acc, fields[0].id, encoded);
      assert FieldIds(fields)[1..] == FieldIds(fields[1..]);
      EncodedFieldIsFound(s, fields[1..], slots[1..], acc', id);
      EncodedSlotPresence(s, fields[0], slots[0]);
      if encoded.Some? {
        GetAfterInsert(acc, Entry(fields[0].id, encoded.value), id);
      }
      if fields[0].id == id {
        FirstIdIsUnique(fields);
      }
    }
  }

  lemma FirstIdIsUnique(fields: seq<Field>)
    requires fields != [] && UniqueIds(FieldIds(fields))
    ensures forall j | 1 <= j < |fields| :: fields[j].id != fields[0].id
  {
    forall j | 1 <= j < |fields| ensures fields[j].id != fields[0].id {
      assert FieldIds(fields)[0] != FieldIds(fields)[j];
    }
  }

  lemma EncodedSlotPresence(s: Schema, field: Field, slot: Slot)
    requires Valid(s) && SlotHasType(s, field, slot) && EncodeSlot(s, field, slot).Ok?
    ensures EncodeSlot(s, field, slot).value.Some? <==> slot.Present?
  {
  }

  lemma {:induction false} FindKeyInReading(d: Dialect, entries: seq<Entry>, key: u64)
    ensures FindKey(ReadingEntries(d, entries), key) == FindKey(entries, key)
  {
    if entries != [] {
      FindKeyInReading(d, entries[1..], key);
      assert ReadingEntries(d, entries)[1..] == ReadingEntries(d, entries[1..]);
    }
  }

  /** What a generated decoder reads from the bytes of a generated encoder is the projection of the value. */
  lemma {:induction false} ReaderSeesProjection(d: Dialect, read: Schema, written: Schema, ty: TypeRef, m: Model)
    requires Valid(read) && Valid(written) && Compatible(read, written)
    requires Declared(read, ty) && HasType(written, ty, m)
    requires EncodeModel(written, ty, m).Ok?
    ensures DecodeModel(d, read, ty, Reading(Rust, EncodeModel(written, ty, m).value)) == Project(read, written, ty, m)
    decreases m, 2
  {
    hide Reading, EncodeModel, DecodeModel, Project;
    if ty.ArrayOf? {
      ReaderSeesArray(d, read, written, ty.item, m);
    } else if ty.Named? {
      assert CompatibleDecls(read[ty.path], written[ty.path]);
      match written[ty.path]
      case Struct(_, _) => ReaderSeesStruct(d, read, written, ty.path, m);
      case Enum(_) => ReaderSeesEnum(d, read, written, ty.path, m);
      case Union(_, _) => ReaderSeesCase(d, read, written, ty.path, m);
    } else {
      ReaderSeesPlain(d, read, written, ty, m);
    }
  }

  lemma ReaderSeesPlain(d: Dialect, read: Schema, written: Schema, ty: TypeRef, m: Model)
    requires Valid(read) && Valid(written) && Compatible(read, written) && Declared(read, ty) && !ty.ArrayOf? && !ty.Named?
    requires HasType(written, ty, m) && EncodeModel(written, ty, m).Ok?
    ensures DecodeModel(d, read, ty, Reading(Rust, EncodeModel(written, ty, m).value)) == Project(read, written, ty, m)
  {
    hide Finite, Utf8.Valid;
  }

  lemma {:induction false} ReaderSeesArray(d: Dialect, read: Schema, written: Schema, item: TypeRef, m: Model)
    requires Valid(read) && Valid(written) && Compatible(read, written)
    requires Declared(read, item) && HasType(written, ArrayOf(item), m)
    requires EncodeModel(written, ArrayOf(item), m).Ok?
    ensures DecodeModel(d, read, ArrayOf(item), Reading(Rust, EncodeModel(written, ArrayOf(item), m).value)) ==
            Project(read, written, ArrayOf(item), m)
    decreases m, 1
  {
    ReaderSeesItems(d, read, written, item, m.items);
  }

  lemma {:induction false} ReaderSeesStruct(d: Dialect, read: Schema, written: Schema, path: string, m: Model)
    requires Valid(read) && Valid(written) && Compatible(read, written)
    requires path in read && path in written && written[path].Struct? && HasType(written, Named(path), m)
    requires EncodeModel(written, Named(path), m).Ok?
    ensures DecodeModel(d, read, Named(path), Reading(Rust, EncodeModel(written, Named(path), m).value)) ==
            Project(read, written, Named(path), m)
    decreases m, 1
  {
    assert ValidDecl(read, read[path]) && ValidDecl(written, written[path]);
    assert CompatibleDecls(read[path], written[path]);
    ReaderSeesSlots(d, read, written, read[path].fields, written[path].fields, m.slots);
  }

  lemma ReaderSeesEnum(d: Dialect, read: Schema, written: Schema, path: string, m: Model)
    requires Valid(read) && Valid(written) && Compatible(read, written)
    requires path in read && path in written && written[path].Enum? && HasType(written, Named(path), m)
    ensures EncodeModel(written, Named(path), m).Ok?
    ensures DecodeModel(d, read, Named(path), Reading(Rust, EncodeModel(written, Named(path), m).value)) ==
            Project(read, written, Named(path), m)
  {
    assert CompatibleDecls(read[path], written[path]);
  }

  lemma {:induction false} ReaderSeesCase(d: Dialect, read: Schema, written: Schema, path: string, m: Model)
    requires Valid(read) && Valid(written) && Compatible(read, written)
    requires path in read && path in written && written[path].Union? && HasType(written, Named(path), m)
    requires EncodeModel(written, Named(path), m).Ok?
    ensures DecodeModel(d, read, Named(path), Reading(Rust, EncodeModel(written, Named(path), m).value)) ==
            Project(read, written, Named(path), m)
    decreases m, 1
  {
    assert ValidDecl(read, read[path]) && ValidDecl(written, written[path]);
    assert CompatibleDecls(read[path], written[path]);
    var variant := written[path].variants[m.index];
    var entries := EncodeSlots(written, variant.fields, m.slots, []).value;
    var items := [U64(variant.id), Map(entries)];
    assert EncodeModel(written, Named(path), m) == Ok(Array(items));
    var readItems := ReadingItems(Rust, items);
    assert readItems[0] == U64(variant.id) && readItems[1] == Map(ReadingEntries(Rust, entries));
    hide EncodeModel, EncodeSlots, Reading;
    var index := FindId(VariantIds(read[path].variants), variant.id);
    if index < |read[path].variants| {
      assert ValidFields(read, read[path].variants[index].fields, read[path].depth);
      ReaderSeesSlots(d, read, written, read[path].variants[index].fields, variant.fields, m.slots);
    }
  }

  lemma {:induction false} ReaderSeesItems(d: Dialect, read: Schema, written: Schema, ty: TypeRef, items: seq<Model>)
    requires Valid(read) && Valid(written) && Compatible(read, written)
    requires Declared(read, ty) && forall i | 0 <= i < |items| :: HasType(written, ty, items[i])
    requires EncodeItems(written, ty, items).Ok?
    ensures DecodeItems(d, read, ty, ReadingItems(Rust, EncodeItems(written, ty, items).value)) ==
            ProjectItems(read, written, ty, items)
    decreases items, 0
  {
    hide EncodeModel, DecodeModel, Project, Reading, HasType, Valid, Compatible, Declared;
    if items != [] {
      EncodeItemsStep(written, ty, items);
      var first := EncodeModel(written, ty, items[0]).value;
      var rest := EncodeItems(written, ty, items[1..]).value;
      assert ReadingItems(Rust, [first] + rest) == [Reading(Rust, first)] + ReadingItems(Rust, rest);
      hide ReadingItems, EncodeItems, DecodeItems;
      ReaderSeesProjection(d, read, written, ty, items[0]);
      ReaderSeesItems(d, read, written, ty, items[1..]);
      DecodeItemsStep(d, read, ty, Reading(Rust, first), ReadingItems(Rust, rest));
    }
  }

  lemma EncodeItemsStep(s: Schema, ty: TypeRef, items: seq<Model>)
    requires Valid(s) && (forall i | 0 <= i < |items| :: HasType(s, ty, items[i]))
    requires items != [] && EncodeItems(s, ty, items).Ok?
    ensures EncodeModel(s, ty, items[0]).Ok? && EncodeItems(s, ty, items[1..]).Ok?
    ensures EncodeItems(s, ty, items).value == [EncodeModel(s, ty, items[0]).value] + EncodeItems(s, ty, items[1..]).value
  {
    hide EncodeModel, HasType, Valid;
  }

  lemma DecodeItemsStep(d: Dialect, s: Schema, ty: TypeRef, first: Value, rest: seq<Value>)
    requires Valid(s) && Declared(s, ty)
    ensures
      var item := DecodeModel(d, s, ty, first);
      DecodeItems(d, s, ty, [first] + rest) ==
        if item.Err? then Err(item.error) else Prepend([item.value], DecodeItems(d, s, ty, rest))
  {
    hide DecodeModel, Valid, Declared;
    assert ([first] + rest)[1..] == rest;
  }

  lemma {:induction false} ReaderSeesSlots(d: Dialect, read: Schema, written: Schema, wanted: seq<Field>,
      fields: seq<Field>, slots: seq<Slot>)
    requires Valid(read) && Valid(written) && Compatible(read, written)
    requires HaveTypes(written, fields, slots) && UniqueIds(FieldIds(fields)) && SameTypes(wanted, fields)
    requires forall i | 0 <= i < |wanted| :: Declared(read, wanted[i].ty)
    requires EncodeSlots(written, fields, slots, []).Ok?
    ensures DecodeSlots(d, read, wanted, ReadingEntries(Rust, EncodeSlots(written, fields, slots, []).value)) ==
            ProjectSlots(read, written, wanted, fields, slots)
    decreases slots, 1, |wanted|
  {
    hide DecodeSlot, ProjectField;
    if wanted != [] {
      ReaderSeesField(d, read, written, wanted[0], fields, slots);
      ReaderSeesSlots(d, read, written, wanted[1..], fields, slots);
    }
  }

  lemma {:induction false} ReaderSeesField(d: Dialect, read: Schema, written: Schema, wanted: Field,
      fields: seq<Field>, slots: seq<Slot>)
    requires Valid(read) && Valid(written) && Compatible(read, written)
    requires HaveTypes(written, fields, slots) && UniqueIds(FieldIds(fields)) && SameTypes([wanted], fields)
    requires Declared(read, wanted.ty)
    requires EncodeSlots(written, fields, slots, []).Ok?
    ensures DecodeSlot(d, read, wanted, ReadingEntries(Rust, EncodeSlots(written, fields, slots, []).value)) ==
            ProjectField(read, written, wanted, fields, slots)
    decreases slots, 0
  {
    var entries := EncodeSlots(written, fields, slots, []).value;
    EncodedFieldIsFound(written, fields, slots, [], wanted.id);
    FindKeyInReading(Rust, entries, wanted.id);
    var i := FindId(FieldIds(fields), wanted.id);
    if i < |fields| && slots[i].Present? {
      assert SlotHasType(written, fields[i], slots[i]);
      assert [wanted][0].id == fields[i].id;
      ReaderSeesSlot(d, read, written, fields[i], slots[i]);
    }
  }

  lemma {:induction false} ReaderSeesSlot(d: Dialect, read: Schema, written: Schema, field: Field, slot: Slot)
    requires Valid(read) && Valid(written) && Compatible(read, written)
    requires SlotHasType(written, field, slot) && slot.Present? && Declared(read, field.ty)
    requires EncodeSlot(written, field, slot).Ok?
    ensures EncodeSlot(written, field, slot).value.Some?
    ensures var v := EncodeSlot(written, field, slot).value.value;
            ProjectSlot(read, written, field, slot) ==
              match DecodeModel(d, read, field.ty, Reading(Rust, v))
              case Ok(value) => Ok(Present(value))
              case Err(error) => Err(error)
    decreases slot, 0
  {
    ReaderSeesProjection(d, read, written, field.ty, slot.value);
  }

  // ---------- one schema: the round trip ----------

  lemma SchemaFitsItself(s: Schema)
    requires Valid(s)
    ensures Compatible(s, s)
  {
    forall path | path in s
      ensures CompatibleDecls(s[path], s[path])
    {
      assert ValidDecl(s, s[path]);
      match s[path]
      case Struct(_, fields) => FieldsFitThemselves(fields);
      case Enum(_) =>
      case Union(_, variants) =>
        forall i, j | 0 <= i < |variants| && 0 <= j < |variants| && variants[i].id == variants[j].id
          ensures SameTypes(variants[i].fields, variants[j].fields)
        {
          assert VariantIds(variants)[i] == VariantIds(variants)[j];
          FieldsFitThemselves(variants[i].fields);
        }
    }
  }

  lemma FieldsFitThemselves(fields: seq<Field>)
    requires UniqueIds(FieldIds(fields))
    ensures SameTypes(fields, fields)
  {
    forall i, j | 0 <= i < |fields| && 0 <= j < |fields| && fields[i].id == fields[j].id
      ensures i == j
    {
      assert FieldIds(fields)[i] == FieldIds(fields)[j];
    }
  }

  lemma {:induction false} FindUnique(ids: seq<Id>, index: nat)
    requires UniqueIds(ids) && index < |ids|
    ensures FindId(ids, ids[index]) == index
  {
    var i := FindId(ids, ids[index]);
    assert !(i < index) && !(index < i);
  }

  /** Within one schema every value is seen as it is. */
  lemma {:induction false} SelfProjection(s: Schema, ty: TypeRef, m: Model)
    requires Valid(s) && Compatible(s, s) && Declared(s, ty) && HasType(s, ty, m)
    ensures Project(s, s, ty, m) == Ok(m)
    decreases m, 2
  {
    match ty
    case ArrayOf(item) => SelfItems(s, item, m.items);
    case Named(path) =>
      assert ValidDecl(s, s[path]) && CompatibleDecls(s[path], s[path]);
      match s[path] {
        case Struct(_, fields) =>
          SelfSlots(s, fields, m.slots, 0);
          assert fields[0..] == fields && m.slots[0..] == m.slots;
        case Enum(ids) => FindUnique(ids, m.index);
        case Union(_, variants) =>
          FindUnique(VariantIds(variants), m.index);
          var fields := variants[m.index].fields;
          SelfSlots(s, fields, m.slots, 0);
          assert fields[0..] == fields && m.slots[0..] == m.slots;
      }
    case _ =>
  }

  lemma {:induction false} SelfItems(s: Schema, ty: TypeRef, items: seq<Model>)
    requires Valid(s) && Compatible(s, s) && Declared(s, ty)
    requires forall i | 0 <= i < |items| :: HasType(s, ty, items[i])
    ensures ProjectItems(s, s, ty, items) == Ok(items)
    decreases items, 0
  {
    hide HasType, Valid, Compatible, Declared, Project;
    if items != [] {
      SelfProjection(s, ty, items[0]);
      SelfItems(s, ty, items[1..]);
      assert items == [items[0]] + items[1..];
    }
  }

  lemma {:induction false} SelfSlots(s: Schema, fields: seq<Field>, slots: seq<Slot>, from: nat)
    requires Valid(s) && Compatible(s, s) && HaveTypes(s, fields, slots) && UniqueIds(FieldIds(fields))
    requires forall i | 0 <= i < |fields| :: Declared(s, fields[i].ty)
    requires from <= |fields| && SameTypes(fields[from..], fields)
    ensures ProjectSlots(s, s, fields[from..], fields, slots) == Ok(slots[from..])
    decreases slots, 1, |fields| - from
  {
    hide Valid, Compatible, Project, HasType;
    if from < |fields| {
      FieldsFitThemselves(fields);
      assert fields[from..][1..] == fields[from + 1..] && slots[from..] == [slots[from]] + slots[from + 1..];
      FindUnique(FieldIds(fields), from);
      assert SlotHasType(s, fields[from], slots[from]);
      if slots[from].Present? {
        SelfSlot(s, fields[from], slots[from]);
      }
      SelfSlots(s, fields, slots, from + 1);
    }
  }

  lemma {:induction false} SelfSlot(s: Schema, field: Field, slot: Slot)
    requires Valid(s) && Compatible(s, s) && Declared(s, field.ty)
    requires SlotHasType(s, field, slot) && slot.Present?
    ensures ProjectSlot(s, s, field, slot) == Ok(slot)
    decreases slot, 0
  {
    SelfProjection(s, field.ty, slot.value);
  }

  lemma {:induction false} NoBomReadsAlike(v: Value)
    requires NoBom(v)
    ensures Reading(Js, v) == Reading(Rust, v)
  {
    match v
    case Array(items) =>
      forall i | 0 <= i < |items|
        ensures Reading(Js, items[i]) == Reading(Rust, items[i])
      {
        NoBomReadsAlike(items[i]);
      }
      assert ReadingItems(Js, items) == ReadingItems(Rust, items);
    case Map(entries) =>
      forall i | 0 <= i < |entries|
        ensures Reading(Js, entries[i].value) == Reading(Rust, entries[i].value)
      {
        NoBomReadsAlike(entries[i].value);
      }
      assert ReadingEntries(Js, entries) == ReadingEntries(Rust, entries);
    case _ =>
  }

  /** Typed value, generated encoder, bytes, generic decoder, generated decoder: for every valid schema and
      every value in range the Rust side gets the value back, and so does the TypeScript side unless a text
      starts with a byte-order mark or a list is too long for it. */
  lemma TypedRoundTrip(s: Schema, ty: TypeRef, m: Model)
    requires Valid(s) && Declared(s, ty) && HasType(s, ty, m) && InRange(s, ty, m)
    ensures var r := EncodeModel(s, ty, m);
            && r.Ok? && RustValue(r.value)
            && Decode(Print(r.value)).Done?
            && DecodeModel(Rust, s, ty, Decode(Print(r.value)).value) == Ok(m)
            && (NoBom(r.value) && ListsFit(m) ==>
                  && Parse(Js, Print(r.value), 0).Done?
                  && DecodeModel(Js, s, ty, Parse(Js, Print(r.value), 0).value) == Ok(m))
  {
    EncodeSucceedsInRange(Rust, s, ty, m);
    var v := EncodeModel(s, ty, m).value;
    DecodeOfEncode(v);
    SchemaFitsItself(s);
    SelfProjection(s, ty, m);
    ReaderSeesProjection(Rust, s, s, ty, m);
    ReaderSeesProjection(Js, s, s, ty, m);
    assert Print(v) + [] == Print(v);
    if NoBom(v) && ListsFit(m) {
      EncodeSucceedsInRange(Js, s, ty, m);
      RoundTripWithSuffix(Js, v, []);
      NoBomReadsAlike(v);
    }
  }
}
