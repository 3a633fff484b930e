/** What a reader sees, as a relation between the written value and the one read: no encoder, decoder or
    default function takes part in it. */
module SchemaViews {
  import opened Wrappers
  import opened Bytes
  import opened CborValue
  import opened Cbor
  import opened CborTheorems
  import opened CborAgreement
  import opened Schema
  import opened SchemaLaws
  import opened SchemaEvolution

  // ---------- zero values ----------

  /** The value that stands for an absent required field: zero, false or empty, the first variant, and in
      every record absent optional fields and again zero values. */
  ghost predicate IsZero(s: Schema, ty: TypeRef, m: Model)
    decreases m, 1
  {
    match ty
    case Void => m == Unit
    case U53 => m == Number(0)
    case I53 => m == Number(0)
    case Float => m == Double(0)
    case Str => m == Chars([])
    case Flag => m == Truth(false)
    case Blob => m == Octets([])
    case ArrayOf(_) => m == List([])
    case Named(path) =>
      path in s &&
      match s[path]
      case Struct(_, fields) => m.Record? && AreZero(s, fields, m.slots)
      case Enum(_) => m == Choice(0)
      case Union(_, variants) => variants != [] && m.Case? && m.index == 0 && AreZero(s, variants[0].fields, m.slots)
  }

  ghost predicate AreZero(s: Schema, fields: seq<Field>, slots: seq<Slot>)
    decreases slots, 0
  {
    |fields| == |slots| && forall i | 0 <= i < |slots| :: IsZeroSlot(s, fields[i], slots[i])
  }

  ghost predicate IsZeroSlot(s: Schema, field: Field, slot: Slot)
    decreases slot, 0
  {
    if field.optional then slot.Absent? else slot.Present? && IsZero(s, field.ty, slot.value)
  }

  lemma {:induction false} DefaultIsZero(s: Schema, ty: TypeRef)
    requires Valid(s) && Declared(s, ty)
    ensures IsZero(s, ty, Default(s, ty))
    decreases Depth(s, ty), 1
  {
    if ty.Named? {
      assert ValidDecl(s, s[ty.path]);
      match s[ty.path]
      case Struct(depth, fields) => DefaultsAreZero(s, fields, depth);
      case Enum(_) =>
      case Union(depth, variants) =>
        assert VariantIds(variants) != [];
        DefaultsAreZero(s, variants[0].fields, depth);
    }
  }

  lemma {:induction false} DefaultsAreZero(s: Schema, fields: seq<Field>, depth: nat)
    requires Valid(s) && ValidFields(s, fields, depth)
    ensures AreZero(s, fields, DefaultSlots(s, fields, depth))
    decreases depth, 0
  {
    forall i | 0 <= i < |fields| ensures IsZeroSlot(s, fields[i], DefaultSlots(s, fields, depth)[i]) {
      if !fields[i].optional {
        DefaultIsZero(s, fields[i].ty);
      }
    }
  }

  lemma {:induction false} ZeroIsUnique(s: Schema, ty: TypeRef, a: Model, b: Model)
    requires IsZero(s, ty, a) && IsZero(s, ty, b)
    ensures a == b
    decreases a, 1
  {
    if ty.Named? {
      match s[ty.path]
      case Struct(_, fields) => ZerosAreUnique(s, fields, a.slots, b.slots);
      case Enum(_) =>
      case Union(_, variants) => ZerosAreUnique(s, variants[0].fields, a.slots, b.slots);
    }
  }

  lemma {:induction false} ZerosAreUnique(s: Schema, fields: seq<Field>, a: seq<Slot>, b: seq<Slot>)
    requires AreZero(s, fields, a) && AreZero(s, fields, b)
    ensures a == b
    decreases a, 0
  {
    forall i | 0 <= i < |a| ensures a[i] == b[i] {
      assert IsZeroSlot(s, fields[i], a[i]) && IsZeroSlot(s, fields[i], b[i]);
      ZeroSlotIsUnique(s, fields[i], a[i], b[i]);
    }
  }

  lemma {:induction false} ZeroSlotIsUnique(s: Schema, field: Field, a: Slot, b: Slot)
    requires IsZeroSlot(s, field, a) && IsZeroSlot(s, field, b)
    ensures a == b
    decreases a, 0
  {
    if !field.optional {
      ZeroIsUnique(s, field.ty, a.value, b.value);
    }
  }

  /** Every type has exactly one zero value, and it is the default that the decoders use. */
  lemma DefaultIsTheZero(s: Schema, ty: TypeRef, m: Model)
    requires Valid(s) && Declared(s, ty)
    ensures m == Default(s, ty) <==> IsZero(s, ty, m)
  {
    DefaultIsZero(s, ty);
    if IsZero(s, ty, m) {
      ZeroIsUnique(s, ty, m, Default(s, ty));
    }
  }

  // ---------- what the reader sees ----------

  /** `r` is `m` as a reader with another schema sees it: variants are the ones with the same id, fields the
      ones with the same id; what was not written is absent or zero, what is not wanted is gone. */
  ghost predicate Seen(read: Schema, written: Schema, ty: TypeRef, m: Model, r: Model)
    decreases m, 1
  {
    match ty
    case ArrayOf(item) => m.List? && r.List? && SeenItems(read, written, item, m.items, r.items)
    case Named(path) =>
      path in read && path in written &&
      (match (read[path], written[path])
       case (Struct(_, wanted), Struct(_, fields)) =>
         m.Record? && r.Record? && SeenSlots(read, written, wanted, fields, m.slots, r.slots)
       case (Enum(wanted), Enum(ids)) =>
         m.Choice? && r.Choice? && m.index < |ids| && r.index < |wanted| && wanted[r.index] == ids[m.index]
       case (Union(_, wanted), Union(_, variants)) =>
         && m.Case? && r.Case? && m.index < |variants| && r.index < |wanted| && wanted[r.index].id == variants[m.index].id
         && SeenSlots(read, written, wanted[r.index].fields, variants[m.index].fields, m.slots, r.slots)
       case _ => false)
    case _ => r == m
  }

  ghost predicate SeenItems(read: Schema, written: Schema, ty: TypeRef, items: seq<Model>, r: seq<Model>)
    decreases items, 0
  {
    |r| == |items| && forall i | 0 <= i < |items| :: Seen(read, written, ty, items[i], r[i])
  }

  ghost predicate SeenSlots(read: Schema, written: Schema, wanted: seq<Field>, fields: seq<Field>,
                            slots: seq<Slot>, r: seq<Slot>)
    decreases slots, 1
  {
    |r| == |wanted| && forall i | 0 <= i < |wanted| :: SeenField(read, written, wanted[i], fields, slots, r[i])
  }

  /** Field `j` was written under the wanted id. */
  predicate Wrote(wanted: Field, fields: seq<Field>, slots: seq<Slot>, j: nat) {
    j < |fields| && j < |slots| && fields[j].id == wanted.id && slots[j].Present?
  }

  ghost predicate SeenField(read: Schema, written: Schema, wanted: Field, fields: seq<Field>, slots: seq<Slot>, r: Slot)
    decreases slots, 0
  {
    if exists j :: Wrote(wanted, fields, slots, j) then
      r.Present? && forall j | 0 <= j < |slots| && Wrote(wanted, fields, slots, j) ::
        SeenValue(read, written, fields[j].ty, slots[j], r.value)
    else if wanted.optional then r.Absent?
    else r.Present? && IsZero(read, wanted.ty, r.value)
  }

  ghost predicate SeenValue(read: Schema, written: Schema, ty: TypeRef, slot: Slot, r: Model)
    decreases slot, 0
  {
    slot.Present? && Seen(read, written, ty, slot.value, r)
  }

  // ---------- the projection is exactly what is seen ----------

  lemma {:induction false} ProjectIsSeen(read: Schema, written: Schema, ty: TypeRef, m: Model, r: Model)
    requires Valid(read) && Valid(written) && Compatible(read, written)
    requires Declared(read, ty) && HasType(written, ty, m)
    ensures Project(read, written, ty, m) == Ok(r) <==> Seen(read, written, ty, m, r)
    decreases m, 2
  {
    match ty
    case ArrayOf(item) =>
      if r.List? {
        ProjectItemsAreSeen(read, written, item, m.items, r.items);
      }
    case Named(path) =>
      assert ValidDecl(read, read[path]) && ValidDecl(written, written[path]);
      assert CompatibleDecls(read[path], written[path]);
      match written[path] {
        case Struct(_, fields) =>
          if r.Record? {
            ProjectSlotsAreSeen(read, written, read[path].fields, fields, m.slots, r.slots);
          }
        case Enum(ids) =>
          if r.Choice? {
            IdIsFoundAt(read[path].ids, ids[m.index], r.index);
          }
        case Union(_, variants) => CaseIsSeen(read, written, path, m, r);
      }
    case _ =>
  }

  lemma IdIsFoundAt(ids: seq<Id>, id: Id, index: nat)
    requires UniqueIds(ids)
    ensures FindId(ids, id) < |ids| && FindId(ids, id) == index <==> index < |ids| && ids[index] == id
  {
    if index < |ids| && ids[index] == id {
      FindUnique(ids, index);
    }
  }

  lemma {:induction false} CaseIsSeen(read: Schema, written: Schema, path: string, m: Model, r: Model)
    requires Valid(read) && Valid(written) && Compatible(read, written)
    requires path in read && path in written && written[path].Union? && HasType(written, Named(path), m)
    ensures Project(read, written, Named(path), m) == Ok(r) <==> Seen(read, written, Named(path), m, r)
    decreases m, 1
  {
    assert ValidDecl(read, read[path]) && ValidDecl(written, written[path]);
    assert CompatibleDecls(read[path], written[path]);
    var variant, wanted := written[path].variants[m.index], read[path].variants;
    if r.Case? {
      IdIsFoundAt(VariantIds(wanted), variant.id, r.index);
      if r.index < |wanted| && wanted[r.index].id == variant.id {
        assert ValidFields(read, wanted[r.index].fields, read[path].depth);
        ProjectSlotsAreSeen(read, written, wanted[r.index].fields, variant.fields, m.slots, r.slots);
      }
    }
  }

  lemma {:induction false} ProjectItemsAreSeen(read: Schema, written: Schema, ty: TypeRef, items: seq<Model>, r: seq<Model>)
    requires Valid(read) && Valid(written) && Compatible(read, written)
    requires Declared(read, ty) && forall i | 0 <= i < |items| :: HasType(written, ty, items[i])
    ensures ProjectItems(read, written, ty, items) == Ok(r) <==> SeenItems(read, written, ty, items, r)
    decreases items, 0
  {
    hide HasType, Valid, Compatible, Declared, Project, Seen;
    if items != [] && r != [] {
      ProjectIsSeen(read, written, ty, items[0], r[0]);
      ProjectItemsAreSeen(read, written, ty, items[1..], r[1..]);
      assert r == [r[0]] + r[1..] && items == [items[0]] + items[1..];
      SeenItemsStep(read, written, ty, items, r);
    }
  }

  lemma SeenItemsStep(read: Schema, written: Schema, ty: TypeRef, items: seq<Model>, r: seq<Model>)
    requires items != [] && r != []
    ensures SeenItems(read, written, ty, items, r)
      <==> Seen(read, written, ty, items[0], r[0]) && SeenItems(read, written, ty, items[1..], r[1..])
  {
    hide Seen;
    assert r == [r[0]] + r[1..] && items == [items[0]] + items[1..];
  }

  lemma {:induction false} ProjectSlotsAreSeen(read: Schema, written: Schema, wanted: seq<Field>, fields: seq<Field>,
                                               slots: seq<Slot>, r: seq<Slot>)
    requires Valid(read) && Valid(written) && Compatible(read, written)
    requires HaveTypes(written, fields, slots) && SameTypes(wanted, fields) && UniqueIds(FieldIds(fields))
    requires forall i | 0 <= i < |wanted| :: Declared(read, wanted[i].ty)
    ensures ProjectSlots(read, written, wanted, fields, slots) == Ok(r)
      <==> SeenSlots(read, written, wanted, fields, slots, r)
    decreases slots, 1, |wanted|
  {
    hide HasType, Valid, Compatible, Declared, ProjectField, SeenField;
    if wanted != [] && r != [] {
      ProjectFieldIsSeen(read, written, wanted[0], fields, slots, r[0]);
      ProjectSlotsAreSeen(read, written, wanted[1..], fields, slots, r[1..]);
      assert r == [r[0]] + r[1..];
      SeenSlotsStep(read, written, wanted, fields, slots, r);
    }
  }

  lemma SeenSlotsStep(read: Schema, written: Schema, wanted: seq<Field>, fields: seq<Field>, slots: seq<Slot>, r: seq<Slot>)
    requires wanted != [] && r != []
    ensures SeenSlots(read, written, wanted, fields, slots, r) <==>
      SeenField(read, written, wanted[0], fields, slots, r[0])
      && SeenSlots(read, written, wanted[1..], fields, slots, r[1..])
  {
    hide SeenField;
    assert r == [r[0]] + r[1..] && wanted == [wanted[0]] + wanted[1..];
  }

  lemma {:induction false} ProjectFieldIsSeen(read: Schema, written: Schema, wanted: Field, fields: seq<Field>,
                                              slots: seq<Slot>, r: Slot)
    requires Valid(read) && Valid(written) && Compatible(read, written)
    requires HaveTypes(written, fields, slots) && SameTypes([wanted], fields) && UniqueIds(FieldIds(fields))
    requires Declared(read, wanted.ty)
    ensures ProjectField(read, written, wanted, fields, slots) == Ok(r)
      <==> SeenField(read, written, wanted, fields, slots, r)
    decreases slots, 0
  {
    hide Valid, Compatible, Project, Seen;
    var i := FindId(FieldIds(fields), wanted.id);
    forall j: nat ensures Wrote(wanted, fields, slots, j) <==> j == i && i < |fields| && slots[i].Present? {
      if j < |fields| && fields[j].id == wanted.id {
        FindUnique(FieldIds(fields), j);
      }
    }
    if i < |fields| && slots[i].Present? {
      assert SlotHasType(written, fields[i], slots[i]) && [wanted][0].id == fields[i].id;
      assert Wrote(wanted, fields, slots, i);
      if r.Present? {
        ProjectSlotIsSeen(read, written, fields[i], slots[i], r.value);
      }
    } else if !wanted.optional && r.Present? {
      DefaultIsTheZero(read, wanted.ty, r.value);
    }
  }

  lemma {:induction false} ProjectSlotIsSeen(read: Schema, written: Schema, field: Field, slot: Slot, r: Model)
    requires Valid(read) && Valid(written) && Compatible(read, written)
    requires SlotHasType(written, field, slot) && slot.Present? && Declared(read, field.ty)
    ensures ProjectSlot(read, written, field, slot) == Ok(Present(r)) <==> SeenValue(read, written, field.ty, slot, r)
    decreases slot, 0
  {
    ProjectIsSeen(read, written, field.ty, slot.value, r);
  }

  /** What was written with one schema and is read with another is exactly what the reader is to see, in both
      languages; the reader fails exactly if there is no such value. */
  lemma TypedEvolution(read: Schema, written: Schema, ty: TypeRef, m: Model, r: Model)
    requires Valid(read) && Valid(written) && Compatible(read, written)
    requires Declared(read, ty) && HasType(written, ty, m) && InRange(written, ty, m)
    ensures var v := EncodeModel(written, ty, m);
            && v.Ok? && RustValue(v.value) && Decode(Print(v.value)).Done?
            && (DecodeModel(Rust, read, ty, Decode(Print(v.value)).value) == Ok(r) <==> Seen(read, written, ty, m, r))
            && (NoBom(v.value) && ListsFit(m) ==>
                  && Parse(Js, Print(v.value), 0).Done?
                  && (DecodeModel(Js, read, ty, Parse(Js, Print(v.value), 0).value) == Ok(r)
                      <==> Seen(read, written, ty, m, r)))
  {
    hide HasType, InRange, Project, Seen, Parse, Print, Reading, DecodeModel, Readable, Fits, Valid, Compatible, NoBom;
    EncodeSucceedsInRange(Rust, written, ty, m);
    var v := EncodeModel(written, ty, m).value;
    DecodeOfEncode(v);
    ReaderSeesProjection(Rust, read, written, ty, m);
    ProjectIsSeen(read, written, ty, m, r);
    if NoBom(v) && ListsFit(m) {
      EncodeSucceedsInRange(Js, written, ty, m);
      ReaderSeesProjection(Js, read, written, ty, m);
      assert Print(v) + [] == Print(v);
      RoundTripWithSuffix(Js, v, []);
      NoBomReadsAlike(v);
    }
  }
}
