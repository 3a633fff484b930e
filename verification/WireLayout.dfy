/** The table of the wire protocol: under which number each kind of message goes, and what its fields hold. */
module WireLayout {
  import opened Wrappers
  import opened Bytes
  import opened CborValue
  import opened Cbor
  import opened Schema
  import opened SchemaLaws
  import opened SchemaEvolution
  import opened Wire
  import opened EventStream

  predicate HoldsNumber(v: Option<Value>) {
    v.Some? && v.value.U64?
  }

  predicate HoldsOneOf(v: Option<Value>, codes: set<int>) {
    HoldsNumber(v) && v.value.u in codes
  }

  predicate HoldsText(v: Option<Value>) {
    v.Some? && v.value.Text?
  }

  predicate HoldsBytes(v: Option<Value>) {
    v.Some? && v.value.Bytes?
  }

  predicate MayHoldBytes(v: Option<Value>) {
    v.None? || v.value.Bytes?
  }

  /** 0, 1: unary request and stream start, with a procedure and perhaps a payload; 2, 6: chunks; 3, 5: unary
      response and stream start; 4, 7: the error ends; 8: a mechanism and its payload; 9: nothing; 10: an
      authentication error with its message. */
  predicate Layout(kind: int, entries: seq<Entry>) {
    match kind
    case 0 => HoldsNumber(Get(entries, 1)) && MayHoldBytes(Get(entries, 2))
    case 1 => HoldsNumber(Get(entries, 1)) && MayHoldBytes(Get(entries, 2))
    case 2 => HoldsBytes(Get(entries, 2))
    case 3 => MayHoldBytes(Get(entries, 2))
    case 4 => HoldsBytes(Get(entries, 3)) && HoldsOneOf(Get(entries, 4), {1, 2})
    case 5 => MayHoldBytes(Get(entries, 2))
    case 6 => HoldsBytes(Get(entries, 2))
    case 7 => HoldsBytes(Get(entries, 3)) && HoldsOneOf(Get(entries, 4), {1, 2})
    case 8 => HoldsText(Get(entries, 1)) && HoldsBytes(Get(entries, 2))
    case 9 => true
    case 10 => HoldsOneOf(Get(entries, 1), {1, 2, 3, 4}) && HoldsText(Get(entries, 2))
    case _ => false
  }

  function FieldsOf(kind: int): (ids: set<int>) {
    match kind
    case 0 => {1, 2}
    case 1 => {1, 2}
    case 4 => {3, 4}
    case 7 => {3, 4}
    case 8 => {1, 2}
    case 9 => {}
    case 10 => {1, 2}
    case _ => {2}
  }

  // ---------- one field ----------

  /** What the entry of a field may be. */
  ghost predicate FieldHolds(s: Schema, field: Field, v: Option<Value>) {
    if v.None? then field.optional
    else
      match field.ty
      case U53 => v.value.U64?
      case Str => v.value.Text?
      case Blob => v.value.Bytes?
      case Named(path) => path in s && (s[path].Enum? ==> v.value.U64? && v.value.u in s[path].ids)
      case _ => true
  }

  lemma SlotHolds(s: Schema, field: Field, slot: Slot)
    requires Valid(s) && SlotHasType(s, field, slot) && EncodeSlot(s, field, slot).Ok?
    ensures FieldHolds(s, field, EncodeSlot(s, field, slot).value)
  {
    if slot.Present? {
      assert HasType(s, field.ty, slot.value);
    }
  }

  lemma FieldsHold(s: Schema, fields: seq<Field>, slots: seq<Slot>, depth: nat)
    requires Valid(s) && ValidFields(s, fields, depth) && HaveTypes(s, fields, slots)
    requires EncodeSlots(s, fields, slots, []).Ok?
    ensures
      var entries := EncodeSlots(s, fields, slots, []).value;
      && (forall k | 0 <= k < |fields| :: FieldHolds(s, fields[k], Get(entries, fields[k].id)))
      && (forall id: Id | id !in FieldIds(fields) :: Get(entries, id).None?)
  {
    hide EncodeSlots, EncodeSlot, FieldHolds, Valid, HasType;
    var entries := EncodeSlots(s, fields, slots, []).value;
    forall k | 0 <= k < |fields| ensures FieldHolds(s, fields[k], Get(entries, fields[k].id)) {
      FindUnique(FieldIds(fields), k);
      EncodedFieldIsFound(s, fields, slots, [], fields[k].id);
      SlotHolds(s, fields[k], slots[k]);
      AbsentIsNone(s, fields[k], slots[k]);
    }
    forall id: Id | id !in FieldIds(fields) ensures Get(entries, id).None? {
      EncodedFieldIsFound(s, fields, slots, [], id);
    }
  }

  lemma AbsentIsNone(s: Schema, field: Field, slot: Slot)
    requires Valid(s) && SlotHasType(s, field, slot)
    ensures slot.Absent? ==> EncodeSlot(s, field, slot) == Ok(None)
  {
  }

  // ---------- the table ----------

  lemma LayoutOfVariant(index: nat, entries: seq<Entry>)
    requires index < |WireDeclarations()["ReqResMessage"].variants|
    requires
      var fields := WireDeclarations()["ReqResMessage"].variants[index].fields;
      && (forall k | 0 <= k < |fields| :: FieldHolds(WireDeclarations(), fields[k], Get(entries, fields[k].id)))
      && (forall id: Id | id !in FieldIds(fields) :: Get(entries, id).None?)
    ensures Layout(index, entries)
    ensures forall id: Id :: Get(entries, id).Some? ==> id in FieldsOf(index)
    ensures WireDeclarations()["ReqResMessage"].variants[index].id == index
  {
    var fields := WireDeclarations()["ReqResMessage"].variants[index].fields;
    hide Get;
    forall id: Id | Get(entries, id).Some? ensures id in FieldsOf(index) {
      assert id in FieldIds(fields);
    }
    assert |fields| >= 1 ==> FieldHolds(WireDeclarations(), fields[0], Get(entries, fields[0].id));
    assert |fields| >= 2 ==> FieldHolds(WireDeclarations(), fields[1], Get(entries, fields[1].id));
  }

  /** Every message that can be sent is laid out as its kind is, and has no other fields. */
  lemma MessageIsLaidOut(m: Model)
    requires Sendable(m)
    ensures
      var (kind, fields) := FlattenedParts(m);
      && kind == U64(m.index) && Layout(m.index, fields.entries)
      && forall id: Id :: Get(fields.entries, id).Some? ==> id in FieldsOf(m.index)
  {
    var s := WireSchema();
    var variant := s[MESSAGE.path].variants[m.index];
    assert HasType(s, Named(MESSAGE.path), m);
    hide WireSchema, WireDeclarations, Layout, FieldsOf, HoldsText;
    var (kind, fields) := FlattenedParts(m);
    UnionParts(s, MESSAGE.path, m);
    hide FlattenedParts, EncodeModel;
    var items := [kind, fields];
    assert items[0] == U64(variant.id) && items[1] == fields;
    VariantIsValid(m.index);
    FieldsHold(s, variant.fields, m.slots, 1);
    LayoutAt(m.index, fields.entries);
  }

  lemma VariantIsValid(index: nat)
    requires index < |WireSchema()[MESSAGE.path].variants|
    ensures ValidFields(WireSchema(), WireSchema()[MESSAGE.path].variants[index].fields, 1)
  {
    assert ValidDecl(WireSchema(), WireSchema()[MESSAGE.path]);
  }

  lemma LayoutAt(index: nat, entries: seq<Entry>)
    requires index < |WireSchema()[MESSAGE.path].variants|
    requires
      var fields := WireSchema()[MESSAGE.path].variants[index].fields;
      && (forall k | 0 <= k < |fields| :: FieldHolds(WireSchema(), fields[k], Get(entries, fields[k].id)))
      && (forall id: Id | id !in FieldIds(fields) :: Get(entries, id).None?)
    ensures Layout(index, entries) && WireSchema()[MESSAGE.path].variants[index].id == index
    ensures forall id: Id :: Get(entries, id).Some? ==> id in FieldsOf(index)
  {
    hide WireDeclarations, Layout, FieldHolds;
    LayoutOfVariant(index, entries);
  }

  // ---------- a vector ----------

  lemma RequestFields(procedure: nat)
    requires procedure <= MAX_SAFE
    ensures
      var m := Case(0, [Present(Number(procedure)), Absent]);
      Sendable(m) && FlattenedParts(m) == (U64(0), Map([Entry(1, U64(procedure))]))
  {
    var m := Case(0, [Present(Number(procedure)), Absent]);
    var s, fields := WireSchema(), [PROC_ID, OPTIONAL_PAYLOAD];
    assert s[MESSAGE.path].variants[0] == UnionVariant(0, fields);
    assert SlotHasType(s, PROC_ID, m.slots[0]) && SlotHasType(s, OPTIONAL_PAYLOAD, m.slots[1]);
    assert HaveTypes(s, fields, m.slots);
    assert SlotInRange(s, PROC_ID, m.slots[0]) && SlotInRange(s, OPTIONAL_PAYLOAD, m.slots[1]);
    assert SlotsInRange(s, fields, m.slots);
    assert EncodeSlot(s, PROC_ID, m.slots[0]) == Ok(Some(U64(procedure)));
    assert Insert([], Entry(1, U64(procedure))) == [Entry(1, U64(procedure))];
    assert m.slots[1..] == [Absent] && fields[1..] == [OPTIONAL_PAYLOAD];
    assert EncodeSlots(s, fields[1..], m.slots[1..], [Entry(1, U64(procedure))]) == Ok([Entry(1, U64(procedure))]);
    assert EncodeSlots(s, fields, m.slots, []) == Ok([Entry(1, U64(procedure))]);
  }

  /** The bytes of a unary request of procedure 2 without payload. */
  lemma RequestVector()
    ensures
      var m := Case(0, [Present(Number(2)), Absent]);
      Sendable(m) && EncodeMessage(m) == [0x00, 0xA1, 0x01, 0x02]
  {
    RequestFields(2);
    hide FlattenedParts, Sendable, WireSchema;
    assert Print(U64(0)) == [0x00];
    assert PrintEntry(Entry(1, U64(2))) == [0x01] + [0x02];
    assert Print(Map([Entry(1, U64(2))])) == [0xA1] + PrintEntries([Entry(1, U64(2))]);
  }
}
