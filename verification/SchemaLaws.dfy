/** What the generated codecs guarantee, for every valid schema and every value of its types. */
module SchemaLaws {
  import opened CborValue
  import opened Cbor
  import opened Schema

  // ---------- when encoding succeeds, and what it produces ----------

  /** Every integer is safe and every float is finite. */
  ghost predicate InRange(s: Schema, ty: TypeRef, m: Model)
    requires HasType(s, ty, m)
    decreases m, 1
  {
    match ty
    case U53 => m.n <= MAX_SAFE
    case I53 => -MAX_SAFE <= m.n <= MAX_SAFE
    case Float => Finite(m.bits)
    case ArrayOf(item) => forall i | 0 <= i < |m.items| :: InRange(s, item, m.items[i])
    case Named(path) =>
      (match s[path]
       case Struct(_, fields) => SlotsInRange(s, fields, m.slots)
       case Enum(_) => true
       case Union(_, variants) => SlotsInRange(s, variants[m.index].fields, m.slots))
    case _ => true
  }

  ghost predicate SlotsInRange(s: Schema, fields: seq<Field>, slots: seq<Slot>)
    requires HaveTypes(s, fields, slots)
    decreases slots, 0
  {
    forall i | 0 <= i < |slots| :: SlotInRange(s, fields[i], slots[i])
  }

  ghost predicate SlotInRange(s: Schema, field: Field, slot: Slot)
    requires SlotHasType(s, field, slot)
    decreases slot, 0
  {
    slot.Present? ==> InRange(s, field.ty, slot.value)
  }

  /** No list is longer than the longest array of JavaScript. */
  ghost predicate ListsFit(m: Model) {
    match m
    case List(items) => |items| <= MAX_ARRAY && forall i | 0 <= i < |items| :: ListsFit(items[i])
    case Record(slots) => SlotsFit(slots)
    case Case(_, slots) => SlotsFit(slots)
    case _ => true
  }

  ghost predicate SlotsFit(slots: seq<Slot>) {
    forall i | 0 <= i < |slots| :: SlotFits(slots[i])
  }

  ghost predicate SlotFits(slot: Slot) {
    slot.Present? ==> ListsFit(slot.value)
  }

  /** Encoding succeeds exactly on values in range; what it gives is a Rust value, which Rust can always read
      and TypeScript if its lists fit. */
  lemma {:induction false} EncodeSucceedsInRange(d: Dialect, s: Schema, ty: TypeRef, m: Model)
    requires Valid(s) && HasType(s, ty, m) && (d.Js? ==> ListsFit(m))
    ensures var r := EncodeModel(s, ty, m);
            && (r.Ok? <==> InRange(s, ty, m))
            && (r.Ok? ==> RustValue(r.value) && Readable(d, r.value))
    decreases m, 1
  {
    match ty
    case ArrayOf(item) => EncodeItemsInRange(d, s, item, m.items);
    case Named(path) =>
      assert ValidDecl(s, s[path]);
      match s[path] {
        case Struct(_, fields) => EncodeSlotsInRange(d, s, fields, m.slots, []);
        case Enum(ids) =>
        case Union(_, variants) =>
          EncodeSlotsInRange(d, s, variants[m.index].fields, m.slots, []);
          PairIsRustValue(d, s, variants[m.index], m.slots);
      }
    case _ =>
  }

  lemma PairIsRustValue(d: Dialect, s: Schema, variant: UnionVariant, slots: seq<Slot>)
    requires Valid(s) && HaveTypes(s, variant.fields, slots)
    ensures var r := EncodeSlots(s, variant.fields, slots, []);
            r.Ok? && RustValue(Map(r.value)) && Readable(d, Map(r.value)) ==>
              RustValue(Array([U64(variant.id), Map(r.value)])) && Readable(d, Array([U64(variant.id), Map(r.value)]))
  {
    var r := EncodeSlots(s, variant.fields, slots, []);
    if r.Ok? && RustValue(Map(r.value)) && Readable(d, Map(r.value)) {
      var items := [U64(variant.id), Map(r.value)];
      assert FitsItems(items) && ReadableItems(d, items);
    }
  }

  lemma {:induction false} EncodeItemsInRange(d: Dialect, s: Schema, ty: TypeRef, items: seq<Model>)
    requires Valid(s) && forall i | 0 <= i < |items| :: HasType(s, ty, items[i])
    requires d.Js? ==> forall i | 0 <= i < |items| :: ListsFit(items[i])
    ensures var r := EncodeItems(s, ty, items);
            && (r.Ok? <==> forall i | 0 <= i < |items| :: InRange(s, ty, items[i]))
            && (r.Ok? ==> |r.value| == |items| && FitsItems(r.value) && ReadableItems(d, r.value)
                          && forall i | 0 <= i < |r.value| :: Ascending(r.value[i]))
    decreases items, 0
  {
    hide HasType, InRange, EncodeModel, Valid, Fits, Readable, Ascending;
    if items != [] {
      EncodeSucceedsInRange(d, s, ty, items[0]);
      EncodeItemsInRange(d, s, ty, items[1..]);
      assert items == [items[0]] + items[1..];
    }
  }

  /** What is known of the map that an encoder has filled so far. */
  ghost predicate GoodEntries(d: Dialect, entries: seq<Entry>) {
    && KeysAscend(entries) && FitsEntries(entries) && ReadableEntries(d, entries)
    && forall i | 0 <= i < |entries| :: Ascending(entries[i].value)
  }

  lemma {:induction false} InsertKeepsGood(d: Dialect, entries: seq<Entry>, entry: Entry)
    requires GoodEntries(d, entries) && FitsEntry(entry) && ReadableEntry(d, entry) && Ascending(entry.value)
    ensures GoodEntries(d, Insert(entries, entry)) && |Insert(entries, entry)| <= |entries| + 1
  {
    InsertAscends(entries, entry);
    InsertOnlyAdds(entries, entry);
    forall i | 0 <= i < |Insert(entries, entry)|
      ensures FitsEntry(Insert(entries, entry)[i])
      ensures ReadableEntry(d, Insert(entries, entry)[i])
      ensures Ascending(Insert(entries, entry)[i].value)
    {
      assert Insert(entries, entry)[i] in Insert(entries, entry);
    }
  }

  lemma {:induction false} InsertOnlyAdds(entries: seq<Entry>, entry: Entry)
    ensures forall e | e in Insert(entries, entry) :: e == entry || e in entries
    ensures |Insert(entries, entry)| <= |entries| + 1
  {
    if entries != [] {
      InsertOnlyAdds(entries[1..], entry);
    }
  }

  lemma {:induction false} EncodeSlotsInRange(d: Dialect, s: Schema, fields: seq<Field>, slots: seq<Slot>, acc: seq<Entry>)
    requires Valid(s) && HaveTypes(s, fields, slots) && (d.Js? ==> SlotsFit(slots))
    requires GoodEntries(d, acc) && |acc| + |fields| <= MAX_SAFE
    ensures var r := EncodeSlots(s, fields, slots, acc);
            && (r.Ok? <==> SlotsInRange(s, fields, slots))
            && (r.Ok? ==> GoodEntries(d, r.value) && |r.value| <= MAX_SAFE)
    decreases slots, 0
  {
    if slots != [] {
      EncodeSlotInRange(d, s, fields[0], slots[0]);
      var encoded := EncodeSlot(s, fields[0], slots[0]);
      if encoded.Ok? {
        if encoded.value.Some? {
          InsertKeepsGood(d, acc, Entry(fields[0].id, encoded.value.value));
        }
        EncodeSlotsInRange(d, s, fields[1..], slots[1..], InsertPresent(acc, fields[0].id, encoded.value));
      }
      assert slots == [slots[0]] + slots[1..];
    }
  }

  lemma {:induction false} EncodeSlotInRange(d: Dialect, s: Schema, field: Field, slot: Slot)
    requires Valid(s) && SlotHasType(s, field, slot) && (d.Js? ==> SlotFits(slot))
    ensures var r := EncodeSlot(s, field, slot);
            && (r.Ok? <==> SlotInRange(s, field, slot))
            && (r.Ok? && r.value.Some? ==> RustValue(r.value.value) && Readable(d, r.value.value))
    decreases slot, 0
  {
    if slot.Present? {
      EncodeSucceedsInRange(d, s, field.ty, slot.value);
    }
  }
}
