/** Schemas, the typed values they describe, and the meaning of the encoders and decoders generated
    from them.  A declaration is named by its path; a schema maps paths to declarations. */
module Schema {
  import opened Wrappers
  import opened Bytes
  import opened CborValue
  import opened Cbor
  import Utf8

  datatype TypeRef =
    | Void
    | U53
    | I53
    | Float
    | Str
    | Flag
    | Blob
    | Named(path: string)
    | ArrayOf(item: TypeRef)

  /** The ids that `requiredId` accepts: safe, non-negative integers. */
  type Id = n: int | 0 <= n <= MAX_SAFE

  datatype Field = Field(id: Id, optional: bool, ty: TypeRef)

  /** `depth` bounds how deeply values nest without passing through an array or an optional field.  Every
      type that the Rust compiler can lay out has such a bound; the compiler asks for more, since an optional
      field without indirection does not make a type that contains itself finite. */
  datatype Decl =
    | Struct(depth: nat, fields: seq<Field>)
    | Enum(ids: seq<Id>)
    | Union(depth: nat, variants: seq<UnionVariant>)

  datatype UnionVariant = UnionVariant(id: Id, fields: seq<Field>)

  type Schema = map<string, Decl>

  // ---------- what validateSchema and the Rust compiler demand ----------

  ghost predicate UniqueIds(ids: seq<Id>) {
    forall i, j | 0 <= i < j < |ids| :: ids[i] != ids[j]
  }

  function FieldIds(fields: seq<Field>): (ids: seq<Id>)
    ensures |ids| == |fields| && forall i | 0 <= i < |fields| :: ids[i] == fields[i].id
  {
    seq(|fields|, i requires 0 <= i < |fields| => fields[i].id)
  }

  function VariantIds(variants: seq<UnionVariant>): (ids: seq<Id>)
    ensures |ids| == |variants| && forall i | 0 <= i < |variants| :: ids[i] == variants[i].id
  {
    seq(|variants|, i requires 0 <= i < |variants| => variants[i].id)
  }

  /** Every path that the type mentions is declared. */
  predicate Declared(s: Schema, ty: TypeRef) {
    match ty
    case Named(path) => path in s
    case ArrayOf(item) => Declared(s, item)
    case _ => true
  }

  function Depth(s: Schema, ty: TypeRef): (depth: nat)
    requires Declared(s, ty)
  {
    if ty.Named? then
      match s[ty.path]
      case Struct(depth, _) => depth
      case Union(depth, _) => depth
      case Enum(_) => 0
    else 0
  }

  ghost predicate ValidFields(s: Schema, fields: seq<Field>, depth: nat) {
    && UniqueIds(FieldIds(fields)) && |fields| <= MAX_SAFE
    && forall i | 0 <= i < |fields| ::
         && Declared(s, fields[i].ty)
         && (!fields[i].optional ==> Depth(s, fields[i].ty) < depth)
  }

  ghost predicate ValidIds(ids: seq<Id>) {
    ids != [] && UniqueIds(ids)
  }

  ghost predicate ValidDecl(s: Schema, decl: Decl) {
    match decl
    case Struct(depth, fields) => ValidFields(s, fields, depth)
    case Enum(ids) => ValidIds(ids)
    case Union(depth, variants) =>
      && ValidIds(VariantIds(variants))
      && forall i | 0 <= i < |variants| :: ValidFields(s, variants[i].fields, depth)
  }

  ghost predicate Valid(s: Schema) {
    forall path | path in s :: ValidDecl(s, s[path])
  }

  // ---------- typed values ----------

  /** A value of a generated type.  Fields come in declaration order; enum and union values name their
      variant by position. */
  datatype Model =
    | Unit
    | Number(n: int)
    | Double(bits: u64)
    | Chars(utf8: seq<byte>)
    | Truth(b: bool)
    | Octets(bytes: seq<byte>)
    | List(items: seq<Model>)
    | Record(slots: seq<Slot>)
    | Choice(index: nat)
    | Case(index: nat, slots: seq<Slot>)

  datatype Slot = Absent | Present(value: Model)

  ghost predicate HasType(s: Schema, ty: TypeRef, m: Model)
    decreases m, 1
  {
    match ty
    case Void => m.Unit?
    case U53 => m.Number? && 0 <= m.n <= U64_MAX
    case I53 => m.Number? && -I64_MAX - 1 <= m.n <= I64_MAX
    case Float => m.Double?
    case Str => m.Chars? && |m.utf8| <= MAX_SAFE && Utf8.Valid(m.utf8)
    case Flag => m.Truth?
    case Blob => m.Octets? && |m.bytes| <= MAX_SAFE
    case ArrayOf(item) => m.List? && |m.items| <= MAX_SAFE && forall i | 0 <= i < |m.items| :: HasType(s, item, m.items[i])
    case Named(path) =>
      path in s &&
      match s[path]
      case Struct(_, fields) => m.Record? && HaveTypes(s, fields, m.slots)
      case Enum(ids) => m.Choice? && m.index < |ids|
      case Union(_, variants) => m.Case? && m.index < |variants| && HaveTypes(s, variants[m.index].fields, m.slots)
  }

  ghost predicate HaveTypes(s: Schema, fields: seq<Field>, slots: seq<Slot>)
    decreases slots, 0
  {
    |fields| == |slots| && forall i | 0 <= i < |slots| :: SlotHasType(s, fields[i], slots[i])
  }

  ghost predicate SlotHasType(s: Schema, field: Field, slot: Slot)
    decreases slot, 0
  {
    match slot
    case Absent => field.optional
    case Present(value) => HasType(s, field.ty, value)
  }

  // ---------- generated encoders ----------

  datatype CodecError =
    | ExpectedArray
    | ExpectedBool
    | ExpectedBytes
    | ExpectedF64
    | ExpectedInteger
    | ExpectedMap
    | ExpectedText
    | IntegerOutOfRange
    | NonFinite
    | UnknownEnumVariant(id: int)
    | UnknownUnionVariant(id: int)

  function EncodeModel(s: Schema, ty: TypeRef, m: Model): (r: Result<Value, CodecError>)
    requires Valid(s) && HasType(s, ty, m)
    decreases m, 1
  {
    match ty
    case Void => Ok(Null)
    case U53 => if m.n > MAX_SAFE then Err(IntegerOutOfRange) else Ok(U64(m.n))
    case I53 => if -MAX_SAFE <= m.n <= MAX_SAFE then Ok(I64(m.n)) else Err(IntegerOutOfRange)
    case Float => if Finite(m.bits) then Ok(F64(m.bits)) else Err(NonFinite)
    case Str => Ok(Text(m.utf8))
    case Flag => Ok(Bool(m.b))
    case Blob => Ok(Bytes(m.bytes))
    case ArrayOf(item) =>
      var items :- EncodeItems(s, item, m.items);
      Ok(Array(items))
    case Named(path) =>
      match s[path]
      case Struct(_, fields) =>
        var entries :- EncodeSlots(s, fields, m.slots, []);
        Ok(Map(entries))
      case Enum(ids) => Ok(U64(ids[m.index]))
      case Union(_, variants) =>
        var variant := variants[m.index];
        var entries :- EncodeSlots(s, variant.fields, m.slots, []);
        Ok(Array([U64(variant.id), Map(entries)]))
  }

  function EncodeItems(s: Schema, ty: TypeRef, items: seq<Model>): (r: Result<seq<Value>, CodecError>)
    requires Valid(s) && forall i | 0 <= i < |items| :: HasType(s, ty, items[i])
    decreases items, 0
  {
    if items == [] then Ok([])
    else
      var first :- EncodeModel(s, ty, items[0]);
      var rest :- EncodeItems(s, ty, items[1..]);
      Ok([first] + rest)
  }

  /** Inserts the fields that are present one after the other, in declaration order. */
  function EncodeSlots(s: Schema, fields: seq<Field>, slots: seq<Slot>, acc: seq<Entry>): (r: Result<seq<Entry>, CodecError>)
    requires Valid(s) && HaveTypes(s, fields, slots)
    decreases slots, 0
  {
    if slots == [] then Ok(acc)
    else
      var encoded :- EncodeSlot(s, fields[0], slots[0]);
      EncodeSlots(s, fields[1..], slots[1..], InsertPresent(acc, fields[0].id, encoded))
  }

  function InsertPresent(entries: seq<Entry>, id: Id, value: Option<Value>): (r: seq<Entry>)
  {
    if value.Some? then Insert(entries, Entry(id, value.value)) else entries
  }

  function EncodeSlot(s: Schema, field: Field, slot: Slot): (r: Result<Option<Value>, CodecError>)
    requires Valid(s) && SlotHasType(s, field, slot)
    decreases slot, 0
  {
    match slot
    case Absent => Ok(None)
    case Present(value) =>
      var encoded :- EncodeModel(s, field.ty, value);
      Ok(Some(encoded))
  }

  // ---------- generated decoders ----------

  /** `expect_u64` (Rust) and `integer` (TypeScript, which lets negative numbers pass). */
  function ExpectU64(d: Dialect, v: Value): (r: Result<int, CodecError>)
  {
    match v
    case U64(u) => Ok(u)
    case I64(i) => if i >= 0 || d.Js? then Ok(i) else Err(ExpectedInteger)
    case _ => Err(ExpectedInteger)
  }

  /** `expect_i64` (Rust) and `integer` (TypeScript). */
  function ExpectI64(d: Dialect, v: Value): (r: Result<int, CodecError>)
  {
    match v
    case U64(u) => if u <= I64_MAX || d.Js? then Ok(u) else Err(ExpectedInteger)
    case I64(i) => Ok(i)
    case _ => Err(ExpectedInteger)
  }

  function DecodeModel(d: Dialect, s: Schema, ty: TypeRef, v: Value): (r: Result<Model, CodecError>)
    requires Valid(s) && Declared(s, ty)
    decreases v, 1
  {
    match ty
    case Void => Ok(Unit)
    case U53 =>
      var n :- ExpectU64(d, v);
      Ok(Number(n))
    case I53 =>
      var n :- ExpectI64(d, v);
      Ok(Number(n))
    case Float => if v.F64? then Ok(Double(v.bits)) else Err(ExpectedF64)
    case Str => if v.Text? then Ok(Chars(v.utf8)) else Err(ExpectedText)
    case Flag => if v.Bool? then Ok(Truth(v.b)) else Err(ExpectedBool)
    case Blob => if v.Bytes? then Ok(Octets(v.bytes)) else Err(ExpectedBytes)
    case ArrayOf(item) =>
      if !v.Array? then Err(ExpectedArray)
      else
        var items :- DecodeItems(d, s, item, v.items);
        Ok(List(items))
    case Named(path) =>
      assert ValidDecl(s, s[path]);
      match s[path]
      case Struct(_, fields) =>
        if !v.Map? then Err(ExpectedMap)
        else
          var slots :- DecodeSlots(d, s, fields, v.entries);
          Ok(Record(slots))
      case Enum(ids) =>
        var id :- ExpectU64(d, v);
        var index := FindId(ids, id);
        if index < |ids| then Ok(Choice(index)) else Err(UnknownEnumVariant(id))
      case Union(_, variants) =>
        if !v.Array? || |v.items| != 2 then Err(ExpectedArray)
        else
          var id :- ExpectU64(d, v.items[0]);
          if !v.items[1].Map? then Err(ExpectedMap)
          else
            var index := FindId(VariantIds(variants), id);
            if index == |variants| then Err(UnknownUnionVariant(id))
            else
              var slots :- DecodeSlots(d, s, variants[index].fields, v.items[1].entries);
              Ok(Case(index, slots))
  }

  /** The position of the first variant with this id, or the number of variants. */
  function FindId(ids: seq<Id>, id: int): (index: nat)
    ensures index <= |ids|
    ensures index < |ids| ==> ids[index] == id
    ensures forall j | 0 <= j < index :: ids[j] != id
  {
    if ids == [] || ids[0] == id then 0 else 1 + FindId(ids[1..], id)
  }

  function DecodeItems(d: Dialect, s: Schema, ty: TypeRef, items: seq<Value>): (r: Result<seq<Model>, CodecError>)
    requires Valid(s) && Declared(s, ty)
    decreases items, 0
  {
    if items == [] then Ok([])
    else
      var first :- DecodeModel(d, s, ty, items[0]);
      var rest :- DecodeItems(d, s, ty, items[1..]);
      Ok([first] + rest)
  }

  /** Each declared field is looked up by id; every other entry of the map is ignored. */
  function DecodeSlots(d: Dialect, s: Schema, fields: seq<Field>, entries: seq<Entry>): (r: Result<seq<Slot>, CodecError>)
    requires Valid(s) && forall i | 0 <= i < |fields| :: Declared(s, fields[i].ty)
    decreases entries, 1, |fields|
  {
    if fields == [] then Ok([])
    else
      var slot :- DecodeSlot(d, s, fields[0], entries);
      var rest :- DecodeSlots(d, s, fields[1..], entries);
      Ok([slot] + rest)
  }

  /** `optional_field` and `field_or_default`. */
  function DecodeSlot(d: Dialect, s: Schema, field: Field, entries: seq<Entry>): (r: Result<Slot, CodecError>)
    requires Valid(s) && Declared(s, field.ty)
    decreases entries, 0
  {
    var i := FindKey(entries, field.id);
    if i < |entries| then
      var value :- DecodeEntry(d, s, field.ty, entries[i]);
      Ok(Present(value))
    else if field.optional then Ok(Absent)
    else Ok(Present(Default(s, field.ty)))
  }

  function DecodeEntry(d: Dialect, s: Schema, ty: TypeRef, entry: Entry): (r: Result<Model, CodecError>)
    requires Valid(s) && Declared(s, ty)
    decreases entry, 0
  {
    DecodeModel(d, s, ty, entry.value)
  }

  function Default(s: Schema, ty: TypeRef): (m: Model)
    requires Valid(s) && Declared(s, ty)
    decreases Depth(s, ty), 1
  {
    match ty
    case Void => Unit
    case U53 => Number(0)
    case I53 => Number(0)
    case Float => Double(0)
    case Str => Chars([])
    case Flag => Truth(false)
    case Blob => Octets([])
    case ArrayOf(_) => List([])
    case Named(path) =>
      assert ValidDecl(s, s[path]);
      match s[path]
      case Struct(depth, fields) => Record(DefaultSlots(s, fields, depth))
      case Enum(_) => Choice(0)
      case Union(depth, variants) =>
        assert VariantIds(variants) != [];
        Case(0, DefaultSlots(s, variants[0].fields, depth))
  }

  function DefaultSlots(s: Schema, fields: seq<Field>, depth: nat): (slots: seq<Slot>)
    requires Valid(s) && ValidFields(s, fields, depth)
    decreases depth, 0
  {
    seq(|fields|, i requires 0 <= i < |fields| =>
      if fields[i].optional then Absent else Present(Default(s, fields[i].ty)))
  }
}
