/** The CBOR profile as two functions on trees: `Print` and `Parse`.  The Rust and the TypeScript
    decoder differ in a few checks, so `Parse` takes the dialect it is to follow. */
module Cbor {
  import opened Bytes
  import opened CborValue
  import Utf8

  datatype Dialect = Rust | Js

  datatype CborError =
    | UnexpectedEnd
    | UnsupportedType
    | NonCanonicalInteger
    | DuplicateMapKey
    | ExpectedUnsignedMapKey
    | TrailingBytes
    | InvalidUtf8
    | LengthTooLarge
    | InvalidArrayLength
    | OutsideSafeRange
    | NonFiniteFloat

  /** What reading at one position gives: a result and the next position, or an error. */
  datatype Parsed<+T> = Done(value: T, next: nat) | Fail(error: CborError) {
    predicate IsFailure() {
      Fail?
    }

    function PropagateFailure<U>(): Parsed<U>
      requires Fail?
    {
      Fail(error)
    }

    function Extract(): (T, nat)
      requires Done?
    {
      (value, next)
    }
  }

  // ---------- printing ----------

  /** The head of a data item: section 3 of RFC 8949, always in its shortest form. */
  function Head(major: nat, n: u64): (s: seq<byte>)
    requires major < 8
    ensures s != []
  {
    if n < 24 then [32 * major + n]
    else if n <= 0xFF then [32 * major + 24] + ToBe(n, 1)
    else if n <= 0xFFFF then [32 * major + 25] + ToBe(n, 2)
    else if n <= 0xFFFF_FFFF then [32 * major + 26] + ToBe(n, 4)
    else [32 * major + 27] + ToBe(n, 8)
  }

  function Print(v: Value): (s: seq<byte>)
    requires Fits(v)
    ensures s != []
  {
    match v
    case Null => [0xF6]
    case Bool(b) => if b then [0xF5] else [0xF4]
    case U64(u) => Head(0, u)
    case I64(i) => if i >= 0 then Head(0, i) else Head(1, -1 - i)
    case F64(bits) => [0xFB] + ToBe(bits, 8)
    case Bytes(bytes) => Head(2, |bytes|) + bytes
    case Text(utf8) => Head(3, |utf8|) + utf8
    case Array(items) => Head(4, |items|) + PrintItems(items)
    case Map(entries) => Head(5, |entries|) + PrintEntries(entries)
  }

  function PrintItems(items: seq<Value>): (s: seq<byte>)
    requires FitsItems(items)
  {
    if items == [] then [] else Print(items[0]) + PrintItems(items[1..])
  }

  function PrintEntry(entry: Entry): (s: seq<byte>)
    requires FitsEntry(entry)
  {
    Head(0, entry.key) + Print(entry.value)
  }

  function PrintEntries(entries: seq<Entry>): (s: seq<byte>)
    requires FitsEntries(entries)
  {
    if entries == [] then [] else PrintEntry(entries[0]) + PrintEntries(entries[1..])
  }

  // ---------- parsing ----------

  function ReadExact(bytes: seq<byte>, pos: nat, n: nat): (r: Parsed<seq<byte>>)
    requires pos <= |bytes|
    ensures r.Done? ==> r.next == pos + n <= |bytes| && |r.value| == n
  {
    if pos + n > |bytes| then Fail(UnexpectedEnd) else Done(bytes[pos..pos + n], pos + n)
  }

  function ReadU8(bytes: seq<byte>, pos: nat): (r: Parsed<byte>)
    requires pos <= |bytes|
    ensures r.Done? ==> r.next == pos + 1 <= |bytes|
  {
    if pos == |bytes| then Fail(UnexpectedEnd) else Done(bytes[pos], pos + 1)
  }

  const MAX_SAFE: int := 0x1F_FFFF_FFFF_FFFF

  /** The longest array of JavaScript: asking for a longer one is an error, whatever it is to hold. */
  const MAX_ARRAY: nat := 0xFFFF_FFFF

  /** How many bytes follow an initial byte with this additional information. */
  function Width(additional: nat): (width: nat)
    requires 24 <= additional <= 27
  {
    match additional case 24 => 1 case 25 => 2 case 26 => 4 case _ => 8
  }

  /** The largest argument for which a shorter head exists. */
  function LargestShorter(additional: nat): (n: nat)
    requires 24 <= additional <= 27
  {
    match additional case 24 => 23 case 25 => 0xFF case 26 => 0xFFFF case _ => 0xFFFF_FFFF
  }

  function Argument(d: Dialect, additional: nat, bytes: seq<byte>, pos: nat): (r: Parsed<u64>)
    requires pos <= |bytes|
    ensures r.Done? ==> pos <= r.next <= |bytes|
  {
    if additional <= 23 then Done(additional, pos)
    else if additional <= 27 then
      var (raw, next) :- ReadExact(bytes, pos, Width(additional));
      ToBeOfFromBe(raw);
      assert FromBe(raw) < Capacity(8) by { CapacityGrows(|raw|, 8); }
      var n: u64 := FromBe(raw);
      if d.Rust? && n <= LargestShorter(additional) then Fail(NonCanonicalInteger)
      else if d.Js? && n > MAX_SAFE then Fail(OutsideSafeRange)
      else Done(n, next)
    else Fail(UnsupportedType)
  }

  lemma {:induction false} CapacityGrows(a: nat, b: nat)
    requires a <= b
    ensures Capacity(a) <= Capacity(b)
    decreases b
  {
    if a < b {
      CapacityGrows(a, b - 1);
    }
  }

  /** The largest argument of a negative integer that the dialect accepts. */
  function NegativeLimit(d: Dialect): (n: nat)
    ensures n <= I64_MAX
  {
    if d.Rust? then I64_MAX else MAX_SAFE - 1
  }

  const BOM: seq<byte> := [0xEF, 0xBB, 0xBF]

  /** `TextDecoder` drops one leading byte-order mark; `String::from_utf8` keeps it. */
  function StripBom(d: Dialect, utf8: seq<byte>): (r: seq<byte>)
  {
    if d.Js? && BOM <= utf8 then utf8[3..] else utf8
  }

  predicate Finite(bits: u64) {
    bits / 0x10_0000_0000_0000 % 0x800 != 0x7FF
  }

  function Parse(d: Dialect, bytes: seq<byte>, pos: nat): (r: Parsed<Value>)
    requires pos <= |bytes|
    ensures r.Done? ==> pos < r.next <= |bytes|
    decreases |bytes| - pos, 0
  {
    var (initial, start) :- ReadU8(bytes, pos);
    var major, additional := initial / 32, initial % 32;
    if major == 6 then Fail(UnsupportedType)
    else if major == 7 then ParseSimple(d, additional, bytes, start)
    else
      var (n, body) :- Argument(d, additional, bytes, start);
      ParseContent(d, major, n, bytes, body)
  }

  /** Major type 7. */
  function ParseSimple(d: Dialect, additional: nat, bytes: seq<byte>, pos: nat): (r: Parsed<Value>)
    requires pos <= |bytes|
    ensures r.Done? ==> pos <= r.next <= |bytes|
  {
    if additional == 20 then Done(Bool(false), pos)
    else if additional == 21 then Done(Bool(true), pos)
    else if additional == 22 then Done(Null, pos)
    else if additional == 27 then
      var (raw, next) :- ReadExact(bytes, pos, 8);
      ToBeOfFromBe(raw);
      if d.Js? && !Finite(FromBe(raw)) then Fail(NonFiniteFloat) else Done(F64(FromBe(raw)), next)
    else Fail(UnsupportedType)
  }

  /** Major types 0 to 5, once the argument `n` is known. */
  function ParseContent(d: Dialect, major: nat, n: u64, bytes: seq<byte>, pos: nat): (r: Parsed<Value>)
    requires pos <= |bytes| && major < 6
    ensures r.Done? ==> pos <= r.next <= |bytes|
    decreases |bytes| - pos, 3
  {
    match major
    case 0 => Done(U64(n), pos)
    case 1 =>
      if n > NegativeLimit(d) then Fail(if d.Rust? then LengthTooLarge else OutsideSafeRange)
      else Done(I64(-1 - n), pos)
    case 2 =>
      var (content, next) :- ReadExact(bytes, pos, n);
      Done(Bytes(content), next)
    case 3 =>
      var (content, next) :- ReadExact(bytes, pos, n);
      if Utf8.Valid(content) then Done(Text(StripBom(d, content)), next) else Fail(InvalidUtf8)
    case 4 =>
      if d.Js? && n > MAX_ARRAY then Fail(InvalidArrayLength)
      else
        var (items, next) :- ParseItems(d, bytes, pos, n, []);
        Done(Array(items), next)
    case _ =>
      var (entries, next) :- ParseEntries(d, bytes, pos, n, []);
      Done(Map(entries), next)
  }

  function ParseItems(d: Dialect, bytes: seq<byte>, pos: nat, count: nat, acc: seq<Value>): (r: Parsed<seq<Value>>)
    requires pos <= |bytes|
    ensures r.Done? ==> pos <= r.next <= |bytes|
    decreases |bytes| - pos, 2
  {
    if count == 0 then Done(acc, pos)
    else
      var (item, next) :- Parse(d, bytes, pos);
      ParseItems(d, bytes, next, count - 1, acc + [item])
  }

  function ParseEntries(d: Dialect, bytes: seq<byte>, pos: nat, count: nat, acc: seq<Entry>): (r: Parsed<seq<Entry>>)
    requires pos <= |bytes|
    ensures r.Done? ==> pos <= r.next <= |bytes|
    decreases |bytes| - pos, 2
  {
    if count == 0 then Done(acc, pos)
    else
      var (entry, next) :- ParseEntry(d, bytes, pos, acc);
      ParseEntries(d, bytes, next, count - 1, acc + [entry])
  }

  /** The entry after `acc`.  TypeScript rejects a repeated key before it reads the value, Rust after. */
  function ParseEntry(d: Dialect, bytes: seq<byte>, pos: nat, acc: seq<Entry>): (r: Parsed<Entry>)
    requires pos <= |bytes|
    ensures r.Done? ==> pos < r.next <= |bytes|
    decreases |bytes| - pos, 1
  {
    var (key, after) :- Parse(d, bytes, pos);
    if !key.U64? then Fail(ExpectedUnsignedMapKey)
    else if d.Js? && HasKey(acc, key.u) then Fail(DuplicateMapKey)
    else
      var (value, next) :- Parse(d, bytes, after);
      if HasKey(acc, key.u) then Fail(DuplicateMapKey) else Done(Entry(key.u, value), next)
  }

  // ---------- what a reader of the dialect makes of a printed tree ----------

  /** The printed tree stays within the numbers the dialect can hold. */
  ghost predicate Readable(d: Dialect, v: Value) {
    d.Rust? ||
    match v
    case U64(u) => u <= MAX_SAFE
    case I64(i) => -MAX_SAFE <= i <= MAX_SAFE
    case F64(bits) => Finite(bits)
    case Bytes(bytes) => |bytes| <= MAX_SAFE
    case Text(utf8) => |utf8| <= MAX_SAFE
    case Array(items) => |items| <= MAX_ARRAY && ReadableItems(d, items)
    case Map(entries) => |entries| <= MAX_SAFE && ReadableEntries(d, entries)
    case _ => true
  }

  ghost predicate ReadableItems(d: Dialect, items: seq<Value>) {
    forall i | 0 <= i < |items| :: Readable(d, items[i])
  }

  ghost predicate ReadableEntries(d: Dialect, entries: seq<Entry>) {
    forall i | 0 <= i < |entries| :: ReadableEntry(d, entries[i])
  }

  ghost predicate ReadableEntry(d: Dialect, entry: Entry) {
    (d.Js? ==> entry.key <= MAX_SAFE) && Readable(d, entry.value)
  }

  /** Non-negative signed integers come back unsigned; TypeScript also drops byte-order marks. */
  function Reading(d: Dialect, v: Value): (r: Value)
  {
    match v
    case I64(i) => if i >= 0 then U64(i) else v
    case Text(utf8) => Text(StripBom(d, utf8))
    case Array(items) => Array(ReadingItems(d, items))
    case Map(entries) => Map(ReadingEntries(d, entries))
    case _ => v
  }

  function ReadingItems(d: Dialect, items: seq<Value>): (r: seq<Value>)
    ensures |r| == |items|
    ensures forall i | 0 <= i < |items| :: r[i] == Reading(d, items[i])
  {
    seq(|items|, i requires 0 <= i < |items| => Reading(d, items[i]))
  }

  function ReadingEntry(d: Dialect, entry: Entry): (r: Entry)
  {
    Entry(entry.key, Reading(d, entry.value))
  }

  function ReadingEntries(d: Dialect, entries: seq<Entry>): (r: seq<Entry>)
    ensures |r| == |entries|
    ensures forall i | 0 <= i < |entries| :: r[i] == ReadingEntry(d, entries[i])
  {
    seq(|entries|, i requires 0 <= i < |entries| => ReadingEntry(d, entries[i]))
  }

  // ---------- the two codecs ----------

  function WholeInput(bytes: seq<byte>, r: Parsed<Value>): (v: Parsed<Value>)
  {
    if r.Done? && r.next != |bytes| then Fail(TrailingBytes) else r
  }

  /** `Value::decode` (Rust): the tree read from the wire, its maps put in key order. */
  function Decode(bytes: seq<byte>): (r: Parsed<Value>)
  {
    var (tree, next) :- WholeInput(bytes, Parse(Rust, bytes, 0));
    Done(Sort(tree), next)
  }
}
