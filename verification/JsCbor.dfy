/** The TypeScript codec as it runs.  Its numbers are doubles: every intermediate result below has the
    type `exact`, so that the model would not be accepted if one of them could be rounded. */
module JsCbor {
  import opened Wrappers
  import opened Buffers
  import opened Bytes
  import opened CborValue
  import opened Cbor
  import opened CborTheorems
  import Utf8

  /** The integers that a double holds exactly, together with all their neighbours: up to 2^53. */
  type exact = n: int | -MAX_SAFE - 1 <= n <= MAX_SAFE + 1

  const TWO_32: exact := 0x1_0000_0000
  const MAX_SAFE_U64_HIGH: exact := 0x1F_FFFF

  lemma {:induction false} FromBeOfConcat(a: seq<byte>, b: seq<byte>)
    ensures FromBe(a + b) == FromBe(a) * Capacity(|b|) + FromBe(b)
  {
    if b == [] {
      assert a + b == a;
    } else {
      var front := b[..|b| - 1];
      FromBeOfConcat(a, front);
      assert (a + b)[..|a + b| - 1] == a + front;
      assert FromBe(a) * Capacity(|b|) == FromBe(a) * Capacity(|front|) * 256;
    }
  }

  class JsCursor {
    const bytes: seq<byte>
    var offset: nat

    ghost predicate Valid()
      reads this
    {
      offset <= |bytes|
    }

    constructor (bytes: seq<byte>)
      ensures Valid() && this.bytes == bytes && offset == 0
    {
      this.bytes := bytes;
      offset := 0;
    }

    method Read() returns (r: Result<byte, CborError>)
      requires Valid()
      modifies this
      ensures Valid() && Follows(ReadU8(bytes, old(offset)), r, offset)
    {
      if offset >= |bytes| {
        return Err(UnexpectedEnd);
      }
      r := Ok(bytes[offset]);
      offset := offset + 1;
    }

    method ReadBytes(len: nat) returns (r: Result<seq<byte>, CborError>)
      requires Valid()
      modifies this
      ensures Valid() && Follows(ReadExact(bytes, old(offset), len), r, offset)
    {
      if offset + len > |bytes| {
        return Err(UnexpectedEnd);
      }
      var start := offset;
      offset := offset + len;
      return Ok(bytes[start..offset]);
    }

    method ReadFixedUint(len: nat) returns (r: Result<exact, CborError>)
      requires Valid() && len <= 4
      modifies this
      ensures Valid()
      ensures match ReadExact(bytes, old(offset), len)
              case Done(raw, next) => r == Ok(FromBe(raw)) && offset == next && FromBe(raw) < TWO_32
              case Fail(error) => r == Err(error)
    {
      var value: exact := 0;
      for i := 0 to len
        invariant offset == old(offset) + i <= |bytes|
        invariant value == FromBe(bytes[old(offset)..offset])
        invariant 0 <= value < Capacity(i)
      {
        assert Capacity(1) == 0x100 && Capacity(2) == 0x1_0000 && Capacity(3) == 0x100_0000;
        var b :- Read();
        var scaled: exact := value * 256;
        value := scaled + b;
        var sofar := bytes[old(offset)..offset];
        assert sofar[..|sofar| - 1] == bytes[old(offset)..offset - 1];
      }
      assert Capacity(1) == 0x100 && Capacity(2) == 0x1_0000 && Capacity(3) == 0x100_0000 && Capacity(4) == TWO_32;
      return Ok(value);
    }

    /** Accepts exactly the arguments 0 to 2^53 - 1. */
    method ReadU64AsU53() returns (r: Result<exact, CborError>)
      requires Valid()
      modifies this
      ensures Valid() && Follows(Argument(Js, 27, bytes, old(offset)), r, offset)
    {
      var start := offset;
      var high :- ReadFixedUint(4);
      var low :- ReadFixedUint(4);
      assert bytes[start..start + 8] == bytes[start..start + 4] + bytes[start + 4..start + 8];
      FromBeOfConcat(bytes[start..start + 4], bytes[start + 4..start + 8]);
      assert Capacity(4) == TWO_32;
      if high > MAX_SAFE_U64_HIGH {
        return Err(OutsideSafeRange);
      }
      var scaled: exact := high * TWO_32;
      r := SafeUnsigned(scaled + low);
    }

    static method SafeUnsigned(value: exact) returns (r: Result<exact, CborError>)
      ensures r == if value > MAX_SAFE then Err(OutsideSafeRange) else Ok(value)
    {
      if value > MAX_SAFE {
        return Err(OutsideSafeRange);
      }
      return Ok(value);
    }

    method ReadArg(additional: nat) returns (r: Result<exact, CborError>)
      requires Valid()
      modifies this
      ensures Valid() && Follows(Argument(Js, additional, bytes, old(offset)), r, offset)
    {
      if additional < 24 {
        return Ok(additional);
      } else if additional == 24 {
        var b :- Read();
        assert bytes[old(offset)..old(offset) + 1] == [b];
        assert FromBe([b]) == b;
        return Ok(b);
      } else if additional == 25 {
        r := ReadFixedUint(2);
      } else if additional == 26 {
        r := ReadFixedUint(4);
      } else if additional == 27 {
        r := ReadU64AsU53();
      } else {
        r := Err(UnsupportedType);
      }
    }

    method ReadNegativeArg(additional: nat) returns (r: Result<exact, CborError>)
      requires Valid()
      modifies this
      ensures Valid()
      ensures match Argument(Js, additional, bytes, old(offset))
              case Done(n, next) =>
                r == (if n > NegativeLimit(Js) then Err(OutsideSafeRange) else Ok(n)) && offset == next
              case Fail(error) => r == Err(error)
    {
      var value :- ReadArg(additional);
      if value > MAX_SAFE - 1 {
        return Err(OutsideSafeRange);
      }
      return Ok(value);
    }

    method Decode() returns (r: Result<Value, CborError>)
      requires Valid()
      modifies this
      ensures Valid() && Follows(Parse(Js, bytes, old(offset)), r, offset)
      decreases |bytes| - offset, 1
    {
      var initial :- Read();
      var major, additional := initial / 32, initial % 32;
      if major == 0 {
        var n :- ReadArg(additional);
        return Ok(U64(n));
      } else if major == 1 {
        var n :- ReadNegativeArg(additional);
        var negative: exact := -1 - n;
        return Ok(I64(negative));
      } else if major == 2 {
        var len :- ReadArg(additional);
        var content :- ReadBytes(len);
        return Ok(Bytes(content));
      } else if major == 3 {
        var len :- ReadArg(additional);
        var content :- ReadBytes(len);
        if !Utf8.Valid(content) {
          return Err(InvalidUtf8);
        }
        return Ok(Text(StripBom(Js, content)));
      } else if major == 4 {
        var len :- ReadArg(additional);
        if len > MAX_ARRAY {
          return Err(InvalidArrayLength);
        }
        var items :- DecodeItems(len);
        return Ok(Array(items));
      } else if major == 5 {
        var len :- ReadArg(additional);
        var entries :- DecodeEntries(len);
        return Ok(Map(entries));
      } else if major == 7 {
        r := DecodeSimple(additional);
      } else {
        r := Err(UnsupportedType);
      }
    }

    method DecodeSimple(additional: nat) returns (r: Result<Value, CborError>)
      requires Valid()
      modifies this
      ensures Valid() && Follows(ParseSimple(Js, additional, bytes, old(offset)), r, offset)
    {
      if additional == 20 {
        return Ok(Bool(false));
      } else if additional == 21 {
        return Ok(Bool(true));
      } else if additional == 22 {
        return Ok(Null);
      } else if additional == 27 {
        var raw :- ReadBytes(8);
        ToBeOfFromBe(raw);
        assert Capacity(8) == U64_MAX + 1;
        if !Finite(FromBe(raw)) {
          return Err(NonFiniteFloat);
        }
        return Ok(F64(FromBe(raw)));
      }
      return Err(UnsupportedType);
    }

    method DecodeItems(len: nat) returns (r: Result<seq<Value>, CborError>)
      requires Valid()
      modifies this
      ensures Valid() && Follows(ParseItems(Js, bytes, old(offset), len, []), r, offset)
      decreases |bytes| - offset, 2
    {
      var items: seq<Value> := [];
      for i := 0 to len
        invariant old(offset) <= offset <= |bytes|
        invariant ParseItems(Js, bytes, old(offset), len, []) == ParseItems(Js, bytes, offset, len - i, items)
      {
        var item :- Decode();
        items := items + [item];
      }
      return Ok(items);
    }

    method DecodeEntries(len: nat) returns (r: Result<seq<Entry>, CborError>)
      requires Valid()
      modifies this
      ensures Valid() && Follows(ParseEntries(Js, bytes, old(offset), len, []), r, offset)
      decreases |bytes| - offset, 2
    {
      var entries: seq<Entry> := [];
      for i := 0 to len
        invariant old(offset) <= offset <= |bytes|
        invariant ParseEntries(Js, bytes, old(offset), len, []) == ParseEntries(Js, bytes, offset, len - i, entries)
      {
        var key :- Decode();
        if !key.U64? {
          return Err(ExpectedUnsignedMapKey);
        }
        if HasKey(entries, key.u) {
          return Err(DuplicateMapKey);
        }
        var value :- Decode();
        entries := entries + [Entry(key.u, value)];
      }
      return Ok(entries);
    }
  }

  /** Big-endian digits by repeated division, from the last place to the first. */
  method Be(value: exact, len: nat) returns (out: array<byte>)
    requires value >= 0
    ensures out[..] == ToBe(value, len)
  {
    var remaining: exact := value;
    out := new byte[len];
    var i := len;
    while i > 0
      invariant i <= len && out.Length == len && remaining >= 0
      invariant ToBe(value, len) == ToBe(remaining, i) + out[i..]
    {
      i := i - 1;
      ghost var tail := out[i + 1..];
      out[i] := remaining % 256;
      assert out[i..] == [remaining % 256] + tail;
      remaining := remaining / 256;
    }
  }

  method EncodeTypeValue(major: nat, value: nat, out: ByteVec) returns (r: Result<(), CborError>)
    requires major < 8
    modifies out
    ensures r.Ok? <==> value <= MAX_SAFE
    ensures r.Ok? ==> out.bytes == old(out.bytes) + Head(major, value)
  {
    if value > MAX_SAFE {
      return Err(OutsideSafeRange);
    }
    hide ToBe;
    var prefix := 32 * major;
    if value < 24 {
      out.Push(prefix + value);
    } else if value <= 0xFF {
      OneByte(value);
      out.Extend([prefix + 24] + [value]);
    } else if value <= 0xFFFF {
      TwoBytes(value);
      out.Extend([prefix + 25] + [value / 256, value % 256]);
    } else if value <= 0xFFFF_FFFF {
      var digits := Be(value, 4);
      out.Extend([prefix + 26] + digits[..]);
    } else {
      var digits := Be(value, 8);
      out.Extend([prefix + 27] + digits[..]);
    }
    return Ok(());
  }

  lemma TwoBytes(n: nat)
    requires n < 0x1_0000
    ensures ToBe(n, 2) == [n / 256, n % 256]
  {
    OneByte(n / 256);
  }

  /** Sorting the entries of a map and sorting inside their values can be done in either order. */
  lemma {:induction false} SortValuesOfSorted(entries: seq<Entry>)
    ensures SortValues(SortEntries(entries)) == SortEntries(SortValues(entries))
  {
    if entries != [] {
      var front, last := entries[..|entries| - 1], entries[|entries| - 1];
      SortValuesOfSorted(front);
      assert SortValues(entries)[..|entries| - 1] == SortValues(front);
      SortValuesOfInsert(SortEntries(front), last);
    }
  }

  lemma {:induction false} SortValuesOfInsert(entries: seq<Entry>, entry: Entry)
    ensures SortValues(Insert(entries, entry)) == Insert(SortValues(entries), SortEntry(entry))
  {
    hide Sort;
    if entries != [] {
      assert SortValues(entries)[1..] == SortValues(entries[1..]);
      SortValuesOfInsert(entries[1..], entry);
    }
  }

  /** The number branch of `encode`. */
  method EncodeInteger(i: int, out: ByteVec) returns (r: Result<(), CborError>)
    modifies out
    ensures r.Ok? <==> -MAX_SAFE <= i <= MAX_SAFE
    ensures r.Ok? ==> out.bytes == old(out.bytes) + if i >= 0 then Head(0, i) else Head(1, -1 - i)
  {
    hide Head;
    if i < -MAX_SAFE || i > MAX_SAFE {
      return Err(OutsideSafeRange);
    }
    if i >= 0 {
      r := EncodeTypeValue(0, i, out);
    } else {
      r := EncodeTypeValue(1, -1 - i, out);
    }
  }

  /** The branches of `encode` for byte strings and for text. */
  method EncodeString(major: nat, content: seq<byte>, out: ByteVec) returns (r: Result<(), CborError>)
    requires major < 8
    modifies out
    ensures r.Ok? <==> |content| <= MAX_SAFE
    ensures r.Ok? ==> out.bytes == old(out.bytes) + (Head(major, |content|) + content)
  {
    hide Head;
    var _ :- EncodeTypeValue(major, |content|, out);
    Regroup(old(out.bytes), Head(major, |content|), content);
    out.Extend(content);
    return Ok(());
  }

  /** What `encode` can write: integers, keys and lengths are safe.  A float is written whatever its bits. */
  ghost predicate Encodable(v: Value) {
    match v
    case U64(u) => u <= MAX_SAFE
    case I64(i) => -MAX_SAFE <= i <= MAX_SAFE
    case Bytes(bytes) => |bytes| <= MAX_SAFE
    case Text(utf8) => |utf8| <= MAX_SAFE
    case Array(items) => |items| <= MAX_SAFE && EncodableItems(items)
    case Map(entries) => |entries| <= MAX_SAFE && EncodableEntries(entries)
    case _ => true
  }

  ghost predicate EncodableItems(items: seq<Value>) {
    forall i | 0 <= i < |items| :: Encodable(items[i])
  }

  ghost predicate EncodableEntries(entries: seq<Entry>) {
    forall i | 0 <= i < |entries| :: EncodableEntry(entries[i])
  }

  ghost predicate EncodableEntry(entry: Entry) {
    entry.key <= MAX_SAFE && Encodable(entry.value)
  }

  lemma {:induction false} ReadableIsEncodable(v: Value)
    requires Readable(Js, v)
    ensures Encodable(v)
  {
    match v
    case Array(items) =>
      forall i | 0 <= i < |items| ensures Encodable(items[i]) {
        ReadableIsEncodable(items[i]);
      }
    case Map(entries) =>
      forall i | 0 <= i < |entries| ensures EncodableEntry(entries[i]) {
        assert ReadableEntry(Js, entries[i]);
        ReadableIsEncodable(entries[i].value);
      }
    case _ =>
  }

  /** `encode`: throws for numbers outside the safe range, otherwise appends the sorted print. */
  method EncodeValue(value: Value, out: ByteVec) returns (r: Result<(), CborError>)
    requires Fits(value)
    modifies out
    ensures r.Ok? <==> Encodable(value)
    ensures r.Ok? ==> Fits(Sort(value)) && out.bytes == old(out.bytes) + Print(Sort(value))
    decreases value, 1
  {
    SortPrintLength(value);
    hide Head, ToBe, PrintItems, PrintEntries, SortItems, SortValues, SortEntries, EncodableItems, EncodableEntries;
    hide FitsItems, FitsEntries;
    match value
    case Null => out.Push(0xF6); return Ok(());
    case Bool(b) => out.Push(if b then 0xF5 else 0xF4); return Ok(());
    case U64(u) => r := EncodeInteger(u, out);
    case I64(i) => r := EncodeInteger(i, out);
    case F64(bits) =>
      out.Push(0xFB);
      Regroup(old(out.bytes), [0xFB], ToBe(bits, 8));
      out.Extend(ToBe(bits, 8));
      return Ok(());
    case Bytes(content) => r := EncodeString(2, content, out);
    case Text(utf8) => r := EncodeString(3, utf8, out);
    case Array(items) =>
      var _ :- EncodeTypeValue(4, |items|, out);
      r := EncodeItems(items, out);
      Regroup(old(out.bytes), Head(4, |items|), PrintItems(SortItems(items)));
    case Map(entries) =>
      var _ :- EncodeTypeValue(5, |entries|, out);
      r := EncodeEntries(entries, out);
      Regroup(old(out.bytes), Head(5, |entries|), PrintEntries(SortEntries(SortValues(entries))));
  }

  method EncodeItems(items: seq<Value>, out: ByteVec) returns (r: Result<(), CborError>)
    requires FitsItems(items)
    modifies out
    ensures r.Ok? <==> EncodableItems(items)
    ensures r.Ok? ==> FitsItems(SortItems(items)) && out.bytes == old(out.bytes) + PrintItems(SortItems(items))
    decreases items, 0
  {
    hide Print, Fits, Sort, Encodable;
    SortItemsPrintLength(items);
    var sorted := SortItems(items);
    for i := 0 to |items|
      invariant out.bytes + PrintItems(sorted[i..]) == old(out.bytes) + PrintItems(sorted)
      invariant forall k | 0 <= k < i :: Encodable(items[k])
    {
      var _ :- EncodeValue(items[i], out);
      assert sorted[i..][1..] == sorted[i + 1..];
    }
    return Ok(());
  }

  /** The entries of a JavaScript `Map` come in insertion order and are sorted before they are written. */
  method EncodeEntries(entries: seq<Entry>, out: ByteVec) returns (r: Result<(), CborError>)
    requires FitsEntries(entries) && Distinct(entries)
    modifies out
    ensures r.Ok? <==> EncodableEntries(entries)
    ensures FitsEntries(SortEntries(SortValues(entries))) && |SortEntries(SortValues(entries))| == |entries|
    ensures r.Ok? ==> out.bytes == old(out.bytes) + PrintEntries(SortEntries(SortValues(entries)))
    decreases entries, 0
  {
    hide PrintEntry, FitsEntry, Sort, EncodableEntry, Insert, SortEntries;
    SortValuesPrintLength(entries);
    SortEntriesPrintLength(SortValues(entries));
    SortEntriesMembers(SortValues(entries));
    SortEntriesMembers(entries);
    var sorted := SortEntries(entries);
    ghost var target := SortEntries(SortValues(entries));
    SortValuesOfSorted(entries);
    for i := 0 to |sorted|
      invariant out.bytes + PrintEntries(target[i..]) == old(out.bytes) + PrintEntries(target)
      invariant forall k | 0 <= k < i :: EncodableEntry(sorted[k])
    {
      assert sorted[i] in entries;
      ghost var j :| 0 <= j < |entries| && entries[j] == sorted[i];
      var _ :- EncodeEntry(sorted[i], out);
      assert target[i] == SortEntry(sorted[i]);
      assert target[i..][1..] == target[i + 1..];
    }
    forall j | 0 <= j < |entries| ensures EncodableEntry(entries[j]) {
      assert entries[j] in sorted;
    }
    return Ok(());
  }

  method EncodeEntry(entry: Entry, out: ByteVec) returns (r: Result<(), CborError>)
    requires FitsEntry(entry)
    modifies out
    ensures r.Ok? <==> EncodableEntry(entry)
    ensures r.Ok? ==> FitsEntry(SortEntry(entry)) && out.bytes == old(out.bytes) + PrintEntry(SortEntry(entry))
    decreases entry, 0
  {
    var _ :- EncodeTypeValue(0, entry.key, out);
    r := EncodeValue(entry.value, out);
  }
}
