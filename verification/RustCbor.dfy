/** The Rust codec as it runs: bytes appended to a vector, a cursor advanced by every read. */
module RustCbor {
  import opened Wrappers
  import opened Buffers
  import opened Bytes
  import opened CborValue
  import opened Cbor
  import Utf8

  method Encode(value: Value) returns (bytes: seq<byte>)
    requires RustValue(value)
    ensures bytes == Print(value)
  {
    var out := new ByteVec();
    EncodeValue(value, out);
    bytes := out.bytes;
  }

  method EncodeValue(value: Value, out: ByteVec)
    requires Fits(value)
    modifies out
    ensures out.bytes == old(out.bytes) + Print(value)
    decreases value, 1
  {
    hide Head, ToBe, PrintItems, PrintEntries, FitsItems, FitsEntries;
    match value
    case Null => out.Push(0xF6);
    case Bool(b) => out.Push(if b then 0xF5 else 0xF4);
    case U64(u) => EncodeTypeValue(0, u, out);
    case I64(i) =>
      if i >= 0 {
        EncodeTypeValue(0, i, out);
      } else {
        EncodeTypeValue(1, -1 - i, out);
      }
    case F64(bits) =>
      out.Push(0xFB);
      out.Extend(ToBe(bits, 8));
    case Bytes(content) =>
      EncodeTypeValue(2, |content|, out);
      out.Extend(content);
    case Text(utf8) =>
      EncodeTypeValue(3, |utf8|, out);
      out.Extend(utf8);
    case Array(items) =>
      EncodeTypeValue(4, |items|, out);
      EncodeItems(items, out);
    case Map(entries) =>
      EncodeTypeValue(5, |entries|, out);
      EncodeEntries(entries, out);
  }

  method EncodeItems(items: seq<Value>, out: ByteVec)
    requires FitsItems(items)
    modifies out
    ensures out.bytes == old(out.bytes) + PrintItems(items)
    decreases items, 0
  {
    hide Print, Fits;
    for i := 0 to |items|
      invariant out.bytes + PrintItems(items[i..]) == old(out.bytes) + PrintItems(items)
    {
      EncodeValue(items[i], out);
      assert items[i..][1..] == items[i + 1..];
    }
  }

  method EncodeEntries(entries: seq<Entry>, out: ByteVec)
    requires FitsEntries(entries)
    modifies out
    ensures out.bytes == old(out.bytes) + PrintEntries(entries)
    decreases entries, 0
  {
    hide PrintEntry, FitsEntry;
    for i := 0 to |entries|
      invariant out.bytes + PrintEntries(entries[i..]) == old(out.bytes) + PrintEntries(entries)
    {
      EncodeEntry(entries[i], out);
      assert entries[i..][1..] == entries[i + 1..];
    }
  }

  method EncodeEntry(entry: Entry, out: ByteVec)
    requires FitsEntry(entry)
    modifies out
    ensures out.bytes == old(out.bytes) + PrintEntry(entry)
    decreases entry, 0
  {
    EncodeTypeValue(0, entry.key, out);
    EncodeValue(entry.value, out);
  }

  method EncodeTypeValue(major: nat, value: u64, out: ByteVec)
    requires major < 8
    modifies out
    ensures out.bytes == old(out.bytes) + Head(major, value)
  {
    hide ToBe;
    var prefix := major * 32;
    if value < 24 {
      out.Push(prefix + value);
    } else if value <= 0xFF {
      out.Push(prefix + 24);
      out.Push(value);
      OneByte(value);
    } else if value <= 0xFFFF {
      out.Push(prefix + 25);
      out.Extend(ToBe(value, 2));
    } else if value <= 0xFFFF_FFFF {
      out.Push(prefix + 26);
      out.Extend(ToBe(value, 4));
    } else {
      out.Push(prefix + 27);
      out.Extend(ToBe(value, 8));
    }
  }

  /** `Follows` for a decoded tree, whose maps the decoder keeps in key order. */
  ghost predicate FollowsSorted(spec: Parsed<Value>, r: Result<Value, CborError>, position: nat) {
    match spec
    case Done(tree, next) => r == Ok(Sort(tree)) && position == next
    case Fail(error) => r == Err(error)
  }

  class Cursor {
    const bytes: seq<byte>
    var position: nat

    ghost predicate Valid()
      reads this
    {
      position <= |bytes|
    }

    constructor (bytes: seq<byte>)
      ensures Valid() && this.bytes == bytes && position == 0
    {
      this.bytes := bytes;
      position := 0;
    }

    method ReadU8() returns (r: Result<byte, CborError>)
      requires Valid()
      modifies this
      ensures Valid() && Follows(Cbor.ReadU8(bytes, old(position)), r, position)
    {
      if position == |bytes| {
        return Err(UnexpectedEnd);
      }
      r := Ok(bytes[position]);
      position := position + 1;
    }

    method ReadExact(n: nat) returns (r: Result<seq<byte>, CborError>)
      requires Valid()
      modifies this
      ensures Valid() && Follows(Cbor.ReadExact(bytes, old(position), n), r, position)
    {
      if position + n > |bytes| {
        return Err(UnexpectedEnd);
      }
      r := Ok(bytes[position..position + n]);
      position := position + n;
    }

    method DecodeArgument(additional: nat) returns (r: Result<u64, CborError>)
      requires Valid()
      modifies this
      ensures Valid() && Follows(Argument(Rust, additional, bytes, old(position)), r, position)
    {
      assert Capacity(1) == 0x100 && Capacity(2) == 0x1_0000 && Capacity(4) == 0x1_0000_0000;
      assert Capacity(8) == U64_MAX + 1;
      if additional <= 23 {
        return Ok(additional);
      } else if additional == 24 {
        var value :- ReadU8();
        assert FromBe([value]) == value;
        assert bytes[old(position)..old(position) + 1] == [value];
        if value < 24 {
          return Err(NonCanonicalInteger);
        }
        return Ok(value);
      } else if additional == 25 {
        var raw :- ReadExact(2);
        ToBeOfFromBe(raw);
        var value := FromBe(raw);
        if value <= 0xFF {
          return Err(NonCanonicalInteger);
        }
        return Ok(value);
      } else if additional == 26 {
        var raw :- ReadExact(4);
        ToBeOfFromBe(raw);
        var value := FromBe(raw);
        if value <= 0xFFFF {
          return Err(NonCanonicalInteger);
        }
        return Ok(value);
      } else if additional == 27 {
        var raw :- ReadExact(8);
        ToBeOfFromBe(raw);
        var value := FromBe(raw);
        if value <= 0xFFFF_FFFF {
          return Err(NonCanonicalInteger);
        }
        return Ok(value);
      }
      return Err(UnsupportedType);
    }

    method DecodeValue() returns (r: Result<Value, CborError>)
      requires Valid()
      modifies this
      ensures Valid() && FollowsSorted(Parse(Rust, bytes, old(position)), r, position)
      decreases |bytes| - position, 1
    {
      var initial :- ReadU8();
      var major, additional := initial / 32, initial % 32;
      if major == 6 {
        return Err(UnsupportedType);
      } else if major == 7 {
        r := DecodeSimple(additional);
        return;
      }
      var n :- DecodeArgument(additional);
      if major == 0 {
        return Ok(U64(n));
      } else if major == 1 {
        if n > I64_MAX {
          return Err(LengthTooLarge);
        }
        return Ok(I64(-1 - n));
      } else if major == 2 {
        var content :- ReadExact(n);
        return Ok(Bytes(content));
      } else if major == 3 {
        var content :- ReadExact(n);
        if !Utf8.Valid(content) {
          return Err(InvalidUtf8);
        }
        return Ok(Text(content));
      } else if major == 4 {
        var items :- DecodeItems(n);
        return Ok(Array(items));
      } else {
        var entries :- DecodeEntries(n);
        return Ok(Map(entries));
      }
    }

    method DecodeSimple(additional: nat) returns (r: Result<Value, CborError>)
      requires Valid()
      modifies this
      ensures Valid() && FollowsSorted(ParseSimple(Rust, additional, bytes, old(position)), r, position)
    {
      if additional == 20 {
        return Ok(Bool(false));
      } else if additional == 21 {
        return Ok(Bool(true));
      } else if additional == 22 {
        return Ok(Null);
      } else if additional == 27 {
        var raw :- ReadExact(8);
        ToBeOfFromBe(raw);
        assert Capacity(8) == U64_MAX + 1;
        return Ok(F64(FromBe(raw)));
      }
      return Err(UnsupportedType);
    }

    /** The loop of an array: items are pushed one by one. */
    method DecodeItems(len: u64) returns (r: Result<seq<Value>, CborError>)
      requires Valid()
      modifies this
      ensures Valid()
      ensures match ParseItems(Rust, bytes, old(position), len, [])
              case Done(trees, next) => r == Ok(SortItems(trees)) && position == next
              case Fail(error) => r == Err(error)
      decreases |bytes| - position, 2
    {
      var items: seq<Value> := [];
      ghost var trees: seq<Value> := [];
      var i: nat := 0;
      while i < len
        invariant i <= len && old(position) <= position <= |bytes|
        invariant items == SortItems(trees)
        invariant ParseItems(Rust, bytes, old(position), len, []) ==
                  ParseItems(Rust, bytes, position, len - i, trees)
      {
        ghost var tree := Parse(Rust, bytes, position);
        var item :- DecodeValue();
        trees := trees + [tree.value];
        items := items + [item];
        i := i + 1;
      }
      return Ok(items);
    }

    /** The loop of a map: entries are inserted in wire order, a repeated key is an error. */
    method DecodeEntries(len: u64) returns (r: Result<seq<Entry>, CborError>)
      requires Valid()
      modifies this
      ensures Valid()
      ensures match ParseEntries(Rust, bytes, old(position), len, [])
              case Done(trees, next) => r == Ok(SortEntries(SortValues(trees))) && position == next
              case Fail(error) => r == Err(error)
      decreases |bytes| - position, 2
    {
      hide SortEntries, SortValues, Insert, HasKey;
      NothingSorted();
      var entries: seq<Entry> := [];
      ghost var trees: seq<Entry> := [];
      var i: nat := 0;
      while i < len
        invariant i <= len && old(position) <= position <= |bytes|
        invariant entries == SortEntries(SortValues(trees))
        invariant ParseEntries(Rust, bytes, old(position), len, []) ==
                  ParseEntries(Rust, bytes, position, len - i, trees)
      {
        ghost var entry := ParseEntry(Rust, bytes, position, trees);
        var key :- DecodeValue();
        if !key.U64? {
          return Err(ExpectedUnsignedMapKey);
        }
        var value :- DecodeValue();
        SortedKeys(trees, key.u);
        if HasKey(entries, key.u) {
          return Err(DuplicateMapKey);
        }
        InsertNext(trees, entry.value);
        trees := trees + [entry.value];
        entries := Insert(entries, Entry(key.u, value));
        i := i + 1;
      }
      return Ok(entries);
    }
  }

  lemma NothingSorted()
    ensures SortEntries(SortValues([])) == []
  {
  }

  lemma SortedKeys(entries: seq<Entry>, key: u64)
    ensures HasKey(SortEntries(SortValues(entries)), key) == HasKey(entries, key)
  {
    SortEntriesAscends(SortValues(entries));
    if HasKey(entries, key) {
      var i :| 0 <= i < |entries| && entries[i].key == key;
      assert SortValues(entries)[i].key == key;
    }
  }

  lemma InsertNext(entries: seq<Entry>, entry: Entry)
    ensures SortEntries(SortValues(entries + [entry])) == Insert(SortEntries(SortValues(entries)), SortEntry(entry))
  {
    var all := SortValues(entries + [entry]);
    assert all[..|all| - 1] == SortValues(entries);
  }

  /** `Value::decode`. */
  method DecodeWhole(bytes: seq<byte>) returns (r: Result<Value, CborError>)
    ensures r == match Decode(bytes) case Done(value, _) => Ok(value) case Fail(error) => Err(error)
  {
    var cursor := new Cursor(bytes);
    var value :- cursor.DecodeValue();
    if cursor.position != |bytes| {
      return Err(TrailingBytes);
    }
    return Ok(value);
  }
}
