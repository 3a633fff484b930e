/** CBOR data items as trees.  A map is a list of entries: a Rust `BTreeMap<u64, Value>` is a list
    with ascending keys, and the list a reader meets on the wire may come in any order. */
module CborValue {
  import opened Bytes
  import opened Wrappers
  import Utf8

  datatype Value =
    | Null
    | Bool(b: bool)
    | U64(u: u64)
    | I64(i: i64)
    | F64(bits: u64)
    | Bytes(bytes: seq<byte>)
    | Text(utf8: seq<byte>)
    | Array(items: seq<Value>)
    | Map(entries: seq<Entry>)

  datatype Entry = Entry(key: u64, value: Value)

  // ---------- maps as entry lists ----------

  predicate HasKey(entries: seq<Entry>, key: u64) {
    exists i | 0 <= i < |entries| :: entries[i].key == key
  }

  ghost predicate Distinct(entries: seq<Entry>) {
    forall i, j | 0 <= i < j < |entries| :: entries[i].key != entries[j].key
  }

  ghost predicate KeysAscend(entries: seq<Entry>) {
    forall i, j | 0 <= i < j < |entries| :: entries[i].key < entries[j].key
  }

  /** The position of `key`, or the number of entries when it is absent. */
  function FindKey(entries: seq<Entry>, key: u64): (i: nat)
    ensures i <= |entries|
    ensures i < |entries| ==> entries[i].key == key
    ensures forall j | 0 <= j < i :: entries[j].key != key
  {
    if entries == [] || entries[0].key == key then 0 else 1 + FindKey(entries[1..], key)
  }

  /** `BTreeMap::insert`: replaces the entry with the same key, otherwise keeps key order. */
  function Insert(entries: seq<Entry>, entry: Entry): (r: seq<Entry>)
  {
    if entries == [] || entry.key < entries[0].key then [entry] + entries
    else if entry.key == entries[0].key then [entry] + entries[1..]
    else [entries[0]] + Insert(entries[1..], entry)
  }

  /** Inserting the entries one after the other into an empty map. */
  function SortEntries(entries: seq<Entry>): (r: seq<Entry>)
  {
    if entries == [] then [] else Insert(SortEntries(entries[..|entries| - 1]), entries[|entries| - 1])
  }

  lemma {:induction false} InsertMembers(entries: seq<Entry>, entry: Entry)
    requires !HasKey(entries, entry.key)
    ensures forall e :: e in Insert(entries, entry) <==> e == entry || e in entries
    ensures |Insert(entries, entry)| == |entries| + 1
  {
    if entries != [] && entry.key > entries[0].key {
      assert forall i | 0 <= i < |entries[1..]| :: entries[1..][i] == entries[i + 1];
      InsertMembers(entries[1..], entry);
      assert entries == [entries[0]] + entries[1..];
    } else if entries != [] {
      assert entries[0].key != entry.key;
    }
  }

  lemma {:induction false} InsertAscends(entries: seq<Entry>, entry: Entry)
    requires KeysAscend(entries)
    ensures KeysAscend(Insert(entries, entry))
    ensures forall k :: HasKey(Insert(entries, entry), k) <==> k == entry.key || HasKey(entries, k)
  {
    HasKeyOne(entry);
    HasKeyConcat([entry], entries);
    if entries != [] && entry.key >= entries[0].key {
      var rest := Insert(entries[1..], entry);
      HasKeyOne(entries[0]);
      HasKeyConcat([entries[0]], rest);
      HasKeyConcat([entries[0]], entries[1..]);
      HasKeyConcat([entry], entries[1..]);
      assert [entries[0]] + entries[1..] == entries;
      if entry.key > entries[0].key {
        InsertAscends(entries[1..], entry);
        forall i | 0 <= i < |rest|
          ensures entries[0].key < rest[i].key
        {
          assert HasKey(rest, rest[i].key);
        }
      }
    }
  }

  lemma HasKeyOne(entry: Entry)
    ensures forall k :: HasKey([entry], k) <==> k == entry.key
  {
    assert [entry][0] == entry;
  }

  lemma HasKeyConcat(a: seq<Entry>, b: seq<Entry>)
    ensures forall k :: HasKey(a + b, k) <==> HasKey(a, k) || HasKey(b, k)
  {
    forall k
      ensures HasKey(a + b, k) <==> HasKey(a, k) || HasKey(b, k)
    {
      if HasKey(b, k) {
        var i :| 0 <= i < |b| && b[i].key == k;
        assert (a + b)[|a| + i].key == k;
      }
      if HasKey(a, k) {
        var i :| 0 <= i < |a| && a[i].key == k;
        assert (a + b)[i].key == k;
      }
    }
  }

  lemma {:induction false} SortEntriesAscends(entries: seq<Entry>)
    ensures KeysAscend(SortEntries(entries))
    ensures forall k :: HasKey(SortEntries(entries), k) <==> HasKey(entries, k)
  {
    if entries != [] {
      var front, last := entries[..|entries| - 1], entries[|entries| - 1];
      SortEntriesAscends(front);
      InsertAscends(SortEntries(front), last);
      HasKeyConcat(front, [last]);
      HasKeyOne(last);
      assert front + [last] == entries;
    }
  }

  lemma {:induction false} SortEntriesMembers(entries: seq<Entry>)
    requires Distinct(entries)
    ensures forall e :: e in SortEntries(entries) <==> e in entries
    ensures |SortEntries(entries)| == |entries|
  {
    if entries != [] {
      var front, last := entries[..|entries| - 1], entries[|entries| - 1];
      SortEntriesMembers(front);
      SortEntriesAscends(front);
      InsertMembers(SortEntries(front), last);
      assert entries == front + [last];
    }
  }

  lemma {:induction false} InsertAtEnd(entries: seq<Entry>, entry: Entry)
    requires forall i | 0 <= i < |entries| :: entries[i].key < entry.key
    ensures Insert(entries, entry) == entries + [entry]
  {
    if entries != [] {
      InsertAtEnd(entries[1..], entry);
    }
  }

  lemma {:induction false} SortOfAscending(entries: seq<Entry>)
    requires KeysAscend(entries)
    ensures SortEntries(entries) == entries
  {
    if entries != [] {
      SortOfAscending(entries[..|entries| - 1]);
      InsertAtEnd(entries[..|entries| - 1], entries[|entries| - 1]);
    }
  }

  /** `BTreeMap::get` and `Map.get`. */
  function Get(entries: seq<Entry>, key: u64): (r: Option<Value>)
  {
    var i := FindKey(entries, key);
    if i < |entries| then Some(entries[i].value) else None
  }

  lemma GetStep(entries: seq<Entry>, key: u64)
    requires entries != []
    ensures Get(entries, key) == if entries[0].key == key then Some(entries[0].value) else Get(entries[1..], key)
  {
  }

  lemma {:induction false} GetAfterInsert(entries: seq<Entry>, entry: Entry, key: u64)
    ensures Get(Insert(entries, entry), key) == if key == entry.key then Some(entry.value) else Get(entries, key)
  {
    hide Get;
    GetStep(Insert(entries, entry), key);
    if entries != [] {
      GetStep(entries, key);
      if entry.key > entries[0].key {
        GetAfterInsert(entries[1..], entry, key);
        assert Insert(entries, entry)[1..] == Insert(entries[1..], entry);
      } else {
        assert Insert(entries, entry)[1..] == if entry.key == entries[0].key then entries[1..] else entries;
      }
    } else {
      assert Insert(entries, entry)[1..] == entries;
    }
  }

  // ---------- whole trees ----------

  /** Every value a Rust program can hold, except that map entries may be in any order. */
  ghost predicate Fits(v: Value) {
    match v
    case Bytes(bytes) => |bytes| <= U64_MAX
    case Text(utf8) => |utf8| <= U64_MAX && Utf8.Valid(utf8)
    case Array(items) => |items| <= U64_MAX && FitsItems(items)
    case Map(entries) => |entries| <= U64_MAX && Distinct(entries) && FitsEntries(entries)
    case _ => true
  }

  ghost predicate FitsItems(items: seq<Value>) {
    forall i | 0 <= i < |items| :: Fits(items[i])
  }

  ghost predicate FitsEntries(entries: seq<Entry>) {
    forall i | 0 <= i < |entries| :: FitsEntry(entries[i])
  }

  ghost predicate FitsEntry(entry: Entry) {
    Fits(entry.value)
  }

  /** Every map lists its keys in ascending order. */
  ghost predicate Ascending(v: Value) {
    match v
    case Array(items) => forall i | 0 <= i < |items| :: Ascending(items[i])
    case Map(entries) => KeysAscend(entries) && forall i | 0 <= i < |entries| :: Ascending(entries[i].value)
    case _ => true
  }

  /** A value of the Rust type `Value`. */
  ghost predicate RustValue(v: Value) {
    Fits(v) && Ascending(v)
  }

  /** Puts the entries of every map in key order. */
  function Sort(v: Value): (r: Value)
  {
    match v
    case Array(items) => Array(SortItems(items))
    case Map(entries) => Map(SortEntries(SortValues(entries)))
    case _ => v
  }

  function SortItems(items: seq<Value>): (r: seq<Value>)
    ensures |r| == |items|
    ensures forall i | 0 <= i < |items| :: r[i] == Sort(items[i])
  {
    seq(|items|, i requires 0 <= i < |items| => Sort(items[i]))
  }

  function SortEntry(entry: Entry): (r: Entry)
  {
    Entry(entry.key, Sort(entry.value))
  }

  function SortValues(entries: seq<Entry>): (r: seq<Entry>)
    ensures |r| == |entries|
    ensures forall i | 0 <= i < |entries| :: r[i] == SortEntry(entries[i])
  {
    seq(|entries|, i requires 0 <= i < |entries| => SortEntry(entries[i]))
  }

  lemma {:induction false} SortAscends(v: Value)
    requires Fits(v)
    ensures Ascending(Sort(v)) && Fits(Sort(v))
  {
    match v
    case Array(items) =>
      forall i | 0 <= i < |items|
        ensures Ascending(Sort(items[i])) && Fits(Sort(items[i]))
      {
        SortAscends(items[i]);
      }
    case Map(entries) =>
      var values := SortValues(entries);
      SortEntriesAscends(values);
      SortEntriesMembers(values);
      forall e | e in SortEntries(values)
        ensures Ascending(e.value) && Fits(e.value)
      {
        var i :| 0 <= i < |values| && values[i] == e;
        assert FitsEntry(entries[i]);
        SortAscends(entries[i].value);
      }
    case _ =>
  }

  /** Sorting changes exactly the trees that have a map out of order. */
  lemma {:induction false} SortFixesExactlyAscending(v: Value)
    requires Fits(v)
    ensures Sort(v) == v <==> Ascending(v)
  {
    if Sort(v) == v {
      SortAscends(v);
    }
    if Ascending(v) {
      match v
      case Array(items) =>
        forall i | 0 <= i < |items|
          ensures Sort(items[i]) == items[i]
        {
          SortFixesExactlyAscending(items[i]);
        }
        assert SortItems(items) == items;
      case Map(entries) =>
        forall i | 0 <= i < |entries|
          ensures Sort(entries[i].value) == entries[i].value
        {
          assert FitsEntry(entries[i]);
          SortFixesExactlyAscending(entries[i].value);
        }
        assert SortValues(entries) == entries;
        SortOfAscending(entries);
      case _ =>
    }
  }
}
