/** What the decoders accept, as a grammar that says nothing about how to read: which bytes spell which item. */
module CborGrammar {
  import opened Bytes
  import opened CborValue
  import opened Cbor
  import opened CborLaws
  import opened CborFormat
  import opened Wrappers
  import Utf8
  import Utf8Laws

  /** A head of this major type and number.  Rust wants the shortest there is, TypeScript a safe number. */
  ghost predicate HeadAt(d: Dialect, bytes: seq<byte>, from: nat, end: nat, major: nat, n: int) {
    && from < end <= |bytes| && HeadSpells(bytes[from..end], major, n)
    && match d
       case Rust => forall head | HeadSpells(head, major, n) :: end - from <= |head|
       case Js => n <= MAX_SAFE
  }

  /** The text that the content spells: TypeScript drops a byte-order mark in front. */
  ghost predicate TextOf(d: Dialect, content: seq<byte>, utf8: seq<byte>) {
    && (exists scalars :: Utf8Laws.EncodeAll(scalars) == content)
    && content == if d.Js? && BOM <= content then BOM + utf8 else utf8
  }

  /** The bytes between the two positions spell the item. */
  ghost predicate Spells(d: Dialect, bytes: seq<byte>, from: nat, end: nat, v: Value)
    requires from < end <= |bytes|
    decreases v, 1
  {
    match v
    case Null => end == from + 1 && bytes[from] == 0xF6
    case Bool(b) => end == from + 1 && bytes[from] == if b then 0xF5 else 0xF4
    case F64(bits) =>
      && end == from + 9 && bytes[from] == 0xFB && FromBe(bytes[from + 1..end]) == bits
      && (d.Js? ==> bits % 0x8000_0000_0000_0000 < 0x7FF0_0000_0000_0000)
    case U64(u) => HeadAt(d, bytes, from, end, 0, u)
    case I64(i) => i < 0 && HeadAt(d, bytes, from, end, 1, -1 - i) && (d.Js? ==> -MAX_SAFE <= i)
    case Bytes(content) =>
      exists mid: nat | from < mid <= end :: HeadAt(d, bytes, from, mid, 2, |content|) && bytes[mid..end] == content
    case Text(utf8) =>
      exists mid: nat | from < mid <= end :: HeadAt(d, bytes, from, mid, 3, end - mid) && TextOf(d, bytes[mid..end], utf8)
    case Array(items) =>
      && (d.Js? ==> |items| <= MAX_ARRAY)
      && exists mid: nat | from < mid <= end ::
           HeadAt(d, bytes, from, mid, 4, |items|) && SpellItems(d, bytes, mid, end, items)
    case Map(entries) =>
      && Distinct(entries)
      && exists mid: nat | from < mid <= end ::
           HeadAt(d, bytes, from, mid, 5, |entries|) && SpellEntries(d, bytes, mid, end, entries)
  }

  ghost predicate SpellItems(d: Dialect, bytes: seq<byte>, from: nat, end: nat, items: seq<Value>)
    requires from <= end <= |bytes|
    decreases items, 0
  {
    if items == [] then from == end
    else exists mid: nat | from < mid <= end ::
      Spells(d, bytes, from, mid, items[0]) && SpellItems(d, bytes, mid, end, items[1..])
  }

  ghost predicate SpellEntries(d: Dialect, bytes: seq<byte>, from: nat, end: nat, entries: seq<Entry>)
    requires from <= end <= |bytes|
    decreases entries, 0
  {
    if entries == [] then from == end
    else exists mid: nat | from < mid <= end ::
      SpellsEntry(d, bytes, from, mid, entries[0]) && SpellEntries(d, bytes, mid, end, entries[1..])
  }

  /** A key is an unsigned integer. */
  ghost predicate SpellsEntry(d: Dialect, bytes: seq<byte>, from: nat, end: nat, entry: Entry)
    requires from < end <= |bytes|
    decreases entry, 0
  {
    exists mid: nat | from < mid < end ::
      HeadAt(d, bytes, from, mid, 0, entry.key) && Spells(d, bytes, mid, end, entry.value)
  }

  // ---------- heads ----------

  lemma SpelledNumberFits(head: seq<byte>, major: nat, n: int)
    requires HeadSpells(head, major, n)
    ensures |head| in {1, 2, 3, 5, 9}
    ensures 0 <= n <= match |head| case 1 => 23 case 2 => 0xFF case 3 => 0xFFFF case 5 => 0xFFFF_FFFF case _ => U64_MAX
  {
    Capacities();
    ToBeOfFromBe(head[1..]);
    hide ToBe, FromBe, Capacity;
  }

  lemma ShortHead(d: Dialect, bytes: seq<byte>, from: nat, end: nat, n: u64)
    requires from < |bytes| && bytes[from] % 32 < 24
    ensures Argument(d, bytes[from] % 32, bytes, from + 1) == Done(n, end) <==>
      HeadAt(d, bytes, from, end, bytes[from] / 32, n)
  {
    if from < end <= |bytes| {
      assert bytes[from..end][0] == bytes[from];
    }
    hide FromBe;
  }

  lemma WideHead(d: Dialect, bytes: seq<byte>, from: nat, end: nat, n: u64)
    requires from < |bytes| && 24 <= bytes[from] % 32 <= 27
    requires end == from + 1 + Width(bytes[from] % 32) <= |bytes| && n == FromBe(bytes[from + 1..end])
    ensures HeadSpells(bytes[from..end], bytes[from] / 32, n)
    ensures n <= LargestShorter(bytes[from] % 32) <==>
      exists head :: HeadSpells(head, bytes[from] / 32, n) && |head| < end - from
  {
    hide FromBe;
    assert bytes[from..end][0] == bytes[from] && bytes[from..end][1..] == bytes[from + 1..end];
    var major := bytes[from] / 32;
    if n <= LargestShorter(bytes[from] % 32) {
      HeadIsSpelled(major, n);
      SpelledNumberFits(Head(major, n), major, n);
      LengthOfHead(major, n);
      assert |Head(major, n)| < end - from;
    }
    if head :| HeadSpells(head, major, n) && |head| < end - from {
      SpelledNumberFits(head, major, n);
    }
  }

  lemma LengthOfHead(major: nat, n: u64)
    requires major < 8
    ensures |Head(major, n)| == if n < 24 then 1 else if n <= 0xFF then 2 else if n <= 0xFFFF then 3
                                else if n <= 0xFFFF_FFFF then 5 else 9
  {
    hide ToBe;
  }

  /** The head that is read is the one in the grammar. */
  lemma HeadIsTaken(d: Dialect, bytes: seq<byte>, from: nat, end: nat, n: u64)
    requires from < |bytes|
    ensures Argument(d, bytes[from] % 32, bytes, from + 1) == Done(n, end) <==>
      HeadAt(d, bytes, from, end, bytes[from] / 32, n)
  {
    var info := bytes[from] % 32;
    if info < 24 {
      ShortHead(d, bytes, from, end, n);
    } else if info <= 27 {
      hide FromBe;
      if from < end <= |bytes| {
        assert bytes[from..end][0] == bytes[from] && bytes[from..end][1..] == bytes[from + 1..end];
      }
      if end == from + 1 + Width(info) <= |bytes| && n == FromBe(bytes[from + 1..end]) {
        WideHead(d, bytes, from, end, n);
      }
    } else {
      if from < end <= |bytes| {
        assert bytes[from..end][0] == bytes[from];
      }
    }
  }

  // ---------- items ----------

  lemma {:induction false} ItemsAreCounted(d: Dialect, bytes: seq<byte>, pos: nat, count: nat, acc: seq<Value>)
    requires pos <= |bytes| && ParseItems(d, bytes, pos, count, acc).Done?
    ensures var r := ParseItems(d, bytes, pos, count, acc).value; |r| == |acc| + count && acc <= r
    decreases count
  {
    hide Parse;
    if count > 0 {
      var item := Parse(d, bytes, pos);
      ItemsAreCounted(d, bytes, item.next, count - 1, acc + [item.value]);
    }
  }

  lemma {:induction false} EntriesAreCounted(d: Dialect, bytes: seq<byte>, pos: nat, count: nat, acc: seq<Entry>)
    requires pos <= |bytes| && ParseEntries(d, bytes, pos, count, acc).Done?
    ensures var r := ParseEntries(d, bytes, pos, count, acc).value; |r| == |acc| + count && acc <= r
    decreases count
  {
    hide ParseEntry;
    if count > 0 {
      var entry := ParseEntry(d, bytes, pos, acc);
      EntriesAreCounted(d, bytes, entry.next, count - 1, acc + [entry.value]);
    }
  }

  lemma FirstItemEnds(d: Dialect, bytes: seq<byte>, from: nat, end: nat, items: seq<Value>) returns (mid: nat)
    requires from <= end <= |bytes| && items != [] && SpellItems(d, bytes, from, end, items)
    ensures from < mid <= end && Spells(d, bytes, from, mid, items[0]) && SpellItems(d, bytes, mid, end, items[1..])
  {
    mid :| from < mid <= end && Spells(d, bytes, from, mid, items[0]) && SpellItems(d, bytes, mid, end, items[1..]);
  }

  lemma FirstEntryEnds(d: Dialect, bytes: seq<byte>, from: nat, end: nat, entries: seq<Entry>) returns (mid: nat)
    requires from <= end <= |bytes| && entries != [] && SpellEntries(d, bytes, from, end, entries)
    ensures from < mid <= end && SpellsEntry(d, bytes, from, mid, entries[0])
    ensures SpellEntries(d, bytes, mid, end, entries[1..])
  {
    mid :| from < mid <= end && SpellsEntry(d, bytes, from, mid, entries[0])
           && SpellEntries(d, bytes, mid, end, entries[1..]);
  }

  lemma {:induction false} ItemsAreSpelled(d: Dialect, bytes: seq<byte>, from: nat, end: nat, items: seq<Value>,
                                           acc: seq<Value>)
    requires from <= end <= |bytes|
    ensures ParseItems(d, bytes, from, |items|, acc) == Done(acc + items, end) <==> SpellItems(d, bytes, from, end, items)
    decreases end - from, 2
  {
    hide Parse, Spells;
    if items == [] {
      assert acc + items == acc;
    } else {
      var all := acc + items;
      var one := acc + [items[0]];
      assert one + items[1..] == all;
      if ParseItems(d, bytes, from, |items|, acc) == Done(all, end) {
        var item := Parse(d, bytes, from);
        ItemsAreCounted(d, bytes, item.next, |items| - 1, acc + [item.value]);
        assert (acc + [item.value])[|acc|] == all[|acc|] == items[0];
        ItemIsSpelled(d, bytes, from, item.next, items[0]);
        ItemsAreSpelled(d, bytes, item.next, end, items[1..], one);
      }
      if SpellItems(d, bytes, from, end, items) {
        var mid := FirstItemEnds(d, bytes, from, end, items);
        ItemIsSpelled(d, bytes, from, mid, items[0]);
        ItemsAreSpelled(d, bytes, mid, end, items[1..], one);
      }
    }
  }

  lemma {:induction false} EntriesAreSpelled(d: Dialect, bytes: seq<byte>, from: nat, end: nat, entries: seq<Entry>,
                                             acc: seq<Entry>)
    requires from <= end <= |bytes| && Distinct(acc)
    ensures ParseEntries(d, bytes, from, |entries|, acc) == Done(acc + entries, end) <==>
      SpellEntries(d, bytes, from, end, entries) && Distinct(acc + entries)
    decreases end - from, 3
  {
    hide ParseEntry, SpellsEntry, Distinct;
    if entries == [] {
      assert acc + entries == acc;
    } else {
      var all := acc + entries;
      var one := acc + [entries[0]];
      assert one + entries[1..] == all;
      KeysStayDistinct(acc, entries);
      if ParseEntries(d, bytes, from, |entries|, acc) == Done(all, end) {
        var entry := ParseEntry(d, bytes, from, acc);
        EntriesAreCounted(d, bytes, entry.next, |entries| - 1, acc + [entry.value]);
        assert (acc + [entry.value])[|acc|] == all[|acc|] == entries[0];
        EntryIsSpelled(d, bytes, from, entry.next, entries[0], acc);
        EntriesAreSpelled(d, bytes, entry.next, end, entries[1..], one);
      }
      if SpellEntries(d, bytes, from, end, entries) && Distinct(all) {
        var mid := FirstEntryEnds(d, bytes, from, end, entries);
        EntryIsSpelled(d, bytes, from, mid, entries[0], acc);
        EntriesAreSpelled(d, bytes, mid, end, entries[1..], one);
      }
    }
  }

  lemma KeysStayDistinct(acc: seq<Entry>, entries: seq<Entry>)
    requires entries != [] && Distinct(acc)
    ensures Distinct(acc + [entries[0]]) <==> !HasKey(acc, entries[0].key)
    ensures Distinct(acc + entries) ==> !HasKey(acc, entries[0].key)
  {
    var one, all := acc + [entries[0]], acc + entries;
    assert all[|acc|] == one[|acc|] == entries[0];
    assert forall i | 0 <= i < |acc| :: all[i] == one[i] == acc[i];
  }

  lemma {:induction false} EntryIsSpelled(d: Dialect, bytes: seq<byte>, from: nat, end: nat, entry: Entry, acc: seq<Entry>)
    requires from < end <= |bytes|
    ensures ParseEntry(d, bytes, from, acc) == Done(entry, end) <==>
      SpellsEntry(d, bytes, from, end, entry) && !HasKey(acc, entry.key)
    decreases end - from, 2
  {
    hide Parse, HeadAt;
    var key := Parse(d, bytes, from);
    if ParseEntry(d, bytes, from, acc) == Done(entry, end) {
      ItemIsSpelled(d, bytes, from, key.next, key.value);
      ItemIsSpelled(d, bytes, key.next, end, entry.value);
    }
    if SpellsEntry(d, bytes, from, end, entry) && !HasKey(acc, entry.key) {
      var mid: nat :| from < mid < end && HeadAt(d, bytes, from, mid, 0, entry.key)
                      && Spells(d, bytes, mid, end, entry.value);
      ItemIsSpelled(d, bytes, from, mid, U64(entry.key));
      ItemIsSpelled(d, bytes, mid, end, entry.value);
    }
  }

  // ---------- whole items ----------

  lemma HeadTellsMajor(d: Dialect, bytes: seq<byte>, from: nat, end: nat, v: Value)
    requires from < end <= |bytes| && Spells(d, bytes, from, end, v)
    ensures bytes[from] / 32 == MajorType(v) && (v.I64? ==> v.i < 0)
  {
    forall mid: nat, major: nat, n | HeadAt(d, bytes, from, mid, major, n) ensures bytes[from] / 32 == major {
      assert bytes[from..mid][0] == bytes[from];
    }
    hide HeadAt, SpellItems, SpellEntries, TextOf, FromBe;
  }

  lemma ParseTellsMajor(d: Dialect, bytes: seq<byte>, from: nat, v: Value)
    requires from < |bytes| && Parse(d, bytes, from).Done? && Parse(d, bytes, from).value == v
    ensures bytes[from] / 32 == MajorType(v) && (v.I64? ==> v.i < 0)
  {
    hide Argument, ParseItems, ParseEntries, FromBe, Utf8.Valid;
  }

  lemma SimpleIsSpelled(d: Dialect, bytes: seq<byte>, from: nat, end: nat, v: Value)
    requires from < end <= |bytes| && bytes[from] / 32 == 7 && MajorType(v) == 7
    ensures Parse(d, bytes, from) == Done(v, end) <==> Spells(d, bytes, from, end, v)
  {
    ParseSimpleAt(d, bytes, from);
    hide Parse, FromBe, Finite;
    if bytes[from] == 0xFB && from + 9 <= |bytes| {
      var raw := bytes[from + 1..from + 9];
      ToBeOfFromBe(raw);
      Capacities();
      FiniteIsBelowInfinity(FromBe(raw));
    }
  }

  lemma IntegerIsSpelled(d: Dialect, bytes: seq<byte>, from: nat, end: nat, v: Value)
    requires from < end <= |bytes| && bytes[from] / 32 == MajorType(v) && (v.U64? || (v.I64? && v.i < 0))
    ensures Parse(d, bytes, from) == Done(v, end) <==> Spells(d, bytes, from, end, v)
  {
    ParseSplits(d, bytes, from);
    HeadIsTaken(d, bytes, from, end, if v.U64? then v.u else -1 - v.i);
    hide Parse, Argument, HeadAt;
  }

  /** A head is read in one way only. */
  lemma HeadsAreTaken(d: Dialect, bytes: seq<byte>, from: nat)
    requires from < |bytes|
    ensures
      var arg := Argument(d, bytes[from] % 32, bytes, from + 1);
      && (arg.Done? ==> HeadAt(d, bytes, from, arg.next, bytes[from] / 32, arg.value))
      && forall mid: nat, n :: HeadAt(d, bytes, from, mid, bytes[from] / 32, n) ==> arg == Done(n, mid)
  {
    var arg := Argument(d, bytes[from] % 32, bytes, from + 1);
    if arg.Done? {
      HeadIsTaken(d, bytes, from, arg.next, arg.value);
    }
    forall mid: nat, n | HeadAt(d, bytes, from, mid, bytes[from] / 32, n) ensures arg == Done(n, mid) {
      SpelledNumberFits(bytes[from..mid], bytes[from] / 32, n);
      HeadIsTaken(d, bytes, from, mid, n);
    }
  }

  lemma BytesBehindHead(d: Dialect, bytes: seq<byte>, mid: nat, end: nat, n: u64, content: seq<byte>)
    requires mid <= end <= |bytes|
    ensures ParseContent(d, 2, n, bytes, mid) == Done(Bytes(content), end) <==>
      end == mid + n && bytes[mid..end] == content
  {
    hide Utf8.Valid, StripBom, ParseItems, ParseEntries;
  }

  lemma BytesAreSpelled(d: Dialect, bytes: seq<byte>, from: nat, end: nat, content: seq<byte>)
    requires from < end <= |bytes| && bytes[from] / 32 == 2
    ensures Parse(d, bytes, from) == Done(Bytes(content), end) <==> Spells(d, bytes, from, end, Bytes(content))
  {
    ParseSplits(d, bytes, from);
    HeadsAreTaken(d, bytes, from);
    hide Parse, Argument, HeadAt, ParseContent, SpellItems, SpellEntries, TextOf;
    var arg := Argument(d, bytes[from] % 32, bytes, from + 1);
    if arg.Done? && arg.next <= end {
      BytesBehindHead(d, bytes, arg.next, end, arg.value, content);
    }
  }

  lemma BomComesOff(d: Dialect, content: seq<byte>, utf8: seq<byte>)
    ensures TextOf(d, content, utf8) <==> Utf8.Valid(content) && utf8 == StripBom(d, content)
  {
    if TextOf(d, content, utf8) {
      var scalars :| Utf8Laws.EncodeAll(scalars) == content;
      Utf8Laws.ScalarsOfEncodeAll(scalars);
    }
    if Utf8.Valid(content) {
      Utf8Laws.EncodeAllOfScalars(content);
    }
    hide Utf8.Valid;
    if BOM <= content {
      assert content == BOM + content[3..];
      assert BOM + utf8 == content ==> utf8 == content[3..];
    }
  }

  lemma TextBehindHead(d: Dialect, bytes: seq<byte>, mid: nat, end: nat, n: u64, utf8: seq<byte>)
    requires mid <= end <= |bytes|
    ensures ParseContent(d, 3, n, bytes, mid) == Done(Text(utf8), end) <==>
      end == mid + n && TextOf(d, bytes[mid..end], utf8)
  {
    hide Utf8.Valid, StripBom, TextOf, ParseItems, ParseEntries;
    if end == mid + n {
      BomComesOff(d, bytes[mid..end], utf8);
    }
  }

  lemma TextIsSpelled(d: Dialect, bytes: seq<byte>, from: nat, end: nat, utf8: seq<byte>)
    requires from < end <= |bytes| && bytes[from] / 32 == 3
    ensures Parse(d, bytes, from) == Done(Text(utf8), end) <==> Spells(d, bytes, from, end, Text(utf8))
  {
    ParseSplits(d, bytes, from);
    HeadsAreTaken(d, bytes, from);
    hide Parse, Argument, HeadAt, ParseContent, SpellItems, SpellEntries, TextOf;
    var arg := Argument(d, bytes[from] % 32, bytes, from + 1);
    if arg.Done? && arg.next <= end {
      TextBehindHead(d, bytes, arg.next, end, arg.value, utf8);
    }
  }

  lemma {:induction false} ArrayBehindHead(d: Dialect, bytes: seq<byte>, mid: nat, end: nat, n: u64, items: seq<Value>)
    requires mid <= end <= |bytes|
    ensures ParseContent(d, 4, n, bytes, mid) == Done(Array(items), end) <==>
      (d.Js? ==> n <= MAX_ARRAY) && n == |items| && SpellItems(d, bytes, mid, end, items)
    decreases end - mid, 3
  {
    hide SpellItems, ParseItems, ParseEntries, Parse, Utf8.Valid, StripBom;
    ItemsAreSpelled(d, bytes, mid, end, items, []);
    assert [] + items == items;
    if ParseItems(d, bytes, mid, n, []).Done? {
      ItemsAreCounted(d, bytes, mid, n, []);
    }
  }

  lemma {:induction false} ArrayIsSpelled(d: Dialect, bytes: seq<byte>, from: nat, end: nat, items: seq<Value>)
    requires from < end <= |bytes| && bytes[from] / 32 == 4
    ensures Parse(d, bytes, from) == Done(Array(items), end) <==> Spells(d, bytes, from, end, Array(items))
    decreases end - from, 0
  {
    ParseSplits(d, bytes, from);
    HeadsAreTaken(d, bytes, from);
    hide Parse, Argument, HeadAt, SpellItems, ParseContent, TextOf;
    var arg := Argument(d, bytes[from] % 32, bytes, from + 1);
    if arg.Done? && arg.next <= end {
      ArrayBehindHead(d, bytes, arg.next, end, arg.value, items);
    }
  }

  lemma {:induction false} MapBehindHead(d: Dialect, bytes: seq<byte>, mid: nat, end: nat, n: u64, entries: seq<Entry>)
    requires mid <= end <= |bytes|
    ensures ParseContent(d, 5, n, bytes, mid) == Done(Map(entries), end) <==>
      n == |entries| && Distinct(entries) && SpellEntries(d, bytes, mid, end, entries)
    decreases end - mid, 4
  {
    hide SpellEntries, ParseItems, ParseEntries, Parse, Utf8.Valid, StripBom;
    EntriesAreSpelled(d, bytes, mid, end, entries, []);
    assert [] + entries == entries;
    if ParseEntries(d, bytes, mid, n, []).Done? {
      EntriesAreCounted(d, bytes, mid, n, []);
    }
  }

  lemma {:induction false} MapIsSpelled(d: Dialect, bytes: seq<byte>, from: nat, end: nat, entries: seq<Entry>)
    requires from < end <= |bytes| && bytes[from] / 32 == 5
    ensures Parse(d, bytes, from) == Done(Map(entries), end) <==> Spells(d, bytes, from, end, Map(entries))
    decreases end - from, 0
  {
    ParseSplits(d, bytes, from);
    HeadsAreTaken(d, bytes, from);
    hide Parse, Argument, HeadAt, SpellEntries, ParseContent, TextOf, Distinct;
    var arg := Argument(d, bytes[from] % 32, bytes, from + 1);
    if arg.Done? && arg.next <= end {
      MapBehindHead(d, bytes, arg.next, end, arg.value, entries);
    }
  }

  /** In either language the bytes between two positions are read as an item exactly if they spell it. */
  lemma {:induction false} ItemIsSpelled(d: Dialect, bytes: seq<byte>, from: nat, end: nat, v: Value)
    requires from < end <= |bytes|
    ensures Parse(d, bytes, from) == Done(v, end) <==> Spells(d, bytes, from, end, v)
    decreases end - from, 1
  {
    hide Parse, Spells;
    if Parse(d, bytes, from) == Done(v, end) {
      ParseTellsMajor(d, bytes, from, v);
    }
    if Spells(d, bytes, from, end, v) {
      HeadTellsMajor(d, bytes, from, end, v);
    }
    if bytes[from] / 32 == MajorType(v) && (v.I64? ==> v.i < 0) {
      match v
      case U64(_) => IntegerIsSpelled(d, bytes, from, end, v);
      case I64(_) => IntegerIsSpelled(d, bytes, from, end, v);
      case Bytes(content) => BytesAreSpelled(d, bytes, from, end, content);
      case Text(utf8) => TextIsSpelled(d, bytes, from, end, utf8);
      case Array(items) => ArrayIsSpelled(d, bytes, from, end, items);
      case Map(entries) => MapIsSpelled(d, bytes, from, end, entries);
      case _ => SimpleIsSpelled(d, bytes, from, end, v);
    }
  }

  // ---------- a whole input ----------

  /** `r` is `v` with the entries of every map in ascending order of their keys. */
  ghost predicate SameInOrder(v: Value, r: Value)
    decreases v, 1
  {
    match v
    case Array(items) =>
      r.Array? && |r.items| == |items| && forall i | 0 <= i < |items| :: SameInOrder(items[i], r.items[i])
    case Map(entries) =>
      && r.Map? && |r.entries| == |entries| && KeysAscend(r.entries)
      && forall i | 0 <= i < |entries| :: exists j | 0 <= j < |r.entries| :: SameEntry(entries[i], r.entries[j])
    case _ => r == v
  }

  ghost predicate SameEntry(entry: Entry, r: Entry)
    decreases entry, 0
  {
    entry.key == r.key && SameInOrder(entry.value, r.value)
  }

  lemma {:induction false} SortIsSameInOrder(v: Value)
    requires Fits(v)
    ensures SameInOrder(v, Sort(v))
  {
    match v
    case Array(items) =>
      forall i | 0 <= i < |items| ensures SameInOrder(items[i], Sort(items[i])) {
        SortIsSameInOrder(items[i]);
      }
    case Map(entries) =>
      var values := SortValues(entries);
      SortEntriesAscends(values);
      SortEntriesMembers(values);
      forall i | 0 <= i < |entries|
        ensures exists j | 0 <= j < |SortEntries(values)| :: SameEntry(entries[i], SortEntries(values)[j])
      {
        assert FitsEntry(entries[i]);
        SortIsSameInOrder(entries[i].value);
        assert values[i] in SortEntries(values);
        var j :| 0 <= j < |SortEntries(values)| && SortEntries(values)[j] == values[i];
        assert SameEntry(entries[i], SortEntries(values)[j]);
      }
    case _ =>
  }

  /** The whole input is decoded exactly if it spells an item, to that item with its maps in order; bytes behind
      an item are an error. */
  lemma WholeInputIsSpelled(bytes: seq<byte>, v: Value, n: nat)
    requires 0 < n <= |bytes| && Spells(Rust, bytes, 0, n, v)
    ensures
      if n < |bytes| then Decode(bytes) == Fail(TrailingBytes)
      else Decode(bytes).Done? && Decode(bytes).next == n && SameInOrder(v, Decode(bytes).value)
  {
    hide Parse, Spells, SameInOrder, Sort;
    ItemIsSpelled(Rust, bytes, 0, n, v);
    PrintParsed(bytes, 0);
    SortIsSameInOrder(v);
  }

  lemma OnlySpelledInputIsDecoded(bytes: seq<byte>)
    requires Decode(bytes).Done?
    ensures bytes != [] && exists v :: Spells(Rust, bytes, 0, |bytes|, v)
  {
    hide Parse, Spells, Sort;
    ItemIsSpelled(Rust, bytes, 0, |bytes|, Parse(Rust, bytes, 0).value);
  }

  // ---------- what is refused, and why ----------

  /** Which number is too large for the major type, and what the decoder then says. */
  function NumberError(d: Dialect, major: nat, n: int): (error: Option<CborError>) {
    if d.Js? && (n > MAX_SAFE || (major == 1 && n == MAX_SAFE)) then Some(OutsideSafeRange)
    else if d.Js? && major == 4 && n > 0xFFFF_FFFF then Some(InvalidArrayLength)
    else if d.Rust? && major == 1 && n >= 0x8000_0000_0000_0000 then Some(LengthTooLarge)
    else None
  }

  /** A number that is too large is refused at its head, whatever follows. */
  lemma LargeNumbersAreRefused(d: Dialect, major: nat, n: u64, rest: seq<byte>)
    requires major < 6 && NumberError(d, major, n).Some?
    ensures Parse(d, Head(major, n) + rest, 0) == Fail(NumberError(d, major, n).value)
  {
    hide Parse, Head;
    assert At(Head(major, n) + rest, 0, Head(major, n));
    ParseBehindHead(d, major, n, Head(major, n) + rest, 0);
  }

  /** Rust refuses every number that is spelled longer than needed. */
  lemma LongFormsAreRefused(major: nat, info: nat, n: nat, rest: seq<byte>)
    requires major < 6 && 24 <= info <= 27 && n < Capacity(Following(info)) && n <= U64_MAX
    requires |Head(major, n)| < 1 + Following(info)
    ensures Parse(Rust, [32 * major + info] + ToBe(n, Following(info)) + rest, 0) == Fail(NonCanonicalInteger)
  {
    hide Parse, ToBe, FromBe, Capacity;
    var bytes := [32 * major + info] + ToBe(n, Following(info)) + rest;
    LeadByteSplits(major, info);
    ParseSplits(Rust, bytes, 0);
    FromBeOfToBe(n, Following(info));
    assert bytes[1..1 + Following(info)] == ToBe(n, Following(info));
    LengthOfHead(major, n);
    hide Head;
  }

  /** TypeScript refuses infinities and numbers that are none. */
  lemma NonFiniteIsRefused(bits: u64, rest: seq<byte>)
    requires bits % 0x8000_0000_0000_0000 >= 0x7FF0_0000_0000_0000
    ensures Parse(Js, [0xFB] + ToBe(bits, 8) + rest, 0) == Fail(NonFiniteFloat)
  {
    var bytes := [0xFB] + ToBe(bits, 8) + rest;
    Capacities();
    FromBeOfToBe(bits, 8);
    assert bytes[1..9] == ToBe(bits, 8);
    FiniteIsBelowInfinity(bits);
    ParseSimpleAt(Js, bytes, 0);
    hide Parse, ToBe, FromBe, Finite;
  }

  lemma {:induction false} ItemsInFront(d: Dialect, bytes: seq<byte>, from: nat, mid: nat, items: seq<Value>, count: nat,
                                        acc: seq<Value>)
    requires from <= mid <= |bytes| && |items| <= count && SpellItems(d, bytes, from, mid, items)
    ensures ParseItems(d, bytes, from, count, acc) == ParseItems(d, bytes, mid, count - |items|, acc + items)
    decreases |items|
  {
    hide Parse, Spells;
    if items == [] {
      assert acc + items == acc;
    } else {
      var next := FirstItemEnds(d, bytes, from, mid, items);
      ItemIsSpelled(d, bytes, from, next, items[0]);
      ItemsInFront(d, bytes, next, mid, items[1..], count - 1, acc + [items[0]]);
      assert acc + [items[0]] + items[1..] == acc + items;
    }
  }

  lemma {:induction false} EntriesInFront(d: Dialect, bytes: seq<byte>, from: nat, mid: nat, entries: seq<Entry>,
                                          count: nat, acc: seq<Entry>)
    requires from <= mid <= |bytes| && |entries| <= count && SpellEntries(d, bytes, from, mid, entries)
    requires Distinct(acc + entries)
    ensures ParseEntries(d, bytes, from, count, acc) == ParseEntries(d, bytes, mid, count - |entries|, acc + entries)
    decreases |entries|
  {
    hide ParseEntry, SpellsEntry;
    if entries == [] {
      assert acc + entries == acc;
    } else {
      var next := FirstEntryEnds(d, bytes, from, mid, entries);
      NextKeyIsNew(acc, entries);
      EntryIsSpelled(d, bytes, from, next, entries[0], acc);
      assert acc + [entries[0]] + entries[1..] == acc + entries;
      EntriesInFront(d, bytes, next, mid, entries[1..], count - 1, acc + [entries[0]]);
    }
  }

  /** An array fails as its first bad item does. */
  lemma FirstBadItemDecides(d: Dialect, bytes: seq<byte>, from: nat, mid: nat, items: seq<Value>, bad: nat, n: nat)
    requires from < mid <= bad <= |bytes| && HeadAt(d, bytes, from, mid, 4, n) && (d.Js? ==> n <= MAX_ARRAY)
    requires SpellItems(d, bytes, mid, bad, items) && |items| < n && Parse(d, bytes, bad).Fail?
    ensures Parse(d, bytes, from) == Parse(d, bytes, bad)
  {
    ParseSplits(d, bytes, from);
    assert bytes[from..mid][0] == bytes[from];
    HeadsAreTaken(d, bytes, from);
    ItemsInFront(d, bytes, mid, bad, items, n, []);
    hide Argument, HeadAt, SpellItems, Parse, ParseEntries, Utf8.Valid, StripBom;
  }

  /** Why a map is refused at an entry, given the keys before it: the key does not decode, is no unsigned
      integer or stood before, or the value does not decode.  TypeScript looks for a repeated key first, Rust
      decodes the value first. */
  ghost predicate BadEntry(d: Dialect, bytes: seq<byte>, at: nat, before: seq<Entry>, error: CborError)
    requires at <= |bytes|
  {
    var key := Parse(d, bytes, at);
    if key.Fail? then error == key.error
    else if !key.value.U64? then error == ExpectedUnsignedMapKey
    else
      var value := Parse(d, bytes, key.next);
      if exists i | 0 <= i < |before| :: before[i].key == key.value.u then
        error == if d.Rust? && value.Fail? then value.error else DuplicateMapKey
      else value.Fail? && error == value.error
  }

  lemma BadEntryFails(d: Dialect, bytes: seq<byte>, at: nat, before: seq<Entry>, error: CborError)
    requires at <= |bytes| && BadEntry(d, bytes, at, before, error)
    ensures ParseEntry(d, bytes, at, before) == Fail(error)
  {
    hide Parse;
  }

  lemma EntriesFail(d: Dialect, bytes: seq<byte>, mid: nat, entries: seq<Entry>, bad: nat, n: nat, error: CborError)
    requires mid <= bad <= |bytes| && SpellEntries(d, bytes, mid, bad, entries) && Distinct(entries) && |entries| < n
    requires BadEntry(d, bytes, bad, entries, error)
    ensures ParseEntries(d, bytes, mid, n, []) == Fail(error)
  {
    assert [] + entries == entries;
    EntriesInFront(d, bytes, mid, bad, entries, n, []);
    BadEntryFails(d, bytes, bad, entries, error);
    hide SpellEntries, BadEntry, ParseEntry, Distinct;
  }

  /** A map fails as its first bad entry does. */
  lemma FirstBadEntryDecides(d: Dialect, bytes: seq<byte>, from: nat, mid: nat, entries: seq<Entry>, bad: nat, n: nat,
                             error: CborError)
    requires from < mid <= bad <= |bytes| && HeadAt(d, bytes, from, mid, 5, n)
    requires SpellEntries(d, bytes, mid, bad, entries) && Distinct(entries) && |entries| < n
    requires BadEntry(d, bytes, bad, entries, error)
    ensures Parse(d, bytes, from) == Fail(error)
  {
    ParseSplits(d, bytes, from);
    assert bytes[from..mid][0] == bytes[from];
    HeadsAreTaken(d, bytes, from);
    EntriesFail(d, bytes, mid, entries, bad, n, error);
    hide Argument, HeadAt, SpellEntries, Parse, BadEntry, ParseEntries, ParseItems, Utf8.Valid, StripBom;
  }
}
