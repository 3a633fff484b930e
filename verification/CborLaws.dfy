/** What holds of the CBOR profile on every input. */
module CborLaws {
  import opened Wrappers
  import opened Bytes
  import opened CborValue
  import opened Cbor
  import Utf8

  // ---------- verdicts depend only on the bytes that were read ----------

  /** From `p` on, `b` continues exactly as `a` does from `pos`, as long as `a` lasts. */
  ghost predicate Continues(a: seq<byte>, pos: nat, b: seq<byte>, p: nat)
    decreases |a| - pos
  {
    && pos <= |a| && p <= |b|
    && (pos < |a| ==> p < |b| && a[pos] == b[p] && Continues(a, pos + 1, b, p + 1))
  }

  /** A verdict other than "needs more input" carries over to the longer input. */
  ghost predicate CarriesOver<T(!new)>(r: Parsed<T>, pos: nat, r': Parsed<T>, p: nat) {
    match r
    case Done(value, next) => next >= pos && r' == Done(value, next - pos + p)
    case Fail(error) => error == UnexpectedEnd || r' == r
  }

  lemma {:induction false} ContinuesAt(a: seq<byte>, pos: nat, b: seq<byte>, p: nat, next: nat)
    requires Continues(a, pos, b, p) && pos <= next <= |a|
    ensures next - pos + p <= |b|
    ensures Continues(a, next, b, next - pos + p)
    ensures a[pos..next] == b[p..next - pos + p]
    decreases next - pos
  {
    if pos < next {
      ContinuesAt(a, pos + 1, b, p + 1, next);
      assert a[pos..next] == [a[pos]] + a[pos + 1..next];
    }
  }

  lemma ReadCarriesOver(a: seq<byte>, pos: nat, b: seq<byte>, p: nat, n: nat)
    requires Continues(a, pos, b, p)
    ensures CarriesOver(ReadExact(a, pos, n), pos, ReadExact(b, p, n), p)
  {
    if pos + n <= |a| {
      ContinuesAt(a, pos, b, p, pos + n);
    }
  }

  lemma ArgumentCarriesOver(d: Dialect, additional: nat, a: seq<byte>, pos: nat, b: seq<byte>, p: nat)
    requires Continues(a, pos, b, p)
    ensures CarriesOver(Argument(d, additional, a, pos), pos, Argument(d, additional, b, p), p)
  {
    if 24 <= additional <= 27 {
      ReadCarriesOver(a, pos, b, p, Width(additional));
    }
  }

  lemma SimpleCarriesOver(d: Dialect, additional: nat, a: seq<byte>, pos: nat, b: seq<byte>, p: nat)
    requires Continues(a, pos, b, p)
    ensures CarriesOver(ParseSimple(d, additional, a, pos), pos, ParseSimple(d, additional, b, p), p)
  {
    ReadCarriesOver(a, pos, b, p, 8);
  }

  /** Decoder verdicts are stable under more input and do not depend on the position. */
  lemma {:induction false} ParseCarriesOver(d: Dialect, a: seq<byte>, pos: nat, b: seq<byte>, p: nat)
    requires Continues(a, pos, b, p)
    ensures CarriesOver(Parse(d, a, pos), pos, Parse(d, b, p), p)
    decreases |a| - pos, 0
  {
    hide Argument, ParseSimple, ParseContent;
    if pos < |a| {
      var major, additional := a[pos] / 32, a[pos] % 32;
      if major == 7 {
        SimpleCarriesOver(d, additional, a, pos + 1, b, p + 1);
      } else if major < 6 {
        ArgumentCarriesOver(d, additional, a, pos + 1, b, p + 1);
        var arg := Argument(d, additional, a, pos + 1);
        if arg.Done? {
          ContinuesAt(a, pos, b, p, arg.next);
          ContentCarriesOver(d, major, arg.value, a, arg.next, b, arg.next - pos + p);
        }
      }
    }
  }

  lemma {:induction false} ContentCarriesOver(d: Dialect, major: nat, n: u64, a: seq<byte>, pos: nat, b: seq<byte>, p: nat)
    requires Continues(a, pos, b, p) && major < 6
    ensures CarriesOver(ParseContent(d, major, n, a, pos), pos, ParseContent(d, major, n, b, p), p)
    decreases |a| - pos, 3
  {
    hide Continues, ParseItems, ParseEntries, ReadExact, StripBom, Utf8.Valid;
    match major
    case 4 => ItemsCarryOver(d, a, pos, b, p, n, []);
    case 5 => EntriesCarryOver(d, a, pos, b, p, n, []);
    case _ => ReadCarriesOver(a, pos, b, p, n);
  }

  lemma {:induction false} ItemsCarryOver(d: Dialect, a: seq<byte>, pos: nat, b: seq<byte>, p: nat,
      count: nat, acc: seq<Value>)
    requires Continues(a, pos, b, p)
    ensures CarriesOver(ParseItems(d, a, pos, count, acc), pos, ParseItems(d, b, p, count, acc), p)
    decreases |a| - pos, 2
  {
    hide Parse;
    if count > 0 {
      ParseCarriesOver(d, a, pos, b, p);
      var item := Parse(d, a, pos);
      if item.Done? {
        ContinuesAt(a, pos, b, p, item.next);
        ItemsCarryOver(d, a, item.next, b, item.next - pos + p, count - 1, acc + [item.value]);
      }
    }
  }

  lemma {:induction false} EntriesCarryOver(d: Dialect, a: seq<byte>, pos: nat, b: seq<byte>, p: nat,
      count: nat, acc: seq<Entry>)
    requires Continues(a, pos, b, p)
    ensures CarriesOver(ParseEntries(d, a, pos, count, acc), pos, ParseEntries(d, b, p, count, acc), p)
    decreases |a| - pos, 2
  {
    hide ParseEntry;
    if count > 0 {
      EntryCarriesOver(d, a, pos, b, p, acc);
      var entry := ParseEntry(d, a, pos, acc);
      if entry.Done? {
        ContinuesAt(a, pos, b, p, entry.next);
        EntriesCarryOver(d, a, entry.next, b, entry.next - pos + p, count - 1, acc + [entry.value]);
      }
    }
  }

  lemma {:induction false} EntryCarriesOver(d: Dialect, a: seq<byte>, pos: nat, b: seq<byte>, p: nat, acc: seq<Entry>)
    requires Continues(a, pos, b, p)
    ensures CarriesOver(ParseEntry(d, a, pos, acc), pos, ParseEntry(d, b, p, acc), p)
    decreases |a| - pos, 1
  {
    hide Parse;
    ParseCarriesOver(d, a, pos, b, p);
    var key := Parse(d, a, pos);
    if key.Done? {
      ContinuesAt(a, pos, b, p, key.next);
      ParseCarriesOver(d, a, key.next, b, key.next - pos + p);
    }
  }

  // ---------- parsing what was printed ----------

  /** `bytes` holds `s` at `pos`. */
  ghost predicate At(bytes: seq<byte>, pos: nat, s: seq<byte>) {
    pos + |s| <= |bytes| && bytes[pos..pos + |s|] == s
  }

  lemma AtParts(bytes: seq<byte>, pos: nat, a: seq<byte>, b: seq<byte>)
    requires At(bytes, pos, a + b)
    ensures At(bytes, pos, a) && At(bytes, pos + |a|, b)
  {
    assert bytes[pos..pos + |a|] == bytes[pos..pos + |a + b|][..|a|];
    assert bytes[pos + |a|..pos + |a + b|] == bytes[pos..pos + |a + b|][|a|..];
  }

  /** Reading `r` is what the dialect must make of something printed at `pos`. */
  ghost predicate Reads<T(!new)>(r: Parsed<T>, readable: bool, value: T, next: nat) {
    if readable then r == Done(value, next) else r.Fail? && r.error != UnexpectedEnd
  }

  lemma ArgumentParsed(d: Dialect, additional: nat, n: u64, bytes: seq<byte>, pos: nat)
    requires 24 <= additional <= 27 && LargestShorter(additional) < n < Capacity(Width(additional))
    requires At(bytes, pos, ToBe(n, Width(additional)))
    ensures Argument(d, additional, bytes, pos) ==
            if d.Js? && n > MAX_SAFE then Fail(OutsideSafeRange) else Done(n, pos + Width(additional))
  {
    FromBeOfToBe(n, Width(additional));
    hide ToBe, FromBe, Capacity;
  }

  lemma LeadByteSplits(major: nat, info: nat)
    requires info < 32
    ensures (32 * major + info) / 32 == major && (32 * major + info) % 32 == info
  {
  }

  lemma Capacities()
    ensures Capacity(1) == 0x100 && Capacity(2) == 0x1_0000 && Capacity(4) == 0x1_0000_0000
    ensures Capacity(8) == U64_MAX + 1
  {
  }

  lemma WideHeadParsed(d: Dialect, major: nat, info: nat, n: u64, bytes: seq<byte>, pos: nat)
    requires major < 8 && 24 <= info <= 27 && LargestShorter(info) < n < Capacity(Width(info))
    requires At(bytes, pos, [32 * major + info] + ToBe(n, Width(info)))
    ensures pos < |bytes| && bytes[pos] == 32 * major + info
    ensures Argument(d, info, bytes, pos + 1) ==
            if d.Js? && n > MAX_SAFE then Fail(OutsideSafeRange) else Done(n, pos + 1 + Width(info))
  {
    hide ToBe, Capacity, Argument;
    AtParts(bytes, pos, [32 * major + info], ToBe(n, Width(info)));
    assert bytes[pos] == bytes[pos..pos + 1][0];
    ArgumentParsed(d, info, n, bytes, pos + 1);
  }

  lemma HeadParsed(d: Dialect, major: nat, n: u64, bytes: seq<byte>, pos: nat)
    requires major < 8 && At(bytes, pos, Head(major, n))
    ensures pos < |bytes| && bytes[pos] / 32 == major
    ensures Argument(d, bytes[pos] % 32, bytes, pos + 1) ==
            if d.Js? && n > MAX_SAFE then Fail(OutsideSafeRange) else Done(n, pos + |Head(major, n)|)
  {
    hide ToBe, Capacity;
    Capacities();
    var info := if n < 24 then n else if n <= 0xFF then 24 else if n <= 0xFFFF then 25
                else if n <= 0xFFFF_FFFF then 26 else 27;
    LeadByteSplits(major, info);
    if n < 24 {
      assert bytes[pos] == bytes[pos..pos + 1][0];
    } else {
      HeadForm(major, info, n);
      hide Head, Argument;
      WideHeadParsed(d, major, info, n, bytes, pos);
    }
  }

  /** Behind a printed head of major type 0 to 5, parsing goes on with the content. */
  lemma ParseBehindHead(d: Dialect, major: nat, n: u64, bytes: seq<byte>, pos: nat)
    requires major < 6 && At(bytes, pos, Head(major, n))
    ensures Parse(d, bytes, pos) ==
            if d.Js? && n > MAX_SAFE then Fail(OutsideSafeRange)
            else ParseContent(d, major, n, bytes, pos + |Head(major, n)|)
  {
    hide Argument, Head, ParseContent, ParseSimple;
    HeadParsed(d, major, n, bytes, pos);
    ParseSplits(d, bytes, pos);
    hide Parse;
  }

  /** A value of major type 0 to 5 is its argument and then its content. */
  lemma ParseSplits(d: Dialect, bytes: seq<byte>, pos: nat)
    requires pos < |bytes| && bytes[pos] / 32 < 6
    ensures
      var arg := Argument(d, bytes[pos] % 32, bytes, pos + 1);
      Parse(d, bytes, pos) ==
        if arg.Done? then ParseContent(d, bytes[pos] / 32, arg.value, bytes, arg.next) else Fail(arg.error)
  {
    hide Argument, ParseContent, ParseSimple;
  }

  lemma ParseSimpleAt(d: Dialect, bytes: seq<byte>, pos: nat)
    requires pos < |bytes| && bytes[pos] / 32 == 7
    ensures Parse(d, bytes, pos) == ParseSimple(d, bytes[pos] % 32, bytes, pos + 1)
  {
    hide Argument, ParseContent, ParseSimple;
  }

  lemma FloatParsed(d: Dialect, bits: u64, bytes: seq<byte>, pos: nat)
    requires At(bytes, pos, [0xFB] + ToBe(bits, 8))
    ensures Reads(Parse(d, bytes, pos), Readable(d, F64(bits)), F64(bits), pos + 9)
  {
    AtParts(bytes, pos, [0xFB], ToBe(bits, 8));
    assert bytes[pos] == bytes[pos..pos + 1][0];
    ParseSimpleAt(d, bytes, pos);
    hide Parse, ToBe, FromBe;
    assert Capacity(8) == U64_MAX + 1;
    FromBeOfToBe(bits, 8);
  }

  lemma SimpleParsed(d: Dialect, v: Value, bytes: seq<byte>, pos: nat)
    requires v.Null? || v.Bool? || v.F64?
    requires At(bytes, pos, Print(v))
    ensures Reads(Parse(d, bytes, pos), Readable(d, v), Reading(d, v), pos + |Print(v)|)
  {
    hide Parse, Head, ToBe, FromBe;
    if v.F64? {
      FloatParsed(d, v.bits, bytes, pos);
    } else {
      assert bytes[pos] == bytes[pos..pos + 1][0];
      ParseSimpleAt(d, bytes, pos);
    }
  }

  lemma IntegerParsed(d: Dialect, v: Value, bytes: seq<byte>, pos: nat)
    requires v.U64? || v.I64?
    requires At(bytes, pos, Print(v))
    ensures Reads(Parse(d, bytes, pos), Readable(d, v), Reading(d, v), pos + |Print(v)|)
  {
    hide Parse, Head;
    match v
    case U64(u) => ParseBehindHead(d, 0, u, bytes, pos);
    case I64(i) => ParseBehindHead(d, if i >= 0 then 0 else 1, if i >= 0 then i else -1 - i, bytes, pos);
  }

  lemma BytesParsed(d: Dialect, content: seq<byte>, bytes: seq<byte>, pos: nat)
    requires Fits(Bytes(content)) && At(bytes, pos, Print(Bytes(content)))
    ensures Reads(Parse(d, bytes, pos), Readable(d, Bytes(content)), Bytes(content), pos + |Print(Bytes(content))|)
  {
    hide Parse, Head;
    AtParts(bytes, pos, Head(2, |content|), content);
    ParseBehindHead(d, 2, |content|, bytes, pos);
  }

  lemma TextParsed(d: Dialect, utf8: seq<byte>, bytes: seq<byte>, pos: nat)
    requires Fits(Text(utf8)) && At(bytes, pos, Print(Text(utf8)))
    ensures Reads(Parse(d, bytes, pos), Readable(d, Text(utf8)), Text(StripBom(d, utf8)), pos + |Print(Text(utf8))|)
  {
    hide Parse, Head, StripBom;
    AtParts(bytes, pos, Head(3, |utf8|), utf8);
    ParseBehindHead(d, 3, |utf8|, bytes, pos);
  }

  /** Parsing a printed tree reads it back, or reports why the dialect cannot hold it. */
  lemma {:induction false} ParsePrinted(d: Dialect, v: Value, bytes: seq<byte>, pos: nat)
    requires Fits(v) && At(bytes, pos, Print(v))
    ensures Reads(Parse(d, bytes, pos), Readable(d, v), Reading(d, v), pos + |Print(v)|)
    decreases v, 1
  {
    hide Parse, Print;
    if v.Array? {
      ArrayParsed(d, v.items, bytes, pos);
    } else if v.Map? {
      MapParsed(d, v.entries, bytes, pos);
    } else if v.Bytes? {
      BytesParsed(d, v.bytes, bytes, pos);
    } else if v.Text? {
      TextParsed(d, v.utf8, bytes, pos);
    } else if v.U64? || v.I64? {
      IntegerParsed(d, v, bytes, pos);
    } else {
      SimpleParsed(d, v, bytes, pos);
    }
  }

  lemma {:induction false} ArrayParsed(d: Dialect, items: seq<Value>, bytes: seq<byte>, pos: nat)
    requires Fits(Array(items)) && At(bytes, pos, Print(Array(items)))
    ensures Reads(Parse(d, bytes, pos), Readable(d, Array(items)), Array(ReadingItems(d, items)),
                  pos + |Print(Array(items))|)
    decreases items, 1
  {
    hide Parse, Head, PrintItems;
    AtParts(bytes, pos, Head(4, |items|), PrintItems(items));
    ParseBehindHead(d, 4, |items|, bytes, pos);
    ItemsParsed(d, items, bytes, pos + |Head(4, |items|)|, []);
    assert [] + ReadingItems(d, items) == ReadingItems(d, items);
  }

  lemma RustReadsEverything(entries: seq<Entry>)
    ensures ReadableEntries(Rust, entries)
  {
    assert forall i | 0 <= i < |entries| :: Readable(Rust, entries[i].value);
  }

  lemma {:induction false} MapParsed(d: Dialect, entries: seq<Entry>, bytes: seq<byte>, pos: nat)
    requires Fits(Map(entries)) && At(bytes, pos, Print(Map(entries)))
    ensures Reads(Parse(d, bytes, pos), Readable(d, Map(entries)), Map(ReadingEntries(d, entries)),
                  pos + |Print(Map(entries))|)
    decreases entries, 1
  {
    RustReadsEverything(entries);
    hide Parse, Head, PrintEntries, ReadableEntries;
    AtParts(bytes, pos, Head(5, |entries|), PrintEntries(entries));
    ParseBehindHead(d, 5, |entries|, bytes, pos);
    assert [] + entries == entries;
    EntriesParsed(d, entries, bytes, pos + |Head(5, |entries|)|, []);
    assert [] + ReadingEntries(d, entries) == ReadingEntries(d, entries);
  }

  lemma ReadableItemsStep(d: Dialect, items: seq<Value>)
    requires items != []
    ensures ReadableItems(d, items) <==> Readable(d, items[0]) && ReadableItems(d, items[1..])
  {
    assert items == [items[0]] + items[1..];
  }

  lemma ReadableEntriesStep(d: Dialect, entries: seq<Entry>)
    requires entries != []
    ensures ReadableEntries(d, entries) <==> ReadableEntry(d, entries[0]) && ReadableEntries(d, entries[1..])
  {
    assert entries == [entries[0]] + entries[1..];
  }

  lemma ReadingItemsStep(d: Dialect, items: seq<Value>)
    requires items != []
    ensures ReadingItems(d, items) == [Reading(d, items[0])] + ReadingItems(d, items[1..])
  {
    hide Reading;
  }

  lemma ReadingEntriesStep(d: Dialect, entries: seq<Entry>)
    requires entries != []
    ensures ReadingEntries(d, entries) == [ReadingEntry(d, entries[0])] + ReadingEntries(d, entries[1..])
  {
    hide ReadingEntry;
  }

  lemma FirstItemParsed(d: Dialect, items: seq<Value>, bytes: seq<byte>, pos: nat, acc: seq<Value>)
    requires FitsItems(items) && items != [] && pos + |Print(items[0])| <= |bytes|
    requires Reads(Parse(d, bytes, pos), Readable(d, items[0]), Reading(d, items[0]), pos + |Print(items[0])|)
    requires
      var next := pos + |Print(items[0])|;
      Reads(ParseItems(d, bytes, next, |items| - 1, acc + [Reading(d, items[0])]), ReadableItems(d, items[1..]),
            (acc + [Reading(d, items[0])]) + ReadingItems(d, items[1..]), next + |PrintItems(items[1..])|)
    ensures Reads(ParseItems(d, bytes, pos, |items|, acc), ReadableItems(d, items),
                  acc + ReadingItems(d, items), pos + |PrintItems(items)|)
  {
    hide Parse, Reading, Readable, Print, Fits, ReadableItems, ReadingItems;
    ReadableItemsStep(d, items);
    ReadingItemsStep(d, items);
    Regroup(acc, [Reading(d, items[0])], ReadingItems(d, items[1..]));
  }

  lemma {:induction false} ItemsParsed(d: Dialect, items: seq<Value>, bytes: seq<byte>, pos: nat, acc: seq<Value>)
    requires FitsItems(items)
    requires At(bytes, pos, PrintItems(items))
    ensures Reads(ParseItems(d, bytes, pos, |items|, acc), ReadableItems(d, items),
                  acc + ReadingItems(d, items), pos + |PrintItems(items)|)
    decreases items, 0
  {
    hide Parse, Reading, Readable, Print, Head, Fits, Reads;
    if items == [] {
      NoItemsParsed(d, bytes, pos, acc);
    } else {
      var first, rest := items[0], items[1..];
      AtParts(bytes, pos, Print(first), PrintItems(rest));
      hide At, ParseItems, ReadableItems, ReadingItems;
      ParsePrinted(d, first, bytes, pos);
      ItemsParsed(d, rest, bytes, pos + |Print(first)|, acc + [Reading(d, first)]);
      FirstItemParsed(d, items, bytes, pos, acc);
    }
  }

  lemma NoItemsParsed(d: Dialect, bytes: seq<byte>, pos: nat, acc: seq<Value>)
    requires pos <= |bytes|
    ensures Reads(ParseItems(d, bytes, pos, 0, acc), ReadableItems(d, []), acc + ReadingItems(d, []), pos + |PrintItems([])|)
  {
    assert acc + ReadingItems(d, []) == acc;
  }

  lemma NoEntriesParsed(d: Dialect, bytes: seq<byte>, pos: nat, acc: seq<Entry>)
    requires pos <= |bytes|
    ensures Reads(ParseEntries(d, bytes, pos, 0, acc), ReadableEntries(d, []),
                  acc + ReadingEntries(d, []), pos + |PrintEntries([])|)
  {
    assert acc + ReadingEntries(d, []) == acc;
  }

  lemma FirstEntryParsed(d: Dialect, entries: seq<Entry>, bytes: seq<byte>, pos: nat, acc: seq<Entry>)
    requires FitsEntries(entries) && entries != [] && pos + |PrintEntry(entries[0])| <= |bytes|
    requires Reads(ParseEntry(d, bytes, pos, acc), ReadableEntry(d, entries[0]),
                   ReadingEntry(d, entries[0]), pos + |PrintEntry(entries[0])|)
    requires
      var next := pos + |PrintEntry(entries[0])|;
      Reads(ParseEntries(d, bytes, next, |entries| - 1, acc + [ReadingEntry(d, entries[0])]),
            ReadableEntries(d, entries[1..]),
            (acc + [ReadingEntry(d, entries[0])]) + ReadingEntries(d, entries[1..]), next + |PrintEntries(entries[1..])|)
    ensures Reads(ParseEntries(d, bytes, pos, |entries|, acc), ReadableEntries(d, entries),
                  acc + ReadingEntries(d, entries), pos + |PrintEntries(entries)|)
  {
    hide ParseEntry, ReadingEntry, ReadableEntry, PrintEntry, Fits, ReadableEntries, ReadingEntries;
    ReadableEntriesStep(d, entries);
    ReadingEntriesStep(d, entries);
    Regroup(acc, [ReadingEntry(d, entries[0])], ReadingEntries(d, entries[1..]));
  }

  lemma {:induction false} EntriesParsed(d: Dialect, entries: seq<Entry>, bytes: seq<byte>, pos: nat, acc: seq<Entry>)
    requires FitsEntries(entries)
    requires Distinct(acc + entries)
    requires At(bytes, pos, PrintEntries(entries))
    ensures Reads(ParseEntries(d, bytes, pos, |entries|, acc), ReadableEntries(d, entries),
                  acc + ReadingEntries(d, entries), pos + |PrintEntries(entries)|)
    decreases entries, 0
  {
    hide ParseEntry, ReadableEntry, PrintEntry, Fits, Reads, Reading;
    if entries == [] {
      NoEntriesParsed(d, bytes, pos, acc);
    } else {
      var first, rest := entries[0], entries[1..];
      var read := ReadingEntry(d, first);
      AtParts(bytes, pos, PrintEntry(first), PrintEntries(rest));
      hide At, ParseEntries, ReadableEntries, ReadingEntries;
      NextKeyIsNew(acc, entries);
      EntryParsed(d, first, bytes, pos, acc);
      assert Distinct(acc + [read] + rest) by {
        DistinctSameKeys(acc + entries, acc + [read] + rest);
      }
      hide Distinct;
      EntriesParsed(d, rest, bytes, pos + |PrintEntry(first)|, acc + [read]);
      FirstEntryParsed(d, entries, bytes, pos, acc);
    }
  }

  lemma NextKeyIsNew(acc: seq<Entry>, entries: seq<Entry>)
    requires entries != [] && Distinct(acc + entries)
    ensures !HasKey(acc, entries[0].key)
  {
    assert forall i | 0 <= i < |acc| :: acc[i] == (acc + entries)[i];
    assert (acc + entries)[|acc|] == entries[0];
  }

  lemma DistinctSameKeys(a: seq<Entry>, b: seq<Entry>)
    requires Distinct(a) && |a| == |b|
    requires forall i | 0 <= i < |a| :: b[i].key == a[i].key
    ensures Distinct(b)
  {
  }

  lemma {:induction false} EntryParsed(d: Dialect, entry: Entry, bytes: seq<byte>, pos: nat, acc: seq<Entry>)
    requires FitsEntry(entry) && !HasKey(acc, entry.key)
    requires At(bytes, pos, PrintEntry(entry))
    ensures Reads(ParseEntry(d, bytes, pos, acc), ReadableEntry(d, entry), ReadingEntry(d, entry),
                  pos + |PrintEntry(entry)|)
    decreases entry, 0
  {
    hide Parse, Head;
    AtParts(bytes, pos, Head(0, entry.key), Print(entry.value));
    ParseBehindHead(d, 0, entry.key, bytes, pos);
    ParsePrinted(d, entry.value, bytes, pos + |Head(0, entry.key)|);
  }

  // ---------- printing what was parsed ----------

  lemma AtJoin(bytes: seq<byte>, pos: nat, a: seq<byte>, b: seq<byte>)
    requires At(bytes, pos, a) && At(bytes, pos + |a|, b)
    ensures At(bytes, pos, a + b)
  {
    assert bytes[pos..pos + |a + b|] == bytes[pos..pos + |a|] + bytes[pos + |a|..pos + |a| + |b|];
  }

  lemma ArgumentRead(additional: nat, bytes: seq<byte>, pos: nat)
    requires 24 <= additional <= 27 && pos <= |bytes|
    requires Argument(Rust, additional, bytes, pos).Done?
    ensures var r := Argument(Rust, additional, bytes, pos);
            && LargestShorter(additional) < r.value < Capacity(Width(additional))
            && r.next == pos + Width(additional)
            && At(bytes, pos, ToBe(r.value, Width(additional)))
  {
    ToBeOfFromBe(bytes[pos..pos + Width(additional)]);
  }

  lemma HeadForm(major: nat, additional: nat, n: u64)
    requires major < 8 && 24 <= additional <= 27
    requires LargestShorter(additional) < n < Capacity(Width(additional))
    ensures Head(major, n) == [32 * major + additional] + ToBe(n, Width(additional))
  {
    assert Capacity(1) == 0x100 && Capacity(2) == 0x1_0000 && Capacity(4) == 0x1_0000_0000;
    hide ToBe;
  }

  /** A head that the Rust decoder accepts is the one it would print. */
  lemma HeadRead(bytes: seq<byte>, pos: nat)
    requires pos < |bytes| && Argument(Rust, bytes[pos] % 32, bytes, pos + 1).Done?
    ensures var r := Argument(Rust, bytes[pos] % 32, bytes, pos + 1);
            At(bytes, pos, Head(bytes[pos] / 32, r.value)) && r.next == pos + |Head(bytes[pos] / 32, r.value)|
  {
    var additional := bytes[pos] % 32;
    assert At(bytes, pos, [bytes[pos]]);
    if additional >= 24 {
      ArgumentRead(additional, bytes, pos + 1);
      var n := Argument(Rust, additional, bytes, pos + 1).value;
      HeadForm(bytes[pos] / 32, additional, n);
      hide Argument, Head, Capacity, ToBe;
      AtJoin(bytes, pos, [bytes[pos]], ToBe(n, Width(additional)));
    }
  }

  /** `v` is printed at `pos`, ends at `next`, and has no non-negative signed integer. */
  ghost predicate Printed(bytes: seq<byte>, pos: nat, v: Value, next: nat) {
    Fits(v) && Reading(Rust, v) == v && At(bytes, pos, Print(v)) && next == pos + |Print(v)|
  }

  ghost predicate PrintedItems(bytes: seq<byte>, pos: nat, items: seq<Value>, next: nat) {
    && FitsItems(items) && ReadingItems(Rust, items) == items
    && At(bytes, pos, PrintItems(items)) && next == pos + |PrintItems(items)|
  }

  ghost predicate PrintedEntries(bytes: seq<byte>, pos: nat, entries: seq<Entry>, next: nat) {
    && FitsEntries(entries) && ReadingEntries(Rust, entries) == entries
    && At(bytes, pos, PrintEntries(entries)) && next == pos + |PrintEntries(entries)|
  }

  /** Every byte string the Rust decoder accepts is exactly the print of the tree it stands for. */
  lemma {:induction false} PrintParsed(bytes: seq<byte>, pos: nat)
    requires pos <= |bytes| && Parse(Rust, bytes, pos).Done?
    ensures var r := Parse(Rust, bytes, pos); Printed(bytes, pos, r.value, r.next)
    decreases |bytes| - pos, 0
  {
    var major, additional := bytes[pos] / 32, bytes[pos] % 32;
    if major < 6 {
      HeadRead(bytes, pos);
      var arg := Argument(Rust, additional, bytes, pos + 1);
      hide Argument, Head;
      ContentPrinted(major, arg.value, bytes, pos, arg.next);
    } else {
      SimplePrinted(bytes, pos);
    }
  }

  lemma SimplePrinted(bytes: seq<byte>, pos: nat)
    requires pos < |bytes| && bytes[pos] / 32 == 7
    requires ParseSimple(Rust, bytes[pos] % 32, bytes, pos + 1).Done?
    ensures var r := ParseSimple(Rust, bytes[pos] % 32, bytes, pos + 1); Printed(bytes, pos, r.value, r.next)
  {
    assert At(bytes, pos, [bytes[pos]]);
    if bytes[pos] % 32 == 27 {
      ToBeOfFromBe(bytes[pos + 1..pos + 9]);
      AtJoin(bytes, pos, [bytes[pos]], bytes[pos + 1..pos + 9]);
    }
  }

  lemma {:induction false} ContentPrinted(major: nat, n: u64, bytes: seq<byte>, pos: nat, body: nat)
    requires major < 6 && pos < body <= |bytes|
    requires At(bytes, pos, Head(major, n)) && body == pos + |Head(major, n)|
    requires ParseContent(Rust, major, n, bytes, body).Done?
    ensures var r := ParseContent(Rust, major, n, bytes, body); Printed(bytes, pos, r.value, r.next)
    decreases |bytes| - body, 3
  {
    hide Head, Parse, ParseItems, ParseEntries, PrintItems, PrintEntries, ReadingItems, ReadingEntries;
    hide FitsItems, FitsEntries, Utf8.Valid;
    match major
    case 0 =>
    case 1 =>
    case 4 =>
      ItemsPrinted(bytes, body, n, []);
      var items := ParseItems(Rust, bytes, body, n, []).value;
      assert items[0..] == items;
      AtJoin(bytes, pos, Head(4, n), PrintItems(items));
    case 5 =>
      EntriesPrinted(bytes, body, n, []);
      var entries := ParseEntries(Rust, bytes, body, n, []).value;
      assert entries[0..] == entries;
      AtJoin(bytes, pos, Head(5, n), PrintEntries(entries));
    case _ =>
      AtJoin(bytes, pos, Head(major, n), bytes[body..body + n]);
  }

  lemma {:induction false} ItemsPrinted(bytes: seq<byte>, pos: nat, count: nat, acc: seq<Value>)
    requires pos <= |bytes| && ParseItems(Rust, bytes, pos, count, acc).Done?
    ensures var r := ParseItems(Rust, bytes, pos, count, acc);
            && |r.value| == |acc| + count && r.value[..|acc|] == acc
            && PrintedItems(bytes, pos, r.value[|acc|..], r.next)
    decreases |bytes| - pos, 2
  {
    hide Parse, Print, Reading, Fits;
    var all := ParseItems(Rust, bytes, pos, count, acc).value;
    if count == 0 {
      assert all[|acc|..] == [];
    } else {
      var item := Parse(Rust, bytes, pos);
      PrintParsed(bytes, pos);
      ItemsPrinted(bytes, item.next, count - 1, acc + [item.value]);
      var rest := all[|acc| + 1..];
      assert all[..|acc|] == all[..|acc| + 1][..|acc|] && all[|acc|] == all[..|acc| + 1][|acc|];
      assert all[|acc|..] == [item.value] + rest;
      PrintedItemsStep(bytes, pos, item.value, item.next, rest, ParseItems(Rust, bytes, pos, count, acc).next);
    }
  }

  lemma PrintedItemsStep(bytes: seq<byte>, pos: nat, item: Value, middle: nat, rest: seq<Value>, next: nat)
    requires Printed(bytes, pos, item, middle) && PrintedItems(bytes, middle, rest, next)
    ensures PrintedItems(bytes, pos, [item] + rest, next)
  {
    hide Print, Reading, Fits;
    var all := [item] + rest;
    assert all[1..] == rest;
    assert FitsItems(all);
    AtJoin(bytes, pos, Print(item), PrintItems(rest));
  }

  lemma {:induction false} EntriesPrinted(bytes: seq<byte>, pos: nat, count: nat, acc: seq<Entry>)
    requires Distinct(acc)
    requires pos <= |bytes| && ParseEntries(Rust, bytes, pos, count, acc).Done?
    ensures var r := ParseEntries(Rust, bytes, pos, count, acc);
            && |r.value| == |acc| + count && r.value[..|acc|] == acc && Distinct(r.value)
            && PrintedEntries(bytes, pos, r.value[|acc|..], r.next)
    decreases |bytes| - pos, 2
  {
    hide Parse, PrintEntry, Reading, Fits;
    var all := ParseEntries(Rust, bytes, pos, count, acc).value;
    if count == 0 {
      assert all[|acc|..] == [];
    } else {
      var entry := ParseEntry(Rust, bytes, pos, acc);
      EntryPrinted(bytes, pos, acc);
      hide ParseEntry;
      EntriesPrinted(bytes, entry.next, count - 1, acc + [entry.value]);
      var rest := all[|acc| + 1..];
      assert all[..|acc|] == all[..|acc| + 1][..|acc|] && all[|acc|] == all[..|acc| + 1][|acc|];
      assert all[|acc|..] == [entry.value] + rest;
      PrintedEntriesStep(bytes, pos, entry.value, entry.next, rest, ParseEntries(Rust, bytes, pos, count, acc).next);
    }
  }

  ghost predicate PrintedEntry(bytes: seq<byte>, pos: nat, entry: Entry, next: nat) {
    && FitsEntry(entry) && ReadingEntry(Rust, entry) == entry
    && At(bytes, pos, PrintEntry(entry)) && next == pos + |PrintEntry(entry)|
  }

  lemma {:induction false} EntryPrinted(bytes: seq<byte>, pos: nat, acc: seq<Entry>)
    requires pos <= |bytes| && ParseEntry(Rust, bytes, pos, acc).Done?
    ensures var r := ParseEntry(Rust, bytes, pos, acc);
            PrintedEntry(bytes, pos, r.value, r.next) && (Distinct(acc) ==> Distinct(acc + [r.value]))
    decreases |bytes| - pos, 1
  {
    hide Parse;
    var key := Parse(Rust, bytes, pos);
    PrintParsed(bytes, pos);
    PrintParsed(bytes, key.next);
    AtJoin(bytes, pos, Head(0, key.value.u), Print(Parse(Rust, bytes, key.next).value));
  }

  lemma PrintedEntriesStep(bytes: seq<byte>, pos: nat, entry: Entry, middle: nat, rest: seq<Entry>, next: nat)
    requires PrintedEntry(bytes, pos, entry, middle) && PrintedEntries(bytes, middle, rest, next)
    ensures PrintedEntries(bytes, pos, [entry] + rest, next)
  {
    hide PrintEntry, Reading, FitsEntry;
    var all := [entry] + rest;
    assert all[1..] == rest;
    assert FitsEntries(all);
    AtJoin(bytes, pos, PrintEntry(entry), PrintEntries(rest));
  }
}
