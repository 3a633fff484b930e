/** The main results about the CBOR profile. */
module CborTheorems {
  import opened Bytes
  import opened CborValue
  import opened Cbor
  import opened CborLaws

  /** Every decoded item takes at least one byte, and a verdict other than "needs more input" is final. */
  lemma VerdictsAreStable(d: Dialect, bytes: seq<byte>, more: seq<byte>)
    ensures var short, long := Parse(d, bytes, 0), Parse(d, bytes + more, 0);
            && (short.Done? ==> 0 < short.next <= |bytes| && long == short)
            && (short.Fail? && short.error != UnexpectedEnd ==> long == short)
  {
    PrefixContinues(bytes, bytes + more, 0);
    ParseCarriesOver(d, bytes, 0, bytes + more, 0);
  }

  lemma {:induction false} PrefixContinues(a: seq<byte>, b: seq<byte>, pos: nat)
    requires a <= b && pos <= |a|
    ensures Continues(a, pos, b, pos)
    decreases |a| - pos
  {
    if pos < |a| {
      PrefixContinues(a, b, pos + 1);
    }
  }

  lemma {:induction false} SuffixContinues(bytes: seq<byte>, pos: nat, k: nat)
    requires pos + k <= |bytes|
    ensures Continues(bytes, pos + k, bytes[pos..], k) && Continues(bytes[pos..], k, bytes, pos + k)
    decreases |bytes| - k
  {
    if pos + k < |bytes| {
      SuffixContinues(bytes, pos, k + 1);
    }
  }

  /** Parsing in the middle of a buffer is parsing the rest of the buffer. */
  lemma ParseAtOffset(d: Dialect, bytes: seq<byte>, pos: nat)
    requires pos <= |bytes|
    ensures Parse(d, bytes[pos..], 0) ==
            match Parse(d, bytes, pos)
            case Done(v, next) => Done(v, next - pos)
            case Fail(error) => Fail(error)
  {
    hide Parse;
    SuffixContinues(bytes, pos, 0);
    ParseCarriesOver(d, bytes, pos, bytes[pos..], 0);
    ParseCarriesOver(d, bytes[pos..], 0, bytes, pos);
  }

  /** Parsing a print, whatever follows it, gives the tree back and takes exactly the print. */
  lemma RoundTripWithSuffix(d: Dialect, v: Value, suffix: seq<byte>)
    requires Fits(v) && Readable(d, v)
    ensures Parse(d, Print(v) + suffix, 0) == Done(Reading(d, v), |Print(v)|)
  {
    hide Parse, Print, Readable, Reading, Fits;
    assert (Print(v) + suffix)[0..|Print(v)|] == Print(v);
    ParsePrinted(d, v, Print(v) + suffix, 0);
  }

  /** No proper prefix of a print is ever taken for a whole item. */
  lemma ProperPrefixNeedsMore(d: Dialect, v: Value, n: nat)
    requires Fits(v) && Readable(d, v) && n < |Print(v)|
    ensures Parse(d, Print(v)[..n], 0) == Fail(UnexpectedEnd)
  {
    var bytes, more := Print(v)[..n], Print(v)[n..];
    assert bytes + more == Print(v) == Print(v) + [];
    RoundTripWithSuffix(d, v, []);
    VerdictsAreStable(d, bytes, more);
  }

  /** The encoding is prefix-free and injective up to the sign normalisation. */
  lemma PrintsAreSelfDelimiting(v: Value, w: Value, s: seq<byte>, t: seq<byte>)
    requires Fits(v) && Fits(w) && Print(v) + s == Print(w) + t
    ensures Reading(Rust, v) == Reading(Rust, w) && s == t
  {
    RoundTripWithSuffix(Rust, v, s);
    RoundTripWithSuffix(Rust, w, t);
    assert s == (Print(v) + s)[|Print(v)|..];
    assert t == (Print(w) + t)[|Print(w)|..];
  }

  /** `decode(encode(v)) == v` for every Rust value, up to the sign normalisation. */
  lemma DecodeOfEncode(v: Value)
    requires RustValue(v)
    ensures Decode(Print(v)) == Done(Reading(Rust, v), |Print(v)|)
  {
    assert Print(v) + [] == Print(v);
    RoundTripWithSuffix(Rust, v, []);
    RustReadingIsRustValue(v);
    SortFixesExactlyAscending(Reading(Rust, v));
  }

  lemma {:induction false} RustReadingIsRustValue(v: Value)
    ensures Fits(v) ==> Fits(Reading(Rust, v))
    ensures Ascending(v) ==> Ascending(Reading(Rust, v))
    ensures Reading(Rust, Reading(Rust, v)) == Reading(Rust, v)
  {
    match v
    case Array(items) =>
      forall i | 0 <= i < |items|
        ensures Fits(items[i]) ==> Fits(Reading(Rust, items[i]))
        ensures Ascending(items[i]) ==> Ascending(Reading(Rust, items[i]))
        ensures Reading(Rust, Reading(Rust, items[i])) == Reading(Rust, items[i])
      {
        RustReadingIsRustValue(items[i]);
      }
      var read := ReadingItems(Rust, items);
      assert FitsItems(items) ==> FitsItems(read);
      assert ReadingItems(Rust, read) == read;
    case Map(entries) =>
      forall i | 0 <= i < |entries|
        ensures FitsEntry(entries[i]) ==> FitsEntry(ReadingEntry(Rust, entries[i]))
        ensures Ascending(entries[i].value) ==> Ascending(Reading(Rust, entries[i].value))
        ensures Reading(Rust, Reading(Rust, entries[i].value)) == Reading(Rust, entries[i].value)
      {
        RustReadingIsRustValue(entries[i].value);
      }
      var read := ReadingEntries(Rust, entries);
      assert FitsEntries(entries) ==> FitsEntries(read);
      assert ReadingEntries(Rust, read) == read;
    case _ =>
  }

  // ---------- accepted input against its re-encoding ----------

  lemma {:induction false} InsertPrintLength(entries: seq<Entry>, entry: Entry)
    requires FitsEntries(entries) && FitsEntry(entry) && !HasKey(entries, entry.key)
    ensures FitsEntries(Insert(entries, entry))
    ensures |PrintEntries(Insert(entries, entry))| == |PrintEntries(entries)| + |PrintEntry(entry)|
  {
    hide PrintEntry, FitsEntry;
    var r := Insert(entries, entry);
    if entries != [] && entry.key >= entries[0].key {
      assert entries[0].key != entry.key;
      assert forall i | 0 <= i < |entries[1..]| :: entries[1..][i] == entries[i + 1];
      InsertPrintLength(entries[1..], entry);
      assert r[1..] == Insert(entries[1..], entry);
      assert FitsEntries(r);
    } else {
      assert r[1..] == entries;
      assert FitsEntries(r);
    }
  }

  lemma {:induction false} SortEntriesPrintLength(entries: seq<Entry>)
    requires FitsEntries(entries) && Distinct(entries)
    ensures FitsEntries(SortEntries(entries))
    ensures |PrintEntries(SortEntries(entries))| == |PrintEntries(entries)|
  {
    hide PrintEntry, FitsEntry;
    if entries != [] {
      var front, last := entries[..|entries| - 1], entries[|entries| - 1];
      SortEntriesPrintLength(front);
      SortEntriesAscends(front);
      InsertPrintLength(SortEntries(front), last);
      PrintEntriesSnoc(front, last);
      assert front + [last] == entries;
    }
  }

  lemma {:induction false} PrintEntriesSnoc(entries: seq<Entry>, last: Entry)
    requires FitsEntries(entries) && FitsEntry(last)
    ensures FitsEntries(entries + [last])
    ensures PrintEntries(entries + [last]) == PrintEntries(entries) + PrintEntry(last)
  {
    hide PrintEntry, FitsEntry;
    assert FitsEntries(entries + [last]);
    if entries == [] {
      assert (entries + [last])[1..] == [];
    } else {
      PrintEntriesSnoc(entries[1..], last);
      assert (entries + [last])[1..] == entries[1..] + [last];
    }
  }

  lemma {:induction false} SortPrintLength(v: Value)
    requires Fits(v)
    ensures Fits(Sort(v)) && |Print(Sort(v))| == |Print(v)|
    decreases v, 1
  {
    SortAscends(v);
    match v
    case Array(items) => SortItemsPrintLength(items);
    case Map(entries) =>
      SortValuesPrintLength(entries);
      SortEntriesPrintLength(SortValues(entries));
      SortEntriesMembers(SortValues(entries));
    case _ =>
  }

  lemma {:induction false} SortItemsPrintLength(items: seq<Value>)
    requires FitsItems(items)
    ensures FitsItems(SortItems(items)) && |PrintItems(SortItems(items))| == |PrintItems(items)|
    decreases items, 0
  {
    hide Print;
    if items != [] {
      SortPrintLength(items[0]);
      SortItemsPrintLength(items[1..]);
      assert SortItems(items) == [Sort(items[0])] + SortItems(items[1..]);
    }
  }

  lemma {:induction false} SortValuesPrintLength(entries: seq<Entry>)
    requires FitsEntries(entries)
    ensures FitsEntries(SortValues(entries)) && |PrintEntries(SortValues(entries))| == |PrintEntries(entries)|
    decreases entries, 0
  {
    hide Print;
    if entries != [] {
      assert FitsEntry(entries[0]);
      SortEntryPrintLength(entries[0]);
      SortValuesPrintLength(entries[1..]);
      assert SortValues(entries) == [SortEntry(entries[0])] + SortValues(entries[1..]);
    }
  }

  lemma {:induction false} SortEntryPrintLength(entry: Entry)
    requires FitsEntry(entry)
    ensures FitsEntry(SortEntry(entry)) && |PrintEntry(SortEntry(entry))| == |PrintEntry(entry)|
    decreases entry, 0
  {
    SortPrintLength(entry.value);
  }

  lemma {:induction false} SortKeepsReading(v: Value)
    requires Fits(v) && Reading(Rust, v) == v
    ensures Reading(Rust, Sort(v)) == Sort(v)
  {
    match v
    case Array(items) =>
      forall i | 0 <= i < |items|
        ensures Reading(Rust, Sort(items[i])) == Sort(items[i])
      {
        assert ReadingItems(Rust, items)[i] == items[i];
        SortKeepsReading(items[i]);
      }
      assert ReadingItems(Rust, SortItems(items)) == SortItems(items);
    case Map(entries) =>
      var values := SortValues(entries);
      SortEntriesMembers(values);
      forall e | e in SortEntries(values)
        ensures ReadingEntry(Rust, e) == e
      {
        var i :| 0 <= i < |values| && values[i] == e;
        assert ReadingEntries(Rust, entries)[i] == entries[i] && FitsEntry(entries[i]);
        SortKeepsReading(entries[i].value);
      }
      assert ReadingEntries(Rust, SortEntries(values)) == SortEntries(values);
    case _ =>
  }

  /** Every accepted byte string re-encodes to the same number of bytes and decodes again to the same
      value; it is reproduced byte for byte exactly when every map in it lists its keys in order. */
  lemma AcceptedInput(bytes: seq<byte>)
    requires Decode(bytes).Done?
    ensures var tree, v := Parse(Rust, bytes, 0).value, Decode(bytes).value;
            && RustValue(v)
            && |Print(v)| == |bytes|
            && Decode(Print(v)) == Done(v, |bytes|)
            && (Print(v) == bytes <==> Ascending(tree))
  {
    var tree := Parse(Rust, bytes, 0).value;
    var v := Sort(tree);
    PrintParsed(bytes, 0);
    assert bytes[0..|bytes|] == bytes;
    SortAscends(tree);
    SortPrintLength(tree);
    SortKeepsReading(tree);
    DecodeOfEncode(v);
    SortFixesExactlyAscending(tree);
    if Print(v) == bytes {
      PrintsAreSelfDelimiting(v, tree, [], []);
    }
  }

  // ---------- key order ----------

  /** Heads are the shortest that section 3 of RFC 8949 allows for their argument. */
  lemma HeadIsShortest(major: nat, n: u64, width: nat)
    requires major < 8
    requires (width == 0 && n < 24) || (width in {1, 2, 4, 8} && n < Capacity(width))
    ensures |Head(major, n)| <= 1 + width
  {
    assert Capacity(1) == 0x100 && Capacity(2) == 0x1_0000 && Capacity(4) == 0x1_0000_0000;
  }

  /** Numeric order of arguments is bytewise order of their heads. */
  lemma HeadsKeepOrder(major: nat, a: u64, b: u64)
    requires major < 8
    ensures LexLess(Head(major, a), Head(major, b)) <==> a < b
  {
    if a < b {
      HeadsAscend(major, a, b);
    } else if b < a {
      HeadsAscend(major, b, a);
      LexLessIsAsymmetric(Head(major, b), Head(major, a));
    } else {
      LexLessIsAsymmetric(Head(major, a), Head(major, a));
    }
  }

  lemma HeadsAscend(major: nat, a: u64, b: u64)
    requires major < 8 && a < b
    ensures LexLess(Head(major, a), Head(major, b))
  {
    var x, y := Head(major, a), Head(major, b);
    if x[0] == y[0] && b >= 24 {
      assert Capacity(1) == 0x100 && Capacity(2) == 0x1_0000 && Capacity(4) == 0x1_0000_0000;
      assert Capacity(8) == U64_MAX + 1;
      var width := |x| - 1;
      BigEndianIsLexicographic(a, b, width);
      assert x[1..] == ToBe(a, width) && y[1..] == ToBe(b, width);
    }
  }

  lemma {:induction false} LexLessIsAsymmetric(a: seq<byte>, b: seq<byte>)
    ensures !(LexLess(a, b) && LexLess(b, a))
  {
    if a != [] && b != [] {
      LexLessIsAsymmetric(a[1..], b[1..]);
    }
  }

  /** The rule of section 4.2.1 of RFC 8949: every map lists its keys in bytewise order of their encodings. */
  ghost predicate Deterministic(v: Value) {
    match v
    case Array(items) => forall i | 0 <= i < |items| :: Deterministic(items[i])
    case Map(entries) =>
      && (forall i, j | 0 <= i < j < |entries| :: LexLess(Head(0, entries[i].key), Head(0, entries[j].key)))
      && forall i | 0 <= i < |entries| :: Deterministic(entries[i].value)
    case _ => true
  }

  /** Numeric key order is the standard's key order, at every depth. */
  lemma {:induction false} AscendingIsDeterministic(v: Value)
    ensures Ascending(v) <==> Deterministic(v)
  {
    match v
    case Array(items) =>
      forall i | 0 <= i < |items|
        ensures Ascending(items[i]) <==> Deterministic(items[i])
      {
        AscendingIsDeterministic(items[i]);
      }
    case Map(entries) =>
      forall i | 0 <= i < |entries|
        ensures Ascending(entries[i].value) <==> Deterministic(entries[i].value)
      {
        AscendingIsDeterministic(entries[i].value);
      }
      forall i, j | 0 <= i < j < |entries|
        ensures LexLess(Head(0, entries[i].key), Head(0, entries[j].key)) <==> entries[i].key < entries[j].key
      {
        HeadsKeepOrder(0, entries[i].key, entries[j].key);
      }
    case _ =>
  }
}
