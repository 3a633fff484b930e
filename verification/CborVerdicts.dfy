/** A decoder asks for more input exactly when more input can change its verdict. */
module CborVerdicts {
  import opened Bytes
  import opened CborValue
  import opened Cbor
  import opened CborLaws
  import opened CborTheorems

  function Zeros(k: nat): (s: seq<byte>)
    ensures |s| == k && forall i | 0 <= i < k :: s[i] == 0
  {
    seq(k, i => 0)
  }

  /** The input with `k` zero bytes behind it. */
  function Padded(bytes: seq<byte>, k: nat): (s: seq<byte>)
    ensures |s| == |bytes| + k
  {
    bytes + Zeros(k)
  }

  ghost predicate Settled<T(!new)>(r: Parsed<T>) {
    r != Fail(UnexpectedEnd)
  }

  /** How much of the input itself is left. */
  function Left(bytes: seq<byte>, pos: nat): (n: nat) {
    if pos < |bytes| then |bytes| - pos else 0
  }

  lemma PaddingContinues(bytes: seq<byte>, k: nat, k': nat, pos: nat)
    requires k <= k' && pos <= |bytes| + k
    ensures Continues(Padded(bytes, k), pos, Padded(bytes, k'), pos)
  {
    PrefixContinues(Padded(bytes, k), Padded(bytes, k'), pos);
  }

  lemma ParseStays(d: Dialect, bytes: seq<byte>, k: nat, k': nat, pos: nat)
    requires k <= k' && pos <= |bytes| + k && Settled(Parse(d, Padded(bytes, k), pos))
    ensures Parse(d, Padded(bytes, k'), pos) == Parse(d, Padded(bytes, k), pos)
  {
    hide Parse, Padded;
    PaddingContinues(bytes, k, k', pos);
    ParseCarriesOver(d, Padded(bytes, k), pos, Padded(bytes, k'), pos);
  }

  lemma EntryStays(d: Dialect, bytes: seq<byte>, k: nat, k': nat, pos: nat, acc: seq<Entry>)
    requires k <= k' && pos <= |bytes| + k && Settled(ParseEntry(d, Padded(bytes, k), pos, acc))
    ensures ParseEntry(d, Padded(bytes, k'), pos, acc) == ParseEntry(d, Padded(bytes, k), pos, acc)
  {
    hide ParseEntry, Padded;
    PaddingContinues(bytes, k, k', pos);
    EntryCarriesOver(d, Padded(bytes, k), pos, Padded(bytes, k'), pos, acc);
  }

  lemma ArgumentStays(d: Dialect, additional: nat, bytes: seq<byte>, k: nat, k': nat, pos: nat)
    requires k <= k' && pos <= |bytes| + k && Settled(Argument(d, additional, Padded(bytes, k), pos))
    ensures Argument(d, additional, Padded(bytes, k'), pos) == Argument(d, additional, Padded(bytes, k), pos)
  {
    hide Argument, Padded;
    PaddingContinues(bytes, k, k', pos);
    ArgumentCarriesOver(d, additional, Padded(bytes, k), pos, Padded(bytes, k'), pos);
  }

  // ---------- zeros ----------

  lemma ParseZero(d: Dialect, bytes: seq<byte>, pos: nat)
    requires pos < |bytes| && bytes[pos] == 0
    ensures Parse(d, bytes, pos) == Done(U64(0), pos + 1)
  {
  }

  lemma {:induction false} ParseZeroItems(d: Dialect, bytes: seq<byte>, pos: nat, count: nat, acc: seq<Value>)
    requires pos + count <= |bytes| && forall i | pos <= i < |bytes| :: bytes[i] == 0
    ensures ParseItems(d, bytes, pos, count, acc).Done?
    decreases count
  {
    hide Parse;
    if count > 0 {
      ParseZero(d, bytes, pos);
      ParseZeroItems(d, bytes, pos + 1, count - 1, acc + [U64(0)]);
    }
  }

  lemma {:induction false} ParseZeroEntries(d: Dialect, bytes: seq<byte>, pos: nat, count: nat, acc: seq<Entry>)
    requires pos + 2 * count <= |bytes| && forall i | pos <= i < |bytes| :: bytes[i] == 0
    ensures Settled(ParseEntries(d, bytes, pos, count, acc))
    decreases count
  {
    hide Parse;
    if count > 0 {
      ParseZero(d, bytes, pos);
      ParseZero(d, bytes, pos + 1);
      if !HasKey(acc, 0) {
        ParseZeroEntries(d, bytes, pos + 2, count - 1, acc + [Entry(0, U64(0))]);
      }
    }
  }

  // ---------- enough zeros settle every verdict ----------

  lemma {:induction false} ParseSettles(d: Dialect, bytes: seq<byte>, pos: nat) returns (k: nat)
    requires pos <= |bytes|
    ensures Settled(Parse(d, Padded(bytes, k), pos))
    decreases Left(bytes, pos), 0
  {
    hide Argument, ParseContent;
    if pos == |bytes| {
      ParseZero(d, Padded(bytes, 1), pos);
      return 1;
    }
    var major, additional := bytes[pos] / 32, bytes[pos] % 32;
    k := 8;
    if major < 6 {
      ArgumentSettles(d, additional, bytes, pos + 1);
      var arg := Argument(d, additional, Padded(bytes, 8), pos + 1);
      if arg.Done? {
        k := ContentSettles(d, major, arg.value, bytes, arg.next);
        ArgumentStays(d, additional, bytes, 8, k, pos + 1);
      }
    }
  }

  lemma ArgumentSettles(d: Dialect, additional: nat, bytes: seq<byte>, pos: nat)
    requires pos <= |bytes|
    ensures
      var r := Argument(d, additional, Padded(bytes, 8), pos);
      Settled(r) && (r.Done? ==> pos <= r.next <= |bytes| + 8)
  {
  }

  lemma {:induction false} ContentSettles(d: Dialect, major: nat, n: u64, bytes: seq<byte>, pos: nat) returns (k: nat)
    requires major < 6 && pos <= |bytes| + 8
    ensures k >= 8 && Settled(ParseContent(d, major, n, Padded(bytes, k), pos))
    decreases Left(bytes, pos), 3
  {
    hide ParseItems, ParseEntries, Padded;
    match major
    case 4 => k := ItemsSettle(d, bytes, 8, pos, n, []);
    case 5 => k := EntriesSettle(d, bytes, 8, pos, n, []);
    case _ => k := 8 + n;
  }

  lemma {:induction false} ItemsSettle(d: Dialect, bytes: seq<byte>, m: nat, pos: nat, count: nat, acc: seq<Value>)
      returns (k: nat)
    requires pos <= |bytes| + m
    ensures k >= m && Settled(ParseItems(d, Padded(bytes, k), pos, count, acc))
    decreases Left(bytes, pos), 2, count
  {
    hide Parse;
    k := m;
    if count > 0 && pos >= |bytes| {
      k := m + count;
      ParseZeroItems(d, Padded(bytes, k), pos, count, acc);
    } else if count > 0 {
      var first := ParseSettles(d, bytes, pos);
      k := if first > m then first else m;
      ParseStays(d, bytes, first, k, pos);
      var item := Parse(d, Padded(bytes, k), pos);
      if item.Done? {
        var k' := ItemsSettle(d, bytes, k, item.next, count - 1, acc + [item.value]);
        ParseStays(d, bytes, k, k', pos);
        k := k';
      }
    }
  }

  lemma {:induction false} EntriesSettle(d: Dialect, bytes: seq<byte>, m: nat, pos: nat, count: nat, acc: seq<Entry>)
      returns (k: nat)
    requires pos <= |bytes| + m
    ensures k >= m && Settled(ParseEntries(d, Padded(bytes, k), pos, count, acc))
    decreases Left(bytes, pos), 2, count
  {
    hide ParseEntry;
    k := m;
    if count > 0 && pos >= |bytes| {
      k := m + 2 * count;
      ParseZeroEntries(d, Padded(bytes, k), pos, count, acc);
    } else if count > 0 {
      k := EntrySettles(d, bytes, m, pos, acc);
      var entry := ParseEntry(d, Padded(bytes, k), pos, acc);
      if entry.Done? {
        var k' := EntriesSettle(d, bytes, k, entry.next, count - 1, acc + [entry.value]);
        EntryStays(d, bytes, k, k', pos, acc);
        k := k';
      }
    }
  }

  lemma {:induction false} EntrySettles(d: Dialect, bytes: seq<byte>, m: nat, pos: nat, acc: seq<Entry>) returns (k: nat)
    requires pos < |bytes|
    ensures k >= m && Settled(ParseEntry(d, Padded(bytes, k), pos, acc))
    decreases Left(bytes, pos), 1
  {
    hide Parse;
    var first := ParseSettles(d, bytes, pos);
    k := if first > m then first else m;
    ParseStays(d, bytes, first, k, pos);
    var key := Parse(d, Padded(bytes, k), pos);
    if key.Done? {
      var second := ValueSettles(d, bytes, k, key.next);
      ParseStays(d, bytes, k, second, pos);
      k := second;
    }
  }

  lemma {:induction false} ValueSettles(d: Dialect, bytes: seq<byte>, m: nat, pos: nat) returns (k: nat)
    requires pos <= |bytes| + m
    ensures k >= m && Settled(Parse(d, Padded(bytes, k), pos))
    decreases Left(bytes, pos), 1
  {
    hide Parse;
    if pos >= |bytes| {
      k := m + 1;
      ParseZero(d, Padded(bytes, k), pos);
    } else {
      var first := ParseSettles(d, bytes, pos);
      k := if first > m then first else m;
      ParseStays(d, bytes, first, k, pos);
    }
  }

  /** The decoder reports a premature end exactly if some continuation of the input changes its verdict. */
  lemma NeedsMoreExactly(d: Dialect, bytes: seq<byte>)
    ensures Parse(d, bytes, 0) == Fail(UnexpectedEnd) <==> exists more :: Parse(d, bytes + more, 0) != Parse(d, bytes, 0)
  {
    hide Parse;
    if Parse(d, bytes, 0) == Fail(UnexpectedEnd) {
      var k := ParseSettles(d, bytes, 0);
      assert Parse(d, bytes + Zeros(k), 0) != Parse(d, bytes, 0);
    }
    if more :| Parse(d, bytes + more, 0) != Parse(d, bytes, 0) {
      VerdictsAreStable(d, bytes, more);
    }
  }
}
