/** The Rust and the TypeScript codec side by side. */
module CborAgreement {
  import opened Wrappers
  import opened Buffers
  import opened Bytes
  import opened CborValue
  import opened Cbor
  import opened CborLaws
  import opened CborTheorems
  import RustCbor
  import JsCbor
  import Utf8

  /** No text starts with a byte-order mark. */
  ghost predicate NoBom(v: Value) {
    match v
    case Text(utf8) => !(BOM <= utf8)
    case Array(items) => forall i | 0 <= i < |items| :: NoBom(items[i])
    case Map(entries) => forall i | 0 <= i < |entries| :: NoBom(entries[i].value)
    case _ => true
  }

  lemma {:induction false} BomIsTheOnlyDifference(v: Value)
    requires Reading(Rust, v) == v
    ensures Reading(Js, v) == v <==> NoBom(v)
  {
    match v
    case Array(items) =>
      forall i | 0 <= i < |items|
        ensures Reading(Js, items[i]) == items[i] <==> NoBom(items[i])
      {
        assert ReadingItems(Rust, items)[i] == items[i];
        BomIsTheOnlyDifference(items[i]);
      }
      assert Reading(Js, v) == v <==> forall i | 0 <= i < |items| :: ReadingItems(Js, items)[i] == items[i];
    case Map(entries) =>
      forall i | 0 <= i < |entries|
        ensures ReadingEntry(Js, entries[i]) == entries[i] <==> NoBom(entries[i].value)
      {
        assert ReadingEntries(Rust, entries)[i] == entries[i];
        BomIsTheOnlyDifference(entries[i].value);
      }
      assert Reading(Js, v) == v <==> forall i | 0 <= i < |entries| :: ReadingEntries(Js, entries)[i] == entries[i];
    case _ =>
  }

  /** On input that the Rust decoder accepts, the TypeScript decoder reads the same tree exactly when all
      its numbers are safe and finite and no text starts with a byte-order mark; otherwise it reports an
      error that is not "needs more input", or drops the marks. */
  lemma DecodersAgree(bytes: seq<byte>, pos: nat)
    requires pos <= |bytes| && Parse(Rust, bytes, pos).Done?
    ensures var rust, js := Parse(Rust, bytes, pos), Parse(Js, bytes, pos);
            && Reads(js, Readable(Js, rust.value), Reading(Js, rust.value), rust.next)
            && (js == rust <==> Readable(Js, rust.value) && NoBom(rust.value))
  {
    hide Parse, Print, Readable, Reading, NoBom, Fits;
    PrintParsed(bytes, pos);
    ParsePrinted(Js, Parse(Rust, bytes, pos).value, bytes, pos);
    BomIsTheOnlyDifference(Parse(Rust, bytes, pos).value);
  }

  /** The smallest text on which the two decoders differ: a lone byte-order mark. */
  lemma LoneBomIsReadDifferently()
    ensures Parse(Rust, [0x63] + BOM, 0) == Done(Text(BOM), 4)
    ensures Parse(Js, [0x63] + BOM, 0) == Done(Text([]), 4)
  {
    var v := Text(BOM);
    LoneBomPrints();
    assert Readable(Rust, v) && Readable(Js, v);
    assert Reading(Rust, v) == v && Reading(Js, v) == Text([]) by {
      assert BOM[3..] == [];
    }
    assert Print(v) + [] == Print(v);
    hide Parse, Print, Reading, Readable, Fits;
    RoundTripWithSuffix(Rust, v, []);
    RoundTripWithSuffix(Js, v, []);
  }

  /** The head of a long array alone: Rust waits for the items, TypeScript refuses the length. */
  lemma LongArrayIsRefused(n: nat)
    requires MAX_ARRAY < n <= MAX_SAFE
    ensures Parse(Rust, Head(4, n), 0) == Fail(UnexpectedEnd)
    ensures Parse(Js, Head(4, n), 0) == Fail(InvalidArrayLength)
  {
    hide Parse, Head;
    var bytes := Head(4, n);
    assert bytes[0..|bytes|] == bytes;
    ParseBehindHead(Rust, 4, n, bytes, 0);
    ParseBehindHead(Js, 4, n, bytes, 0);
    NothingToParse(Rust, bytes);
  }

  lemma NothingToParse(d: Dialect, bytes: seq<byte>)
    ensures Parse(d, bytes, |bytes|) == Fail(UnexpectedEnd)
  {
  }

  lemma LoneBomPrints()
    ensures Fits(Text(BOM)) && Print(Text(BOM)) == [0x63] + BOM
  {
    assert Utf8.ScalarLength(BOM) == 3 && BOM[3..] == [];
    assert Head(3, 3) == [0x63];
  }

  /** The two encoders emit the same bytes. */
  method EncodersAgree(v: Value) returns (rust: seq<byte>, js: Result<seq<byte>, CborError>)
    requires RustValue(v) && Readable(Js, v)
    ensures rust == Print(v) && js == Ok(rust)
  {
    rust := RustCbor.Encode(v);
    JsCbor.ReadableIsEncodable(v);
    var out := new ByteVec();
    var r := JsCbor.EncodeValue(v, out);
    SortFixesExactlyAscending(v);
    assert [] + Print(v) == Print(v);
    js := match r case Ok(_) => Ok(out.bytes) case Err(error) => Err(error);
  }
}
