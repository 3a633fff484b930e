/** The encoded form, stated without the printing and parsing functions: initial bytes, arguments, floats, text. */
module CborFormat {
  import opened Bytes
  import opened CborValue
  import opened Cbor
  import opened CborLaws
  import opened CborTheorems
  import Utf8
  import Utf8Laws

  /** The high three bits of the initial byte: table 1 of RFC 8949. */
  function MajorType(v: Value): (major: nat) {
    match v
    case U64(_) => 0
    case I64(i) => if i < 0 then 1 else 0
    case Bytes(_) => 2
    case Text(_) => 3
    case Array(_) => 4
    case Map(_) => 5
    case _ => 7
  }

  /** The low five bits of the initial byte of major type 7: tables 3 and 4 of RFC 8949. */
  function SimpleValue(v: Value): (info: nat)
    ensures info < 32
  {
    match v case Bool(b) => (if b then 21 else 20) case Null => 22 case _ => 27
  }

  /** The number in the head: the integer, what a negative integer is short of -1, or a length. */
  function ArgumentOf(v: Value): (n: int)
    requires MajorType(v) < 6
  {
    match v
    case U64(u) => u
    case I64(i) => if i < 0 then -1 - i else i
    case Bytes(bytes) => |bytes|
    case Text(utf8) => |utf8|
    case Array(items) => |items|
    case Map(entries) => |entries|
  }

  /** How many bytes spell the number: table 2 of RFC 8949. */
  function Following(info: nat): (width: nat) {
    match info case 24 => 1 case 25 => 2 case 26 => 4 case 27 => 8 case _ => 0
  }

  /** A head spells its number: in the low five bits, or big-endian in the 1, 2, 4 or 8 bytes they announce. */
  ghost predicate HeadSpells(head: seq<byte>, major: nat, n: int) {
    && head != [] && head[0] / 32 == major
    && var info := head[0] % 32;
    && info <= 27
    && (info < 24 ==> |head| == 1 && n == info)
    && (info >= 24 ==> |head| == 1 + Following(info) && n == FromBe(head[1..]))
  }

  lemma WideHeadIsSpelled(major: nat, info: nat, n: u64)
    requires major < 8 && 24 <= info <= 27 && n < Capacity(Following(info))
    ensures HeadSpells([32 * major + info] + ToBe(n, Following(info)), major, n)
  {
    hide ToBe, FromBe, Capacity;
    FromBeOfToBe(n, Following(info));
    LeadByteSplits(major, info);
    var head := [32 * major + info] + ToBe(n, Following(info));
    assert head[0] == 32 * major + info && head[1..] == ToBe(n, Following(info));
  }

  lemma HeadIsSpelled(major: nat, n: u64)
    requires major < 8
    ensures HeadSpells(Head(major, n), major, n)
  {
    hide ToBe, FromBe, Capacity;
    Capacities();
    if n >= 24 {
      var info := if n <= 0xFF then 24 else if n <= 0xFFFF then 25 else if n <= 0xFFFF_FFFF then 26 else 27;
      WideHeadIsSpelled(major, info, n);
      assert Head(major, n) == [32 * major + info] + ToBe(n, Following(info));
      hide HeadSpells;
    }
  }

  /** Every print of an integer, string, list or map begins with a head of its major type that spells its
      number; simple values and floats begin with the bytes that section 3.3 of RFC 8949 gives them. */
  lemma PrintBeginsWithHead(v: Value)
    requires Fits(v)
    ensures MajorType(v) < 6 ==> exists n | 0 < n <= |Print(v)| :: HeadSpells(Print(v)[..n], MajorType(v), ArgumentOf(v))
    ensures MajorType(v) == 7 ==> Print(v)[0] == 0xE0 + SimpleValue(v)
    ensures v.F64? ==> |Print(v)| == 9 && FromBe(Print(v)[1..]) == v.bits
  {
    hide Head, PrintItems, PrintEntries, ToBe, FromBe;
    if MajorType(v) < 6 {
      var head := Head(MajorType(v), ArgumentOf(v));
      HeadIsSpelled(MajorType(v), ArgumentOf(v));
      assert Print(v)[..|head|] == head;
    } else if v.F64? {
      assert Capacity(8) == U64_MAX + 1;
      FromBeOfToBe(v.bits, 8);
      assert Print(v)[1..] == ToBe(v.bits, 8);
    }
  }

  /** A number spelled in 1, 2, 4 or 8 bytes: Rust takes it exactly if no shorter head can hold it, TypeScript
      exactly if it is safe. */
  lemma WideFormIsRead(d: Dialect, additional: nat, n: nat, rest: seq<byte>)
    requires 24 <= additional <= 27 && n < Capacity(Following(additional))
    ensures
      var width := Following(additional);
      var r := Argument(d, additional, ToBe(n, width) + rest, 0);
      && n <= U64_MAX
      && (d.Rust? ==> r == if |Head(0, n)| < 1 + width then Fail(NonCanonicalInteger) else Done(n, width))
      && (d.Js? ==> r == if n > MAX_SAFE then Fail(OutsideSafeRange) else Done(n, width))
  {
    hide ToBe, FromBe, Capacity;
    var width := Following(additional);
    Capacities();
    FromBeOfToBe(n, width);
    var bytes := ToBe(n, width) + rest;
    assert bytes[0..width] == ToBe(n, width);
    HeadLength(n);
    hide Head;
  }

  lemma HeadLength(n: u64)
    ensures |Head(0, n)| == if n < 24 then 1 else if n <= 0xFF then 2 else if n <= 0xFFFF then 3
                            else if n <= 0xFFFF_FFFF then 5 else 9
  {
    hide ToBe;
  }

  /** The forms that the profile does not have: tags, reserved and indefinite lengths, other simple values. */
  lemma OtherFormsAreRefused(d: Dialect, bytes: seq<byte>)
    requires bytes != []
    requires
      var major, info := bytes[0] / 32, bytes[0] % 32;
      major == 6 || (info >= 28) || (major == 7 && info !in {20, 21, 22, 27})
    ensures Parse(d, bytes, 0) == Fail(UnsupportedType)
  {
  }

  /** A float is finite exactly if its magnitude is below that of infinity. */
  lemma FiniteIsBelowInfinity(bits: u64)
    ensures Finite(bits) <==> bits % 0x8000_0000_0000_0000 < 0x7FF0_0000_0000_0000
  {
    var e := bits / 0x10_0000_0000_0000;
    assert e % 0x800 == e - e / 0x800 * 0x800;
    assert bits / 0x8000_0000_0000_0000 == e / 0x800;
  }

  /** The texts that can be encoded and are read back are exactly the encodings of scalar values. */
  lemma TextIsReadExactly(d: Dialect, utf8: seq<byte>, rest: seq<byte>)
    requires |utf8| <= MAX_SAFE
    ensures
      var r := Parse(d, Head(3, |utf8|) + utf8 + rest, 0);
      r == if exists scalars :: Utf8Laws.EncodeAll(scalars) == utf8
           then Done(Text(StripBom(d, utf8)), |Head(3, |utf8|)| + |utf8|) else Fail(InvalidUtf8)
  {
    hide Parse, Head, StripBom, Utf8.Valid;
    var bytes := Head(3, |utf8|) + utf8 + rest;
    assert At(bytes, 0, Head(3, |utf8|));
    ParseBehindHead(d, 3, |utf8|, bytes, 0);
    Utf8Laws.ValidIsEncoded(utf8);
    assert bytes[|Head(3, |utf8|)|..|Head(3, |utf8|)| + |utf8|] == utf8;
  }
}
