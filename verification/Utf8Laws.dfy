/** Well-formed UTF-8 is what encoding scalar values gives, and lossy decoding replaces maximal parts. */
module Utf8Laws {
  import opened Bytes
  import opened Utf8

  /** The scalar values: code points that are no surrogates. */
  type scalar = c: int | 0 <= c < 0xD800 || 0xDFFF < c <= 0x10FFFF

  /** A continuation byte with the last six bits of the number. */
  function Six(n: nat): (b: byte) {
    0x80 + n % 64
  }

  /** The first byte: a marker of the length and the first bits. */
  function Lead(marker: nat, bits: nat): (s: seq<byte>)
    requires marker + bits < 0x100
    ensures |s| == 1
  {
    var b: byte := marker + bits;
    [b]
  }

  /** The UTF-8 encoding form (definition D92 of the Unicode standard), in arithmetic. */
  function Encode(c: scalar): (s: seq<byte>)
    ensures 1 <= |s| <= 4
  {
    if c < 0x80 then Lead(0, c)
    else if c < 0x800 then Lead(0xC0, c / 64) + [Six(c)]
    else if c < 0x1_0000 then Lead(0xE0, c / 64 / 64) + [Six(c / 64), Six(c)]
    else Lead(0xF0, c / 64 / 64 / 64) + [Six(c / 64 / 64), Six(c / 64), Six(c)]
  }

  function EncodeAll(scalars: seq<scalar>): (s: seq<byte>) {
    if scalars == [] then [] else Encode(scalars[0]) + EncodeAll(scalars[1..])
  }

  /** One more group of six bits. */
  function Shift(n: int, b: byte): (r: int) {
    n * 64 + (b - 0x80) as int
  }

  /** The number that the bytes at the front of `s` spell. */
  function Spelled(s: seq<byte>): (c: scalar)
    requires ScalarLength(s) > 0
  {
    var lead := s[0] as int;
    match ScalarLength(s)
    case 1 => lead
    case 2 => Shift(lead - 0xC0, s[1])
    case 3 => Shift(Shift(lead - 0xE0, s[1]), s[2])
    case _ => Shift(Shift(Shift(lead - 0xF0, s[1]), s[2]), s[3])
  }

  lemma ShiftSplits(n: nat, b: byte)
    requires Continuation(b)
    ensures Shift(n, b) >= 0 && Shift(n, b) / 64 == n && Six(Shift(n, b)) == b
  {
  }

  lemma TwoSpelled(s: seq<byte>)
    requires ScalarLength(s) == 2
    ensures Encode(Spelled(s)) == s[..2]
  {
    ShiftSplits(s[0] as int - 0xC0, s[1]);
    hide Six, Shift;
  }

  lemma ThreeSpelled(s: seq<byte>)
    requires ScalarLength(s) == 3
    ensures Encode(Spelled(s)) == s[..3]
  {
    var top := s[0] as int - 0xE0;
    ShiftSplits(top, s[1]);
    ShiftSplits(Shift(top, s[1]), s[2]);
    assert 0x800 <= Spelled(s) < 0x1_0000;
    hide Six, Shift, ThreeByteStart;
  }

  lemma FourSpelled(s: seq<byte>)
    requires ScalarLength(s) == 4
    ensures Encode(Spelled(s)) == s[..4]
  {
    var top := s[0] as int - 0xF0;
    var high := Shift(top, s[1]);
    var low := Shift(high, s[2]);
    ShiftSplits(top, s[1]);
    ShiftSplits(high, s[2]);
    ShiftSplits(low, s[3]);
    var c := Spelled(s);
    assert c == Shift(low, s[3]) && 0x1_0000 <= c;
    hide Six, Shift, ThreeByteStart, FourByteStart, ScalarLength, Spelled;
    assert c / 64 == low && c / 64 / 64 == high && c / 64 / 64 / 64 == top;
    assert Encode(c) == Lead(0xF0, top) + [Six(high), Six(low), Six(c)];
    assert s[..4] == [s[0], s[1], s[2], s[3]];
  }

  lemma EncodeOfSpelled(s: seq<byte>)
    requires ScalarLength(s) > 0
    ensures Encode(Spelled(s)) == s[..ScalarLength(s)]
  {
    var n := ScalarLength(s);
    if n == 2 {
      TwoSpelled(s);
    } else if n == 3 {
      ThreeSpelled(s);
    } else if n == 4 {
      FourSpelled(s);
    }
  }

  lemma SixRejoins(n: nat)
    ensures Continuation(Six(n)) && Shift(n / 64, Six(n)) == n
  {
  }

  lemma ThreeStart(high: nat, middle: byte, c: scalar)
    requires Continuation(middle) && 0x800 <= c < 0x1_0000
    requires 64 * Shift(high, middle) <= c < 64 * Shift(high, middle) + 64
    ensures high < 16 && ThreeByteStart(0xE0 + high, middle)
  {
  }

  lemma FourStart(top: nat, high: byte, c: scalar)
    requires Continuation(high) && 0x1_0000 <= c
    requires 4096 * Shift(top, high) <= c < 4096 * Shift(top, high) + 4096
    ensures top < 8 && FourByteStart(0xF0 + top, high)
  {
  }

  lemma TwoBytes(c: scalar, rest: seq<byte>)
    requires 0x80 <= c < 0x800
    ensures ScalarLength(Encode(c) + rest) == 2 == |Encode(c)| && Spelled(Encode(c) + rest) == c
  {
    SixRejoins(c);
    hide Six, Shift;
  }

  lemma ThreeBytes(c: scalar, rest: seq<byte>)
    requires 0x800 <= c < 0x1_0000
    ensures ScalarLength(Encode(c) + rest) == 3 == |Encode(c)| && Spelled(Encode(c) + rest) == c
  {
    var low := c / 64;
    SixRejoins(c);
    SixRejoins(low);
    ThreeStart(low / 64, Six(low), c);
    var s := Encode(c) + rest;
    hide Six, Shift, ThreeByteStart;
    assert s[0] == 0xE0 + low / 64 && s[1] == Six(low) && s[2] == Six(c);
  }

  lemma FourBytes(c: scalar, rest: seq<byte>)
    requires 0x1_0000 <= c
    ensures ScalarLength(Encode(c) + rest) == 4 == |Encode(c)| && Spelled(Encode(c) + rest) == c
  {
    var low := c / 64;
    var high := low / 64;
    SixRejoins(c);
    SixRejoins(low);
    SixRejoins(high);
    FourStart(high / 64, Six(high), c);
    var s := Encode(c) + rest;
    hide Six, Shift, ThreeByteStart, FourByteStart;
    assert s[0] == 0xF0 + high / 64 && s[1] == Six(high) && s[2] == Six(low) && s[3] == Six(c);
  }

  lemma EncodingIsScalar(c: scalar, rest: seq<byte>)
    ensures ScalarLength(Encode(c) + rest) == |Encode(c)|
    ensures Spelled(Encode(c) + rest) == c
  {
    if c < 0x80 {
      assert (Encode(c) + rest)[0] == c;
    } else if c < 0x800 {
      TwoBytes(c, rest);
    } else if c < 0x1_0000 {
      ThreeBytes(c, rest);
    } else {
      FourBytes(c, rest);
    }
    hide ScalarLength, Encode, Spelled;
  }

  /** The scalar values that well-formed text spells. */
  function Scalars(s: seq<byte>): (scalars: seq<scalar>)
    requires Valid(s)
  {
    if s == [] then [] else [Spelled(s)] + Scalars(s[ScalarLength(s)..])
  }

  lemma {:induction false} EncodeAllOfScalars(s: seq<byte>)
    requires Valid(s)
    ensures EncodeAll(Scalars(s)) == s
  {
    hide Spelled, Encode, ScalarLength;
    if s != [] {
      var rest := s[ScalarLength(s)..];
      EncodeOfSpelled(s);
      EncodeAllOfScalars(rest);
      assert ([Spelled(s)] + Scalars(rest))[1..] == Scalars(rest);
    }
  }

  lemma {:induction false} ScalarsOfEncodeAll(scalars: seq<scalar>)
    ensures Valid(EncodeAll(scalars)) && Scalars(EncodeAll(scalars)) == scalars
  {
    hide Spelled, Encode, ScalarLength;
    if scalars != [] {
      var first, rest := Encode(scalars[0]), EncodeAll(scalars[1..]);
      EncodingIsScalar(scalars[0], rest);
      ScalarsOfEncodeAll(scalars[1..]);
      assert (first + rest)[|first|..] == rest;
    }
  }

  /** Text is well formed exactly if it encodes scalar values. */
  lemma ValidIsEncoded(s: seq<byte>)
    ensures Valid(s) <==> exists scalars :: EncodeAll(scalars) == s
  {
    if Valid(s) {
      EncodeAllOfScalars(s);
    }
    if scalars :| EncodeAll(scalars) == s {
      ScalarsOfEncodeAll(scalars);
    }
  }

  // ---------- ill-formed text ----------

  /** Bytes that begin an encoding. */
  ghost predicate Begins(s: seq<byte>) {
    exists c: scalar :: s <= Encode(c)
  }

  lemma Completion(s: seq<byte>, tail: seq<byte>)
    requires ScalarLength(s + tail) == |s + tail|  && s != []
    ensures Begins(s)
  {
    EncodeOfSpelled(s + tail);
    assert (s + tail)[..|s + tail|] == s + tail;
    assert s <= Encode(Spelled(s + tail));
  }

  lemma BeginsTooLong(s: seq<byte>, m: nat, c: scalar)
    requires ScalarLength(s) == 0 && s != [] && BadLength(s) < m <= |s|
    ensures !(s[..m] <= Encode(c))
  {
    if s[..m] <= Encode(c) {
      EncodingIsScalar(c, []);
      var e := Encode(c) + [];
      assert e == Encode(c);
      hide Encode, Spelled;
      assert forall i | 0 <= i < m :: s[i] == e[i];
    }
  }

  /** A replacement character stands for the longest part that begins an encoding, or for one byte if none
      does (substitution of maximal subparts, section 3.9 of the Unicode standard). */
  lemma BadLengthIsMaximal(s: seq<byte>)
    requires s != [] && ScalarLength(s) == 0
    ensures BadLength(s) > 1 ==> Begins(s[..BadLength(s)])
    ensures forall m | BadLength(s) < m <= |s| :: !Begins(s[..m])
  {
    var n := BadLength(s);
    if n == 3 {
      Completion(s[..3], [0x80]);
    } else if n == 2 && ThreeByteStart(s[0], s[1]) {
      Completion(s[..2], [0x80]);
    } else if n == 2 {
      Completion(s[..2], [0x80, 0x80]);
    }
    forall m, c: scalar | BadLength(s) < m <= |s| ensures !(s[..m] <= Encode(c)) {
      BeginsTooLong(s, m, c);
    }
  }

  lemma LossyKeepsScalar(first: seq<byte>, rest: seq<byte>)
    requires first != [] && ScalarLength(first) == |first|
    ensures Lossy(first + rest) == first + Lossy(rest)
  {
    ScalarThenRest(first, rest);
    assert (first + rest)[|first|..] == rest && (first + rest)[..|first|] == first;
    hide ScalarLength;
  }

  lemma LossyReplacesOne(bad: seq<byte>)
    requires bad != [] && ScalarLength(bad) == 0
    ensures Lossy(bad) == Encode(0xFFFD) + Lossy(bad[BadLength(bad)..])
  {
    hide BadLength, ScalarLength;
    assert Encode(0xFFFD) == REPLACEMENT;
  }

  /** Lossy decoding keeps the well-formed text in front and replaces the ill-formed part behind it. */
  lemma {:induction false} LossyReplaces(text: seq<byte>, bad: seq<byte>)
    requires Valid(text) && bad != [] && ScalarLength(bad) == 0
    ensures Lossy(text + bad) == text + Encode(0xFFFD) + Lossy(bad[BadLength(bad)..])
  {
    hide BadLength, Lossy, Encode, ScalarLength;
    if text == [] {
      assert text + bad == bad;
      LossyReplacesOne(bad);
      assert [] + Encode(0xFFFD) == Encode(0xFFFD);
    } else {
      var n := ScalarLength(text);
      FirstScalar(text);
      LossyReplaces(text[n..], bad);
      LossyKeepsScalar(text[..n], text[n..] + bad);
      assert text[..n] + (text[n..] + bad) == text + bad;
      var later := Encode(0xFFFD) + Lossy(bad[BadLength(bad)..]);
      assert text[..n] + (text[n..] + later) == text + later;
      assert text[n..] + Encode(0xFFFD) + Lossy(bad[BadLength(bad)..]) == text[n..] + later;
      assert text + Encode(0xFFFD) + Lossy(bad[BadLength(bad)..]) == text + later;
    }
  }
}
