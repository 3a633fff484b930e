/** Well-formed UTF-8 (table 3-7 of the Unicode standard), as `String::from_utf8` and
    `String::from_utf8_lossy` treat it. */
module Utf8 {
  import opened Bytes

  predicate Continuation(b: byte) {
    0x80 <= b <= 0xBF
  }

  predicate ThreeByteStart(lead: byte, second: byte) {
    || (lead == 0xE0 && 0xA0 <= second <= 0xBF)
    || (lead == 0xED && 0x80 <= second <= 0x9F)
    || (0xE1 <= lead <= 0xEF && lead != 0xED && Continuation(second))
  }

  predicate FourByteStart(lead: byte, second: byte) {
    || (lead == 0xF0 && 0x90 <= second <= 0xBF)
    || (lead == 0xF4 && 0x80 <= second <= 0x8F)
    || (0xF1 <= lead <= 0xF3 && Continuation(second))
  }

  /** The length of the scalar value that `s` begins with, or 0 if it begins with none. */
  function ScalarLength(s: seq<byte>): (n: nat)
    ensures n <= |s|
  {
    if |s| >= 1 && s[0] <= 0x7F then 1
    else if |s| >= 2 && 0xC2 <= s[0] <= 0xDF && Continuation(s[1]) then 2
    else if |s| >= 3 && ThreeByteStart(s[0], s[1]) && Continuation(s[2]) then 3
    else if |s| >= 4 && FourByteStart(s[0], s[1]) && Continuation(s[2]) && Continuation(s[3]) then 4
    else 0
  }

  predicate Valid(s: seq<byte>) {
    s == [] || (ScalarLength(s) > 0 && Valid(s[ScalarLength(s)..]))
  }

  /** How many bytes one replacement character stands for when `s` starts ill-formed. */
  function BadLength(s: seq<byte>): (n: nat)
    requires s != []
    ensures 1 <= n <= |s|
  {
    if |s| >= 3 && FourByteStart(s[0], s[1]) && Continuation(s[2]) then 3
    else if |s| >= 2 && (ThreeByteStart(s[0], s[1]) || FourByteStart(s[0], s[1])) then 2
    else 1
  }

  const REPLACEMENT: seq<byte> := [0xEF, 0xBF, 0xBD]

  function Lossy(s: seq<byte>): (r: seq<byte>)
  {
    if s == [] then []
    else if ScalarLength(s) > 0 then s[..ScalarLength(s)] + Lossy(s[ScalarLength(s)..])
    else REPLACEMENT + Lossy(s[BadLength(s)..])
  }

  lemma {:induction false} LossyKeepsValid(s: seq<byte>)
    requires Valid(s)
    ensures Lossy(s) == s
  {
    if s != [] {
      LossyKeepsValid(s[ScalarLength(s)..]);
    }
  }

  lemma {:induction false} LossyIsValid(s: seq<byte>)
    ensures Valid(Lossy(s))
  {
    if s != [] {
      if ScalarLength(s) > 0 {
        LossyIsValid(s[ScalarLength(s)..]);
        ScalarThenRest(s[..ScalarLength(s)], Lossy(s[ScalarLength(s)..]));
      } else {
        LossyIsValid(s[BadLength(s)..]);
        ScalarThenRest(REPLACEMENT, Lossy(s[BadLength(s)..]));
      }
    }
  }

  lemma ScalarThenRest(scalar: seq<byte>, rest: seq<byte>)
    requires scalar != [] && ScalarLength(scalar) == |scalar|
    ensures ScalarLength(scalar + rest) == |scalar|
    ensures Valid(scalar + rest) == Valid(rest)
  {
    assert (scalar + rest)[|scalar|..] == rest;
  }

  lemma FirstScalar(s: seq<byte>)
    requires ScalarLength(s) > 0
    ensures ScalarLength(s[..ScalarLength(s)]) == ScalarLength(s)
  {
  }

  lemma {:induction false} ConcatValid(a: seq<byte>, b: seq<byte>)
    requires Valid(a)
    ensures Valid(a + b) == Valid(b)
  {
    if a == [] {
      assert a + b == b;
    } else {
      hide ScalarLength;
      var n := ScalarLength(a);
      ConcatValid(a[n..], b);
      FirstScalar(a);
      ScalarThenRest(a[..n], a[n..] + b);
      assert a[..n] + (a[n..] + b) == a + b;
    }
  }

  lemma {:induction false} AsciiValid(s: seq<byte>)
    requires forall i | 0 <= i < |s| :: s[i] <= 0x7F
    ensures Valid(s)
  {
    if s != [] {
      AsciiValid(s[1..]);
    }
  }
}
