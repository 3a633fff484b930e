/** Machine integers and big-endian byte strings. */
module Bytes {
  const U64_MAX: int := 0xFFFF_FFFF_FFFF_FFFF
  const I64_MAX: int := 0x7FFF_FFFF_FFFF_FFFF

  type byte = b: int | 0 <= b < 0x100
  type u64 = n: int | 0 <= n <= U64_MAX
  type i64 = n: int | -I64_MAX - 1 <= n <= I64_MAX

  function Concat(chunks: seq<seq<byte>>): (bytes: seq<byte>)
  {
    if chunks == [] then [] else chunks[0] + Concat(chunks[1..])
  }

  /** One more than the largest value that fits in `width` bytes. */
  function Capacity(width: nat): (c: nat)
    ensures c > 0
  {
    if width == 0 then 1 else 256 * Capacity(width - 1)
  }

  function FromBe(s: seq<byte>): (n: nat)
  {
    if s == [] then 0 else FromBe(s[..|s| - 1]) * 256 + s[|s| - 1]
  }

  function ToBe(n: nat, width: nat): (s: seq<byte>)
    ensures |s| == width
  {
    if width == 0 then [] else ToBe(n / 256, width - 1) + [n % 256]
  }

  lemma {:induction false} FromBeOfToBe(n: nat, width: nat)
    requires n < Capacity(width)
    ensures FromBe(ToBe(n, width)) == n
  {
    if width > 0 {
      FromBeOfToBe(n / 256, width - 1);
      assert ToBe(n, width)[..width - 1] == ToBe(n / 256, width - 1);
    }
  }

  lemma {:induction false} ToBeOfFromBe(s: seq<byte>)
    ensures FromBe(s) < Capacity(|s|)
    ensures ToBe(FromBe(s), |s|) == s
  {
    if s != [] {
      ToBeOfFromBe(s[..|s| - 1]);
      assert s == s[..|s| - 1] + [s[|s| - 1]];
    }
  }

  /** Bytewise lexicographic order, the key order of section 4.2.1 of RFC 8949. */
  predicate LexLess(a: seq<byte>, b: seq<byte>) {
    b != [] && (a == [] || a[0] < b[0] || (a[0] == b[0] && LexLess(a[1..], b[1..])))
  }

  /** On strings of one width, big-endian order is lexicographic order. */
  lemma {:induction false} BigEndianIsLexicographic(a: nat, b: nat, width: nat)
    requires a < b < Capacity(width)
    ensures LexLess(ToBe(a, width), ToBe(b, width))
  {
    if width > 0 {
      if a / 256 < b / 256 {
        BigEndianIsLexicographic(a / 256, b / 256, width - 1);
        LexLessExtends(ToBe(a / 256, width - 1), ToBe(b / 256, width - 1), [a % 256], [b % 256]);
      } else {
        LexLessAfterPrefix(ToBe(a / 256, width - 1), [a % 256], [b % 256]);
      }
    }
  }

  lemma {:induction false} LexLessExtends(a: seq<byte>, b: seq<byte>, x: seq<byte>, y: seq<byte>)
    requires |a| == |b| && LexLess(a, b)
    ensures LexLess(a + x, b + y)
  {
    if a[0] == b[0] {
      LexLessExtends(a[1..], b[1..], x, y);
      assert (a + x)[1..] == a[1..] + x && (b + y)[1..] == b[1..] + y;
    }
  }

  lemma {:induction false} LexLessAfterPrefix(p: seq<byte>, x: seq<byte>, y: seq<byte>)
    requires LexLess(x, y)
    ensures LexLess(p + x, p + y)
  {
    if p == [] {
      assert p + x == x && p + y == y;
    } else {
      LexLessAfterPrefix(p[1..], x, y);
      assert (p + x)[1..] == p[1..] + x && (p + y)[1..] == p[1..] + y;
    }
  }
}
