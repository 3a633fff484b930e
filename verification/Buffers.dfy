/** What the two imperative codecs share: the vector they append to, and how a run of a reader is
    compared with the parsing function it implements. */
module Buffers {
  import opened Wrappers
  import opened Bytes
  import opened Cbor

  /** A byte vector grown in place: `Vec<u8>` in Rust, `number[]` in TypeScript. */
  class ByteVec {
    var bytes: seq<byte>

    constructor ()
      ensures bytes == []
    {
      bytes := [];
    }

    method Push(b: byte)
      modifies this
      ensures bytes == old(bytes) + [b]
    {
      bytes := bytes + [b];
    }

    method Extend(more: seq<byte>)
      modifies this
      ensures bytes == old(bytes) + more
    {
      bytes := bytes + more;
    }
  }

  /** The run gave `r` and left the cursor at `position`, as the specification `spec` says. */
  ghost predicate Follows<T(!new)>(spec: Parsed<T>, r: Result<T, CborError>, position: nat) {
    match spec
    case Done(value, next) => r == Ok(value) && position == next
    case Fail(error) => r == Err(error)
  }

  lemma OneByte(n: byte)
    ensures ToBe(n, 1) == [n]
  {
  }
}
