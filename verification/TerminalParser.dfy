/** The escape-sequence parser that learns a terminal's title and working directory from its output. */
module TerminalParser {
  import opened Wrappers
  import opened Bytes
  import Utf8

  const MAX_OSC_METADATA_BYTES: nat := 4096

  const ESC: byte := 0x1B
  const BEL: byte := 0x07
  const BACKSLASH: byte := 0x5C
  const SEMICOLON: byte := 0x3B
  const EQUALS: byte := 0x3D
  const SLASH: byte := 0x2F
  const QUOTE: byte := 0x22
  const PERCENT: byte := 0x25
  const LETTER_X: byte := 0x78

  // ---------- text as UTF-8 bytes ----------

  /** The characters with the Unicode property White_Space, which `trim` removes, by the length of their UTF-8
      form. */
  predicate IsSpace(a: byte) {
    0x09 <= a <= 0x0D || a == 0x20
  }

  predicate IsSpacePair(a: byte, b: byte) {
    a == 0xC2 && (b == 0x85 || b == 0xA0)
  }

  predicate IsSpaceTriple(a: byte, b: byte, c: byte) {
    || (a == 0xE1 && b == 0x9A && c == 0x80)
    || (a == 0xE2 && b == 0x80 && (0x80 <= c <= 0x8A || c == 0xA8 || c == 0xA9 || c == 0xAF))
    || (a == 0xE2 && b == 0x81 && c == 0x9F)
    || (a == 0xE3 && b == 0x80 && c == 0x80)
  }

  function LeadingSpace(text: seq<byte>): (n: nat)
    ensures n <= |text|
  {
    if |text| >= 1 && IsSpace(text[0]) then 1
    else if |text| >= 2 && IsSpacePair(text[0], text[1]) then 2
    else if |text| >= 3 && IsSpaceTriple(text[0], text[1], text[2]) then 3
    else 0
  }

  function TrailingSpace(text: seq<byte>): (n: nat)
    ensures n <= |text|
  {
    var n := |text|;
    if n >= 1 && IsSpace(text[n - 1]) then 1
    else if n >= 2 && IsSpacePair(text[n - 2], text[n - 1]) then 2
    else if n >= 3 && IsSpaceTriple(text[n - 3], text[n - 2], text[n - 1]) then 3
    else 0
  }

  function TrimStart(text: seq<byte>): (r: seq<byte>)
  {
    if LeadingSpace(text) == 0 then text else TrimStart(text[LeadingSpace(text)..])
  }

  function TrimEnd(text: seq<byte>): (r: seq<byte>)
  {
    if TrailingSpace(text) == 0 then text else TrimEnd(text[..|text| - TrailingSpace(text)])
  }

  function Trim(text: seq<byte>): (r: seq<byte>)
  {
    TrimEnd(TrimStart(text))
  }

  function NonEmptyString(text: seq<byte>): (r: Option<seq<byte>>)
  {
    if Trim(text) == [] then None else Some(Trim(text))
  }

  function IndexOf(text: seq<byte>, b: byte): (i: nat)
    ensures i <= |text|
    ensures i < |text| ==> text[i] == b
    ensures forall j | 0 <= j < i :: text[j] != b
  {
    if text == [] || text[0] == b then 0 else 1 + IndexOf(text[1..], b)
  }

  /** `split_once` at the first occurrence of an ASCII character. */
  function SplitOnce(text: seq<byte>, b: byte): (r: Option<(seq<byte>, seq<byte>)>)
  {
    var i := IndexOf(text, b);
    if i < |text| then Some((text[..i], text[i + 1..])) else None
  }

  function TrimQuotes(text: seq<byte>): (r: seq<byte>)
  {
    if text != [] && text[0] == QUOTE then TrimQuotes(text[1..])
    else if text != [] && text[|text| - 1] == QUOTE then TrimQuotes(text[..|text| - 1])
    else text
  }

  function HexValue(b: byte): (r: Option<byte>)
  {
    if 0x30 <= b <= 0x39 then Some(b - 0x30)
    else if 0x61 <= b <= 0x66 then Some(b - 0x61 + 10)
    else if 0x41 <= b <= 0x46 then Some(b - 0x41 + 10)
    else None
  }

  predicate IsHexPair(high: byte, low: byte) {
    HexValue(high).Some? && HexValue(low).Some?
  }

  function HexPair(high: byte, low: byte): (b: byte)
    requires IsHexPair(high, low)
  {
    16 * HexValue(high).value + HexValue(low).value
  }

  /** The byte that an escaped value of a 633 sequence starts with, and how many characters spell it. */
  function UnescapeUnit(text: seq<byte>): (r: (byte, nat))
    requires text != []
    ensures 0 < r.1 <= |text|
  {
    if text[0] == BACKSLASH && |text| >= 2 && text[1] == BACKSLASH then (BACKSLASH, 2)
    else if text[0] == BACKSLASH && |text| >= 4 && text[1] == LETTER_X && IsHexPair(text[2], text[3]) then
      (HexPair(text[2], text[3]), 4)
    else (text[0], 1)
  }

  function Unescape(text: seq<byte>): (r: seq<byte>)
  {
    if text == [] then [] else [UnescapeUnit(text).0] + Unescape(text[UnescapeUnit(text).1..])
  }

  function PercentUnit(text: seq<byte>): (r: (byte, nat))
    requires text != []
    ensures 0 < r.1 <= |text|
  {
    if text[0] == PERCENT && |text| >= 3 && IsHexPair(text[1], text[2]) then (HexPair(text[1], text[2]), 3)
    else (text[0], 1)
  }

  function PercentDecode(text: seq<byte>): (r: seq<byte>)
  {
    if text == [] then [] else [PercentUnit(text).0] + PercentDecode(text[PercentUnit(text).1..])
  }

  method UnescapeOsc633Value(text: seq<byte>) returns (r: seq<byte>)
    ensures r == Utf8.Lossy(Unescape(text))
  {
    hide UnescapeUnit, NextUnescaped, Utf8.Lossy;
    var output: seq<byte> := [];
    var index := 0;
    assert text[0..] == text;
    while index < |text|
      invariant index <= |text|
      invariant Unescape(text) == output + Unescape(text[index..])
    {
      var (b, n) := NextUnescaped(text, index);
      assert text[index..][n..] == text[index + n..];
      output := output + [b];
      index := index + n;
    }
    assert output + [] == output;
    r := Utf8.Lossy(output);
  }

  function NextUnescaped(text: seq<byte>, index: nat): (r: (byte, nat))
    requires index < |text|
    ensures r == UnescapeUnit(text[index..])
  {
    if text[index] == BACKSLASH && index + 1 < |text| && text[index + 1] == BACKSLASH then (BACKSLASH, 2)
    else if text[index] == BACKSLASH && index + 3 < |text| && text[index + 1] == LETTER_X &&
            IsHexPair(text[index + 2], text[index + 3]) then
      (HexPair(text[index + 2], text[index + 3]), 4)
    else (text[index], 1)
  }

  method PercentDecodeText(text: seq<byte>) returns (r: seq<byte>)
    ensures r == Utf8.Lossy(PercentDecode(text))
  {
    hide PercentUnit, NextPercentDecoded, Utf8.Lossy;
    var output: seq<byte> := [];
    var index := 0;
    assert text[0..] == text;
    while index < |text|
      invariant index <= |text|
      invariant PercentDecode(text) == output + PercentDecode(text[index..])
    {
      var (b, n) := NextPercentDecoded(text, index);
      assert text[index..][n..] == text[index + n..];
      output := output + [b];
      index := index + n;
    }
    assert output + [] == output;
    r := Utf8.Lossy(output);
  }

  function NextPercentDecoded(text: seq<byte>, index: nat): (r: (byte, nat))
    requires index < |text|
    ensures r == PercentUnit(text[index..])
  {
    if text[index] == PERCENT && index + 2 < |text| && IsHexPair(text[index + 1], text[index + 2]) then
      (HexPair(text[index + 1], text[index + 2]), 3)
    else (text[index], 1)
  }

  // ---------- the content of one operating-system command ----------

  datatype Metadata = Title(title: seq<byte>) | Cwd(cwd: seq<byte>)

  const KIND_0: seq<byte> := [0x30]
  const KIND_2: seq<byte> := [0x32]
  const KIND_7: seq<byte> := [0x37]
  const KIND_9: seq<byte> := [0x39]
  const KIND_633: seq<byte> := [0x36, 0x33, 0x33]
  const KIND_P: seq<byte> := [0x50]
  const NAME_CWD: seq<byte> := [0x43, 0x77, 0x64]
  const FILE_SCHEME: seq<byte> := [0x66, 0x69, 0x6C, 0x65, 0x3A, 0x2F, 0x2F]

  function AsTitle(text: Option<seq<byte>>): (r: Option<Metadata>)
  {
    match text case Some(t) => Some(Title(t)) case None => None
  }

  function AsCwd(text: Option<seq<byte>>): (r: Option<Metadata>)
  {
    match text case Some(t) => Some(Cwd(t)) case None => None
  }

  function ParseOscMetadata(text: seq<byte>): (r: Option<Metadata>)
  {
    match SplitOnce(text, SEMICOLON)
    case None => None
    case Some(parts) =>
      var (kind, payload) := parts;
      if kind == KIND_0 || kind == KIND_2 then AsTitle(NonEmptyString(payload))
      else if kind == KIND_7 then AsCwd(ParseOsc7Cwd(payload))
      else if kind == KIND_633 then ParseOsc633Metadata(payload)
      else if kind == KIND_9 then
        match SplitOnce(payload, SEMICOLON)
        case None => None
        case Some(rest) =>
          if rest.0 == KIND_9 then AsCwd(NonEmptyString(TrimQuotes(Trim(rest.1)))) else None
      else None
  }

  function ParseOsc633Metadata(payload: seq<byte>): (r: Option<Metadata>)
  {
    match SplitOnce(payload, SEMICOLON)
    case None => None
    case Some(parts) =>
      if parts.0 != KIND_P then None
      else
        match SplitOnce(parts.1, EQUALS)
        case None => None
        case Some(assignment) =>
          if assignment.0 == NAME_CWD then AsCwd(NonEmptyString(Utf8.Lossy(Unescape(assignment.1)))) else None
  }

  function ParseOsc7Cwd(payload: seq<byte>): (r: Option<seq<byte>>)
  {
    var text := Trim(payload);
    if !(FILE_SCHEME <= text) then NonEmptyString(text)
    else
      var rest := text[|FILE_SCHEME|..];
      var i := IndexOf(rest, SLASH);
      if i == |rest| then None else NonEmptyString(Utf8.Lossy(PercentDecode(rest[i..])))
  }

  // ---------- the incremental parser ----------

  datatype ParserState = Normal | Escape | Osc(buffer: seq<byte>, escape: bool)

  /** The parser never buffers more than the limit. */
  predicate Bounded(state: ParserState) {
    state.Osc? ==> |state.buffer| <= MAX_OSC_METADATA_BYTES
  }

  function PushOscByte(buffer: seq<byte>, b: byte): (r: seq<byte>)
  {
    if |buffer| < MAX_OSC_METADATA_BYTES then buffer + [b] else buffer
  }

  function FinishOsc(buffer: seq<byte>): (events: seq<Metadata>)
  {
    match ParseOscMetadata(Utf8.Lossy(buffer)) case Some(event) => [event] case None => []
  }

  /** The next state and the events that one byte gives. */
  function Step(state: ParserState, b: byte): (r: (ParserState, seq<Metadata>))
    ensures Bounded(state) ==> Bounded(r.0)
  {
    match state
    case Normal => (if b == ESC then Escape else Normal, [])
    case Escape => (if b == 0x5D then Osc([], false) else if b == ESC then Escape else Normal, [])
    case Osc(buffer, escape) =>
      if escape then
        if b == BACKSLASH then (Normal, FinishOsc(buffer))
        else (Osc(PushOscByte(PushOscByte(buffer, ESC), b), false), [])
      else if b == BEL then (Normal, FinishOsc(buffer))
      else if b == ESC then (Osc(buffer, true), [])
      else if |buffer| < MAX_OSC_METADATA_BYTES then (Osc(buffer + [b], false), [])
      else (Normal, [])
  }

  function Push(state: ParserState, bytes: seq<byte>): (r: (ParserState, seq<Metadata>))
    ensures Bounded(state) ==> Bounded(r.0)
    decreases bytes
  {
    if bytes == [] then (state, [])
    else
      var (next, events) := Step(state, bytes[0]);
      var (last, later) := Push(next, bytes[1..]);
      (last, events + later)
  }

  lemma PushNothing(state: ParserState)
    ensures Push(state, []) == (state, [])
  {
  }

  lemma PushNext(state: ParserState, bytes: seq<byte>, i: nat)
    requires i < |bytes|
    ensures
      var (next, events) := Step(state, bytes[i]);
      Push(state, bytes[i..]) == (Push(next, bytes[i + 1..]).0, events + Push(next, bytes[i + 1..]).1)
  {
    hide Step;
    assert bytes[i..][1..] == bytes[i + 1..];
  }

  class TerminalMetadataParser {
    var state: ParserState

    constructor ()
      ensures state == Normal
    {
      state := Normal;
    }

    /** Consumes a chunk of output; the state and the events are those of the whole chunk. */
    method PushBytes(bytes: seq<byte>) returns (events: seq<Metadata>)
      modifies this
      ensures (state, events) == Push(old(state), bytes)
    {
      hide Step, Push;
      events := [];
      assert bytes[0..] == bytes;
      assert [] + Push(state, bytes).1 == Push(state, bytes).1;
      for i := 0 to |bytes|
        invariant Push(old(state), bytes) == (Push(state, bytes[i..]).0, events + Push(state, bytes[i..]).1)
      {
        PushNext(state, bytes, i);
        ghost var later := Push(Step(state, bytes[i]).0, bytes[i + 1..]).1;
        var more := PushByte(bytes[i]);
        assert events + (more + later) == (events + more) + later;
        events := events + more;
      }
      assert bytes[|bytes|..] == [];
      PushNothing(state);
      assert events + [] == events;
    }

    method PushByte(b: byte) returns (events: seq<Metadata>)
      modifies this
      ensures (state, events) == Step(old(state), b)
    {
      events := [];
      match state
      case Normal =>
        if b == ESC {
          state := Escape;
        }
      case Escape =>
        if b == 0x5D {
          state := Osc([], false);
        } else if b != ESC {
          state := Normal;
        }
      case Osc(buffer, escape) =>
        if escape {
          if b == BACKSLASH {
            events := FinishOsc(buffer);
            state := Normal;
          } else {
            state := Osc(PushOscByte(PushOscByte(buffer, ESC), b), false);
          }
        } else if b == BEL {
          events := FinishOsc(buffer);
          state := Normal;
        } else if b == ESC {
          state := Osc(buffer, true);
        } else if |buffer| < MAX_OSC_METADATA_BYTES {
          state := Osc(buffer + [b], false);
        } else {
          state := Normal;
        }
    }
  }

  /** Chunks can be cut anywhere. */
  lemma {:induction false} PushOfConcat(state: ParserState, a: seq<byte>, b: seq<byte>)
    ensures var (middle, first) := Push(state, a);
            var (last, second) := Push(middle, b);
            Push(state, a + b) == (last, first + second)
    decreases a
  {
    hide Step;
    if a == [] {
      assert a + b == b;
      assert [] + Push(state, b).1 == Push(state, b).1;
    } else {
      var (next, events) := Step(state, a[0]);
      PushOfConcat(next, a[1..], b);
      assert (a + b)[1..] == a[1..] + b;
      var (middle, first) := Push(next, a[1..]);
      assert events + (first + Push(middle, b).1) == (events + first) + Push(middle, b).1;
    }
  }

  function PushChunks(state: ParserState, chunks: seq<seq<byte>>): (r: (ParserState, seq<Metadata>))
    decreases chunks
  {
    if chunks == [] then (state, [])
    else
      var (next, events) := Push(state, chunks[0]);
      var (last, later) := PushChunks(next, chunks[1..]);
      (last, events + later)
  }

  lemma {:induction false} ChunksDoNotMatter(state: ParserState, chunks: seq<seq<byte>>)
    ensures PushChunks(state, chunks) == Push(state, Concat(chunks))
    decreases chunks
  {
    if chunks != [] {
      PushOfConcat(state, chunks[0], Concat(chunks[1..]));
      ChunksDoNotMatter(Push(state, chunks[0]).0, chunks[1..]);
    }
  }
}
