/** What the pieces of the metadata parser are for: white space by code point, the escapes by their spellings,
    and every kind of announcement. */
module ParserLaws {
  import opened Wrappers
  import opened Bytes
  import opened TerminalParser
  import opened ShellCwd
  import opened Utf8Laws
  import Utf8

  // ---------- white space ----------

  /** The Unicode property White_Space. */
  predicate WhiteSpace(c: scalar) {
    || 0x09 <= c <= 0x0D || c == 0x20 || c == 0x85 || c == 0xA0 || c == 0x1680
    || 0x2000 <= c <= 0x200A || c == 0x2028 || c == 0x2029 || c == 0x202F || c == 0x205F || c == 0x3000
  }

  lemma LeadingIsWhiteSpace(c: scalar, rest: seq<byte>)
    ensures LeadingSpace(Encode(c) + rest) == if WhiteSpace(c) then |Encode(c)| else 0
  {
    EncodingIsScalar(c, rest);
    var text := Encode(c) + rest;
    hide Encode;
  }

  /** Space at the end is found as space at the front is. */
  lemma TrailingIsLeading(front: seq<byte>, scalar: seq<byte>)
    requires scalar != [] && Utf8.ScalarLength(scalar) == |scalar|
    ensures TrailingSpace(front + scalar) == LeadingSpace(scalar)
  {
    var text := front + scalar;
    assert forall k | 0 <= k < |scalar| :: text[|front| + k] == scalar[k];
  }

  lemma TrailingIsWhiteSpace(front: seq<byte>, c: scalar)
    ensures TrailingSpace(front + Encode(c)) == if WhiteSpace(c) then |Encode(c)| else 0
  {
    hide Encode, LeadingSpace, TrailingSpace;
    EncodingIsScalar(c, []);
    assert Encode(c) + [] == Encode(c);
    TrailingIsLeading(front, Encode(c));
    LeadingIsWhiteSpace(c, []);
  }

  predicate AllWhite(scalars: seq<scalar>) {
    forall i | 0 <= i < |scalars| :: WhiteSpace(scalars[i])
  }

  lemma {:induction false} TrimStartIsExact(scalars: seq<scalar>) returns (i: nat)
    ensures i <= |scalars| && AllWhite(scalars[..i]) && (i < |scalars| ==> !WhiteSpace(scalars[i]))
    ensures TrimStart(EncodeAll(scalars)) == EncodeAll(scalars[i..])
  {
    hide Encode, LeadingSpace, WhiteSpace;
    i := 0;
    assert scalars[0..] == scalars;
    if scalars != [] {
      var first, rest := Encode(scalars[0]), EncodeAll(scalars[1..]);
      LeadingIsWhiteSpace(scalars[0], rest);
      if WhiteSpace(scalars[0]) {
        assert (first + rest)[|first|..] == rest;
        var j := TrimStartIsExact(scalars[1..]);
        i := j + 1;
        assert scalars[1..][j..] == scalars[i..];
        assert scalars[..i] == [scalars[0]] + scalars[1..][..j];
      }
    }
  }

  lemma {:induction false} EncodeAllOfConcat(a: seq<scalar>, b: seq<scalar>)
    ensures EncodeAll(a + b) == EncodeAll(a) + EncodeAll(b)
  {
    hide Encode;
    if a == [] {
      assert a + b == b;
    } else {
      EncodeAllOfConcat(a[1..], b);
      assert (a + b)[1..] == a[1..] + b;
    }
  }

  lemma EncodeAllOfOne(c: scalar)
    ensures EncodeAll([c]) == Encode(c)
  {
    hide Encode;
    assert [c][1..] == [] && Encode(c) + [] == Encode(c);
  }

  lemma {:induction false} TrimEndIsExact(scalars: seq<scalar>) returns (j: nat)
    ensures j <= |scalars| && AllWhite(scalars[j..]) && (j > 0 ==> !WhiteSpace(scalars[j - 1]))
    ensures TrimEnd(EncodeAll(scalars)) == EncodeAll(scalars[..j])
    decreases |scalars|
  {
    hide Encode, TrailingSpace, WhiteSpace;
    j := |scalars|;
    assert scalars[..j] == scalars;
    if scalars != [] {
      var front, last := scalars[..j - 1], scalars[j - 1];
      assert scalars == front + [last];
      EncodeAllOfConcat(front, [last]);
      EncodeAllOfOne(last);
      TrailingIsWhiteSpace(EncodeAll(front), last);
      if WhiteSpace(last) {
        var text := EncodeAll(front) + Encode(last);
        assert text[..|text| - |Encode(last)|] == EncodeAll(front);
        j := TrimEndIsExact(front);
        assert front[..j] == scalars[..j] && scalars[j..] == front[j..] + [last];
      }
    } else {
      assert EncodeAll(scalars) == [];
      NothingTrails();
    }
  }

  lemma NothingTrails()
    ensures TrimEnd([]) == []
  {
  }

  /** Trimming takes exactly the white space off both ends of any text. */
  lemma TrimIsExact(scalars: seq<scalar>) returns (i: nat, j: nat)
    ensures i <= j <= |scalars| && AllWhite(scalars[..i]) && AllWhite(scalars[j..])
    ensures i < j ==> !WhiteSpace(scalars[i]) && !WhiteSpace(scalars[j - 1])
    ensures Trim(EncodeAll(scalars)) == EncodeAll(scalars[i..j])
  {
    hide TrimStart, TrimEnd, WhiteSpace, EncodeAll;
    i := TrimStartIsExact(scalars);
    var k := TrimEndIsExact(scalars[i..]);
    j := i + k;
    assert scalars[i..][..k] == scalars[i..j] && scalars[i..][k..] == scalars[j..];
    if i < j {
      assert scalars[i..][k - 1] == scalars[j - 1];
    }
  }

  // ---------- hexadecimal spellings ----------

  /** The digit for `n`, in either case. */
  function HexDigit(n: nat, upper: bool): (b: byte)
    requires n < 16
  {
    if n < 10 then 0x30 + n else if upper then 0x41 + (n - 10) else 0x61 + (n - 10)
  }

  lemma HexValueIsExact(b: byte, n: byte)
    ensures HexValue(b) == Some(n) <==> n < 16 && exists upper :: HexDigit(n, upper) == b
  {
    if HexValue(b) == Some(n) {
      assert HexDigit(n, 0x41 <= b <= 0x46) == b;
    }
  }

  lemma HexPairOfDigits(b: byte, first: bool, second: bool)
    ensures
      var high, low := HexDigit(b / 16, first), HexDigit(b % 16, second);
      IsHexPair(high, low) && HexPair(high, low) == b
  {
  }

  /** A byte and how it is spelled: by itself, or by two digits in either case. */
  datatype Unit = Plain(b: byte) | Hex(b: byte, first: bool, second: bool)

  function Digits(unit: Unit): (s: seq<byte>)
    requires unit.Hex?
  {
    [HexDigit(unit.b / 16, unit.first), HexDigit(unit.b % 16, unit.second)]
  }

  function Meant(units: seq<Unit>): (bytes: seq<byte>)
    ensures |bytes| == |units|
  {
    if units == [] then [] else [units[0].b] + Meant(units[1..])
  }

  /** In a value of a 633 sequence: digits behind a backslash and an x, a backslash itself doubled. */
  function Escaped(units: seq<Unit>): (s: seq<byte>) {
    if units == [] then [] else EscapedOne(units[0]) + Escaped(units[1..])
  }

  function EscapedOne(unit: Unit): (s: seq<byte>) {
    if unit.Hex? then [BACKSLASH, LETTER_X] + Digits(unit)
    else if unit.b == BACKSLASH then [BACKSLASH, BACKSLASH]
    else [unit.b]
  }

  /** Unescaping undoes every spelling of every byte string. */
  lemma {:induction false} UnescapeOfEscaped(units: seq<Unit>)
    ensures Unescape(Escaped(units)) == Meant(units)
  {
    if units != [] {
      var first, rest := EscapedOne(units[0]), Escaped(units[1..]);
      UnescapeOfEscaped(units[1..]);
      HexPairOfDigits(units[0].b, units[0].Hex? ==> units[0].first, units[0].Hex? ==> units[0].second);
      hide IsHexPair, HexPair, HexDigit;
      assert UnescapeUnit(first + rest) == (units[0].b, |first|);
      assert (first + rest)[|first|..] == rest;
    }
  }

  /** A backslash that begins neither spelling stands for itself. */
  lemma LoneBackslash(rest: seq<byte>)
    requires rest == [] || rest[0] != BACKSLASH
    requires |rest| < 3 || rest[0] != LETTER_X || HexValue(rest[1]).None? || HexValue(rest[2]).None?
    ensures Unescape([BACKSLASH] + rest) == [BACKSLASH] + Unescape(rest)
  {
    assert ([BACKSLASH] + rest)[1..] == rest;
  }

  /** In a URL: digits behind a percent sign. */
  function Encoded(units: seq<Unit>): (s: seq<byte>) {
    if units == [] then [] else EncodedOne(units[0]) + Encoded(units[1..])
  }

  function EncodedOne(unit: Unit): (s: seq<byte>) {
    if unit.Hex? then [PERCENT] + Digits(unit) else [unit.b]
  }

  /** Decoding undoes every percent encoding that encodes the percent signs. */
  lemma {:induction false} PercentDecodeOfEncoded(units: seq<Unit>)
    requires Plain(PERCENT) !in units
    ensures PercentDecode(Encoded(units)) == Meant(units)
  {
    if units != [] {
      var first, rest := EncodedOne(units[0]), Encoded(units[1..]);
      PercentDecodeOfEncoded(units[1..]);
      HexPairOfDigits(units[0].b, units[0].Hex? ==> units[0].first, units[0].Hex? ==> units[0].second);
      hide IsHexPair, HexPair, HexDigit;
      assert PercentUnit(first + rest) == (units[0].b, |first|);
      assert (first + rest)[|first|..] == rest;
    }
  }

  lemma LonePercent(rest: seq<byte>)
    requires |rest| < 2 || HexValue(rest[0]).None? || HexValue(rest[1]).None?
    ensures PercentDecode([PERCENT] + rest) == [PERCENT] + PercentDecode(rest)
  {
    assert ([PERCENT] + rest)[1..] == rest;
  }

  // ---------- the announcements ----------

  /** Sequences 0 and 2 announce a title: the text behind the semicolon, trimmed, unless it is blank. */
  lemma TitleIsParsed(kind: seq<byte>, text: seq<byte>)
    requires kind == KIND_0 || kind == KIND_2
    ensures ParseOscMetadata(kind + [SEMICOLON] + text) == if Trim(text) == [] then None else Some(Title(Trim(text)))
  {
    hide Trim, ParseOsc633Metadata, ParseOsc7Cwd, SplitOnce, IndexOf;
    IndexOfFirst(kind, SEMICOLON, text);
  }

  lemma PathBehindHost(host: seq<byte>, path: seq<byte>)
    requires SLASH !in host && path != [] && path[0] == SLASH
    requires Trim(FILE_SCHEME + host + path) == FILE_SCHEME + host + path
    ensures ParseOsc7Cwd(FILE_SCHEME + host + path) == NonEmptyString(Utf8.Lossy(PercentDecode(path)))
  {
    hide Trim, PercentDecode, Utf8.Lossy, IndexOf, SplitOnce, NonEmptyString;
    var text, rest := FILE_SCHEME + host + path, host + path;
    assert text == FILE_SCHEME + rest && text[|FILE_SCHEME|..] == rest;
    assert rest == host + [SLASH] + path[1..];
    IndexOfFirst(host, SLASH, path[1..]);
    assert rest[|host|..] == path;
  }

  lemma FirstIsSlash(units: seq<Unit>)
    requires units != [] && units[0] == Plain(SLASH)
    ensures Encoded(units) != [] && Encoded(units)[0] == SLASH
  {
  }

  /** Sequence 7 announces a file URL: behind the host, which it ignores, the percent-decoded path. */
  lemma FileUrlIsParsed(host: seq<byte>, units: seq<Unit>)
    requires SLASH !in host && Plain(PERCENT) !in units
    requires units != [] && units[0] == Plain(SLASH) && Utf8.Valid(Meant(units))
    requires Trim(FILE_SCHEME + host + Encoded(units)) == FILE_SCHEME + host + Encoded(units)
    ensures ParseOscMetadata(KIND_7 + [SEMICOLON] + (FILE_SCHEME + host + Encoded(units)))
      == if Trim(Meant(units)) == [] then None else Some(Cwd(Trim(Meant(units))))
  {
    hide Trim, ParseOsc633Metadata, ParseOsc7Cwd, SplitOnce, IndexOf, Encoded, Meant, PercentDecode, Utf8.Valid, Utf8.Lossy;
    FirstIsSlash(units);
    PercentDecodeOfEncoded(units);
    Utf8.LossyKeepsValid(Meant(units));
    PathBehindHost(host, Encoded(units));
    IndexOfFirst(KIND_7, SEMICOLON, FILE_SCHEME + host + Encoded(units));
  }

  /** Any other content of sequence 7 is a path as it stands; a file URL without a path announces nothing. */
  lemma PlainPathIsParsed(text: seq<byte>)
    ensures !(FILE_SCHEME <= Trim(text)) ==>
      ParseOscMetadata(KIND_7 + [SEMICOLON] + text) == if Trim(Trim(text)) == [] then None else Some(Cwd(Trim(Trim(text))))
    ensures FILE_SCHEME <= Trim(text) && SLASH !in Trim(text)[|FILE_SCHEME|..] ==>
      ParseOscMetadata(KIND_7 + [SEMICOLON] + text) == None
  {
    hide Trim, ParseOsc633Metadata, SplitOnce;
    IndexOfFirst(KIND_7, SEMICOLON, text);
  }

  /** Sequence 9;9 announces a path, with or without quotes around it. */
  lemma QuotedPathIsParsed(path: seq<byte>, quoted: bool)
    requires path != [] && path[0] != QUOTE && path[|path| - 1] != QUOTE && Trim(path) == path
    requires quoted ==> Trim([QUOTE] + path + [QUOTE]) == [QUOTE] + path + [QUOTE]
    ensures
      var text := if quoted then [QUOTE] + path + [QUOTE] else path;
      ParseOscMetadata(KIND_9 + [SEMICOLON] + (KIND_9 + [SEMICOLON] + text)) == Some(Cwd(path))
  {
    var text := if quoted then [QUOTE] + path + [QUOTE] else path;
    TrimQuotesOf(path);
    hide Trim, ParseOsc633Metadata, ParseOsc7Cwd, SplitOnce, IndexOf, TrimQuotes;
    IndexOfFirst(KIND_9, SEMICOLON, KIND_9 + [SEMICOLON] + text);
    IndexOfFirst(KIND_9, SEMICOLON, text);
  }

  lemma TrimQuotesOf(path: seq<byte>)
    requires path != [] && path[0] != QUOTE && path[|path| - 1] != QUOTE
    ensures TrimQuotes(path) == path && TrimQuotes([QUOTE] + path + [QUOTE]) == path
  {
    var text := [QUOTE] + path + [QUOTE];
    assert text[1..] == path + [QUOTE];
    assert (path + [QUOTE])[..|path|] == path;
  }

  /** Nothing else announces anything. */
  lemma OthersAnnounceNothing(kind: seq<byte>, text: seq<byte>)
    requires SEMICOLON !in kind && kind !in {KIND_0, KIND_2, KIND_7, KIND_9, KIND_633}
    ensures ParseOscMetadata(kind + [SEMICOLON] + text) == None && ParseOscMetadata(kind) == None
  {
    hide Trim, ParseOsc633Metadata, ParseOsc7Cwd, SplitOnce;
    IndexOfFirst(kind, SEMICOLON, text);
    assert SplitOnce(kind, SEMICOLON) == None by {
      SplitNothing(kind);
    }
  }

  /** Of sequence 633 only the property Cwd, and of sequence 9 only its own number 9, announces anything. */
  lemma OtherPropertiesAnnounceNothing(kind: seq<byte>, name: seq<byte>, text: seq<byte>)
    requires SEMICOLON !in kind && EQUALS !in name
    ensures kind != KIND_P ==>
      ParseOscMetadata(KIND_633 + [SEMICOLON] + (kind + [SEMICOLON] + text)) == None
    ensures name != NAME_CWD ==>
      ParseOscMetadata(KIND_633 + [SEMICOLON] + (KIND_P + [SEMICOLON] + (name + [EQUALS] + text))) == None
    ensures kind != KIND_9 ==>
      ParseOscMetadata(KIND_9 + [SEMICOLON] + (kind + [SEMICOLON] + text)) == None
  {
    hide Trim, ParseOsc7Cwd, SplitOnce, IndexOf, Unescape, Utf8.Lossy;
    IndexOfFirst(KIND_633, SEMICOLON, kind + [SEMICOLON] + text);
    IndexOfFirst(KIND_9, SEMICOLON, kind + [SEMICOLON] + text);
    IndexOfFirst(kind, SEMICOLON, text);
    IndexOfFirst(KIND_633, SEMICOLON, KIND_P + [SEMICOLON] + (name + [EQUALS] + text));
    IndexOfFirst(KIND_P, SEMICOLON, name + [EQUALS] + text);
    IndexOfFirst(name, EQUALS, text);
  }

  function Ascii(text: string): (bytes: seq<byte>)
    requires forall i | 0 <= i < |text| :: text[i] as int < 0x80
    ensures |bytes| == |text| && forall i | 0 <= i < |text| :: bytes[i] == text[i] as int
  {
    seq(|text|, i requires 0 <= i < |text| => text[i] as int)
  }

  /** The words of the sequences, as the shells write them. */
  lemma WordsAreAscii()
    ensures KIND_0 == Ascii("0") && KIND_2 == Ascii("2") && KIND_7 == Ascii("7") && KIND_9 == Ascii("9")
    ensures KIND_633 == Ascii("633") && KIND_P == Ascii("P") && NAME_CWD == Ascii("Cwd")
    ensures FILE_SCHEME == Ascii("file://") && CWD_PREFIX == Ascii("633;P;Cwd=")
    ensures ESCAPED_SEMICOLON == Ascii("\\x3b") && [PERCENT, QUOTE, SLASH] == Ascii("%\"/")
  {
  }

  lemma SplitNothing(kind: seq<byte>)
    requires SEMICOLON !in kind
    ensures SplitOnce(kind, SEMICOLON) == None
  {
  }

  // ---------- framing ----------

  /** Escape characters before the bracket do no harm, and an escape character before anything else opens nothing. */
  lemma {:induction false} OpensBehindEscapes(n: nat, rest: seq<byte>)
    ensures Push(Escape, seq(n, i => ESC) + [0x5D] + rest) == Push(Osc([], false), rest)
    ensures forall b: byte | b != ESC && b != 0x5D :: Push(Normal, [ESC, b]) == (Normal, [])
  {
    hide Push;
    var bytes := seq(n, i => ESC) + [0x5D] + rest;
    SilentStep(Escape, bytes);
    if n == 0 {
      assert bytes[1..] == rest;
    } else {
      assert bytes[1..] == seq(n - 1, i => ESC) + [0x5D] + rest;
      OpensBehindEscapes(n - 1, rest);
    }
    forall b: byte | b != ESC && b != 0x5D ensures Push(Normal, [ESC, b]) == (Normal, []) {
      SilentStep(Normal, [ESC, b]);
      assert [ESC, b][1..] == [b];
      LastByte(Escape, b);
    }
  }

  /** The string terminator, an escape character and a backslash, ends a command as the bell does. */
  lemma StringTerminatorEnds(body: seq<byte>)
    requires ESC !in body && BEL !in body && |body| <= MAX_OSC_METADATA_BYTES
    ensures Push(Normal, [ESC, 0x5D] + body + [ESC, BACKSLASH]) == (Normal, FinishOsc(body))
  {
    hide Push, FinishOsc;
    assert [ESC, 0x5D] + body + [ESC, BACKSLASH] == [ESC, 0x5D] + (body + [ESC, BACKSLASH]);
    CommandOpens(body + [ESC, BACKSLASH]);
    BodyIsCollected([], body);
    assert [] + body == body;
    PushOfConcat(Osc([], false), body, [ESC, BACKSLASH]);
    SilentStep(Osc(body, false), [ESC, BACKSLASH]);
    assert [ESC, BACKSLASH][1..] == [BACKSLASH];
    LastByte(Osc(body, true), BACKSLASH);
    assert [] + FinishOsc(body) == FinishOsc(body);
  }

  /** Inside a command an escape character before any other byte belongs to the content, as does that byte. */
  lemma EscapeInside(buffer: seq<byte>, b: byte)
    requires |buffer| + 2 <= MAX_OSC_METADATA_BYTES && b != BACKSLASH
    ensures Push(Osc(buffer, false), [ESC, b]) == (Osc(buffer + [ESC, b], false), [])
  {
    hide Push;
    SilentStep(Osc(buffer, false), [ESC, b]);
    assert [ESC, b][1..] == [b];
    LastByte(Osc(buffer, true), b);
    assert buffer + [ESC] + [b] == buffer + [ESC, b];
  }

  /** The script writes no semicolon into the value, and every other byte but the backslash as it is. */
  lemma {:induction false} EscapeHasNoSemicolon(value: seq<byte>)
    ensures SEMICOLON !in EscapeValue(value)
    ensures SEMICOLON !in value && BACKSLASH !in value ==> EscapeValue(value) == value
  {
    hide EscapeValue;
    if value != [] {
      EscapeValueStep(value);
      EscapeHasNoSemicolon(value[1..]);
    } else {
      NothingEscaped();
    }
  }

  lemma NothingEscaped()
    ensures EscapeValue([]) == []
  {
  }
}
