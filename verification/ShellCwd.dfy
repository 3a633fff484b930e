/** The working directory from the shell script that prints it to the parser that learns it. */
module ShellCwd {
  import opened Wrappers
  import opened Bytes
  import opened TerminalParser
  import Utf8

  // ---------- the script ----------

  /** `${text//b/replacement}`. */
  function ReplaceAll(text: seq<byte>, b: byte, replacement: seq<byte>): (r: seq<byte>)
  {
    if text == [] then []
    else (if text[0] == b then replacement else [text[0]]) + ReplaceAll(text[1..], b, replacement)
  }

  const ESCAPED_SEMICOLON: seq<byte> := [BACKSLASH, LETTER_X, 0x33, 0x62]

  /** `__wgo_escape_value`: first the backslashes, then the semicolons. */
  function EscapeValue(value: seq<byte>): (r: seq<byte>)
  {
    ReplaceAll(ReplaceAll(value, BACKSLASH, [BACKSLASH, BACKSLASH]), SEMICOLON, ESCAPED_SEMICOLON)
  }

  const CWD_PREFIX: seq<byte> := KIND_633 + [SEMICOLON] + KIND_P + [SEMICOLON] + NAME_CWD + [EQUALS]

  const NEWLINE: byte := 0x0A

  /** `$(...)` takes the newlines off the end of what the command printed. */
  function WithoutNewlines(text: seq<byte>): (r: seq<byte>)
  {
    if text != [] && text[|text| - 1] == NEWLINE then WithoutNewlines(text[..|text| - 1]) else text
  }

  /** All newlines at the end come off, and nothing else. */
  lemma {:induction false} OnlyNewlinesComeOff(text: seq<byte>)
    ensures
      var rest := WithoutNewlines(text);
      && rest <= text && (forall i | |rest| <= i < |text| :: text[i] == NEWLINE)
      && (rest != [] ==> rest[|rest| - 1] != NEWLINE)
  {
    if text != [] && text[|text| - 1] == NEWLINE {
      OnlyNewlinesComeOff(text[..|text| - 1]);
    }
  }

  function CwdBody(path: seq<byte>): (body: seq<byte>)
  {
    CWD_PREFIX + WithoutNewlines(EscapeValue(path))
  }

  /** `__wgo_update_cwd`: the operating-system command that announces `path`. */
  function CwdCommand(path: seq<byte>): (bytes: seq<byte>)
  {
    [ESC, 0x5D] + CwdBody(path) + [BEL]
  }

  // ---------- escaping ----------

  function EscapeByte(b: byte): (r: seq<byte>)
  {
    if b == BACKSLASH then [BACKSLASH, BACKSLASH] else if b == SEMICOLON then ESCAPED_SEMICOLON else [b]
  }

  lemma {:induction false} ReplaceAllOfConcat(x: seq<byte>, y: seq<byte>, b: byte, replacement: seq<byte>)
    ensures ReplaceAll(x + y, b, replacement) == ReplaceAll(x, b, replacement) + ReplaceAll(y, b, replacement)
  {
    if x == [] {
      assert x + y == y;
    } else {
      var unit := if x[0] == b then replacement else [x[0]];
      ReplaceAllOfConcat(x[1..], y, b, replacement);
      assert (x + y)[1..] == x[1..] + y;
      assert ReplaceAll(x + y, b, replacement) == unit + ReplaceAll(x[1..] + y, b, replacement);
      Regroup(unit, ReplaceAll(x[1..], b, replacement), ReplaceAll(y, b, replacement));
    }
  }

  /** The two substitutions do not disturb each other: they act on each byte by itself. */
  lemma EscapeValueStep(value: seq<byte>)
    requires value != []
    ensures EscapeValue(value) == EscapeByte(value[0]) + EscapeValue(value[1..])
  {
    var first := if value[0] == BACKSLASH then [BACKSLASH, BACKSLASH] else [value[0]];
    var rest := ReplaceAll(value[1..], BACKSLASH, [BACKSLASH, BACKSLASH]);
    ReplaceAllOfConcat(first, rest, SEMICOLON, ESCAPED_SEMICOLON);
    assert first[1..] == if value[0] == BACKSLASH then [BACKSLASH] else [];
    assert first[1..] != [] ==> first[1..][1..] == [];
  }

  /** The parser's unescaping undoes the script's escaping, whatever bytes the value has. */
  lemma {:induction false} UnescapeOfEscape(value: seq<byte>)
    ensures Unescape(EscapeValue(value)) == value
  {
    if value != [] {
      EscapeValueStep(value);
      UnescapeOfEscape(value[1..]);
      var escaped, rest := EscapeValue(value), EscapeValue(value[1..]);
      assert escaped[|EscapeByte(value[0])|..] == rest;
      assert UnescapeUnit(escaped) == (value[0], |EscapeByte(value[0])|);
    }
  }

  /** A value without control characters stays without them. */
  lemma {:induction false} EscapeAddsNo(value: seq<byte>, b: byte)
    requires b < 0x20 && b !in value
    ensures b !in EscapeValue(value)
  {
    if value != [] {
      EscapeValueStep(value);
      EscapeAddsNo(value[1..], b);
    }
  }

  lemma {:induction false} EscapeKeepsHighBytes(s: seq<byte>, rest: seq<byte>)
    requires forall i | 0 <= i < |s| :: s[i] >= 0x80
    ensures EscapeValue(s + rest) == s + EscapeValue(rest)
  {
    if s == [] {
      assert s + rest == rest;
    } else {
      EscapeValueStep(s + rest);
      assert (s + rest)[1..] == s[1..] + rest;
      EscapeKeepsHighBytes(s[1..], rest);
    }
  }

  /** Escaping keeps UTF-8 well formed. */
  lemma {:induction false} EscapeKeepsUtf8(value: seq<byte>)
    requires Utf8.Valid(value)
    ensures Utf8.Valid(EscapeValue(value))
  {
    if value != [] {
      var n := Utf8.ScalarLength(value);
      var scalar, rest := value[..n], value[n..];
      EscapeKeepsUtf8(rest);
      if n == 1 {
        EscapeValueStep(value);
        Utf8.AsciiValid(EscapeByte(value[0]));
        Utf8.ConcatValid(EscapeByte(value[0]), EscapeValue(rest));
      } else {
        assert scalar + rest == value;
        EscapeKeepsHighBytes(scalar, rest);
        Utf8.ScalarThenRest(scalar, EscapeValue(rest));
      }
    }
  }

  // ---------- trailing newlines ----------

  lemma EscapeOfConcat(x: seq<byte>, y: seq<byte>)
    ensures EscapeValue(x + y) == EscapeValue(x) + EscapeValue(y)
  {
    hide ReplaceAll;
    var double := [BACKSLASH, BACKSLASH];
    ReplaceAllOfConcat(x, y, BACKSLASH, double);
    ReplaceAllOfConcat(ReplaceAll(x, BACKSLASH, double), ReplaceAll(y, BACKSLASH, double), SEMICOLON, ESCAPED_SEMICOLON);
  }

  lemma EscapeOfOne(b: byte)
    ensures EscapeValue([b]) == EscapeByte(b)
  {
    EscapeValueStep([b]);
    assert EscapeValue([]) == [] && [b][1..] == [];
  }

  /** Newlines at the end come off before or after the escaping alike. */
  lemma {:induction false} NewlinesComeOffEither(path: seq<byte>)
    ensures WithoutNewlines(EscapeValue(path)) == EscapeValue(WithoutNewlines(path))
  {
    if path != [] {
      var front, last := path[..|path| - 1], path[|path| - 1];
      assert path == front + [last];
      EscapeOfConcat(front, [last]);
      EscapeOfOne(last);
      hide EscapeValue;
      var escaped := EscapeValue(path);
      assert escaped[|escaped| - 1] == EscapeByte(last)[|EscapeByte(last)| - 1];
      if last == NEWLINE {
        NewlinesComeOffEither(front);
        assert escaped[..|escaped| - 1] == EscapeValue(front);
      }
    }
  }

  lemma {:induction false} FrontIsUtf8(front: seq<byte>, last: byte)
    requires last < 0x80 && Utf8.Valid(front + [last])
    ensures Utf8.Valid(front)
  {
    if front != [] {
      var text := front + [last];
      var n := Utf8.ScalarLength(text);
      assert n <= |front|;
      assert text[n..] == front[n..] + [last];
      FrontIsUtf8(front[n..], last);
      assert Utf8.ScalarLength(front) == n;
    }
  }

  lemma {:induction false} WithoutNewlinesIsUtf8(path: seq<byte>)
    requires Utf8.Valid(path)
    ensures Utf8.Valid(WithoutNewlines(path))
  {
    hide Utf8.Valid;
    if path != [] && path[|path| - 1] == NEWLINE {
      var front := path[..|path| - 1];
      assert path == front + [NEWLINE];
      FrontIsUtf8(front, NEWLINE);
      WithoutNewlinesIsUtf8(front);
    }
  }

  lemma {:induction false} TrimStartBeforeNewline(text: seq<byte>)
    ensures TrimStart(text + [NEWLINE]) == if TrimStart(text) == [] then [] else TrimStart(text) + [NEWLINE]
  {
    var longer := text + [NEWLINE];
    if text == [] {
      assert longer[1..] == [];
    } else {
      assert LeadingSpace(longer) == LeadingSpace(text);
      if LeadingSpace(text) > 0 {
        assert longer[LeadingSpace(text)..] == text[LeadingSpace(text)..] + [NEWLINE];
        TrimStartBeforeNewline(text[LeadingSpace(text)..]);
      }
    }
  }

  lemma {:induction false} TrimIgnoresNewlines(path: seq<byte>)
    ensures Trim(WithoutNewlines(path)) == Trim(path)
  {
    if path != [] && path[|path| - 1] == NEWLINE {
      var front := path[..|path| - 1];
      assert path == front + [NEWLINE];
      TrimIgnoresNewlines(front);
      TrimStartBeforeNewline(front);
      var start := TrimStart(front);
      assert (start + [NEWLINE])[|start|..] == [NEWLINE] && (start + [NEWLINE])[..|start|] == start;
    }
  }

  // ---------- parsing ----------

  lemma {:induction false} IndexOfFirst(front: seq<byte>, b: byte, rest: seq<byte>)
    requires b !in front
    ensures IndexOf(front + [b] + rest, b) == |front|
    ensures SplitOnce(front + [b] + rest, b) == Some((front, rest))
  {
    var text := front + [b] + rest;
    assert text[|front|] == b && forall j | 0 <= j < |front| :: text[j] == front[j];
    assert text[..|front|] == front && text[|front| + 1..] == rest;
  }

  lemma CwdBodyIsUtf8(path: seq<byte>)
    requires Utf8.Valid(path)
    ensures Utf8.Valid(CwdBody(path))
  {
    NewlinesComeOffEither(path);
    WithoutNewlinesIsUtf8(path);
    EscapeKeepsUtf8(WithoutNewlines(path));
    Utf8.AsciiValid(CWD_PREFIX);
    hide EscapeValue, Utf8.Valid, WithoutNewlines;
    Utf8.ConcatValid(CWD_PREFIX, EscapeValue(WithoutNewlines(path)));
  }

  lemma AssignmentParses(path: seq<byte>)
    requires Utf8.Valid(path)
    ensures ParseOsc633Metadata(KIND_P + [SEMICOLON] + (NAME_CWD + [EQUALS] + EscapeValue(path)))
      == AsCwd(NonEmptyString(path))
  {
    hide EscapeValue, Unescape, SplitOnce, IndexOf, NonEmptyString, Utf8.Valid, Utf8.Lossy;
    var escaped := EscapeValue(path);
    IndexOfFirst(KIND_P, SEMICOLON, NAME_CWD + [EQUALS] + escaped);
    IndexOfFirst(NAME_CWD, EQUALS, escaped);
    UnescapeOfEscape(path);
    Utf8.LossyKeepsValid(path);
  }

  /** The parser makes the announced path, without surrounding white space, of the command's content. */
  lemma CwdBodyParses(path: seq<byte>)
    requires Utf8.Valid(path)
    ensures Utf8.Valid(CwdBody(path))
    ensures ParseOscMetadata(CwdBody(path)) == AsCwd(NonEmptyString(path))
  {
    hide EscapeValue, SplitOnce, IndexOf, Trim, ParseOsc633Metadata, Utf8.Valid, WithoutNewlines;
    CwdBodyIsUtf8(path);
    NewlinesComeOffEither(path);
    WithoutNewlinesIsUtf8(path);
    TrimIgnoresNewlines(path);
    AssignmentParses(WithoutNewlines(path));
    var payload := KIND_P + [SEMICOLON] + (NAME_CWD + [EQUALS] + EscapeValue(WithoutNewlines(path)));
    assert CwdBody(path) == KIND_633 + [SEMICOLON] + payload;
    IndexOfFirst(KIND_633, SEMICOLON, payload);
  }

  lemma SilentStep(state: ParserState, bytes: seq<byte>)
    requires bytes != [] && Step(state, bytes[0]).1 == []
    ensures Push(state, bytes) == Push(Step(state, bytes[0]).0, bytes[1..])
  {
    var later := Push(Step(state, bytes[0]).0, bytes[1..]).1;
    assert [] + later == later;
  }

  lemma {:induction false} PlainOutputIsSilent(bytes: seq<byte>)
    requires ESC !in bytes
    ensures Push(Normal, bytes) == (Normal, [])
  {
    if bytes != [] {
      SilentStep(Normal, bytes);
      PlainOutputIsSilent(bytes[1..]);
    }
  }

  /** Inside a command, bytes are collected as long as the limit allows; beyond it the command is dropped. */
  lemma {:induction false} BodyIsCollected(buffer: seq<byte>, body: seq<byte>)
    requires ESC !in body && BEL !in body && |buffer| <= MAX_OSC_METADATA_BYTES
    ensures Push(Osc(buffer, false), body) ==
            (if |buffer| + |body| <= MAX_OSC_METADATA_BYTES then Osc(buffer + body, false) else Normal, [])
    decreases body
  {
    if body == [] {
      assert buffer + body == buffer;
    } else {
      SilentStep(Osc(buffer, false), body);
      hide Push;
      if |buffer| < MAX_OSC_METADATA_BYTES {
        BodyIsCollected(buffer + [body[0]], body[1..]);
        assert buffer + [body[0]] + body[1..] == buffer + body;
      } else {
        PlainOutputIsSilent(body[1..]);
      }
    }
  }

  lemma CommandOpens(rest: seq<byte>)
    ensures Push(Normal, [ESC, 0x5D] + rest) == Push(Osc([], false), rest)
  {
    hide Push;
    var all := [ESC, 0x5D] + rest;
    SilentStep(Normal, all);
    assert all[1..] == [0x5D] + rest;
    SilentStep(Escape, all[1..]);
    assert all[1..][1..] == rest;
  }

  /** A command is read from its start to the terminator, unless it is too long. */
  lemma CommandIsRead(body: seq<byte>)
    requires ESC !in body && BEL !in body
    ensures Push(Normal, [ESC, 0x5D] + body + [BEL]) ==
            (Normal, if |body| <= MAX_OSC_METADATA_BYTES then FinishOsc(body) else [])
  {
    hide Push, FinishOsc;
    assert [ESC, 0x5D] + body + [BEL] == [ESC, 0x5D] + (body + [BEL]);
    CommandOpens(body + [BEL]);
    BodyIsClosed(body);
  }

  lemma BodyIsClosed(body: seq<byte>)
    requires ESC !in body && BEL !in body
    ensures Push(Osc([], false), body + [BEL]) ==
            (Normal, if |body| <= MAX_OSC_METADATA_BYTES then FinishOsc(body) else [])
  {
    hide Push, FinishOsc;
    BodyIsCollected([], body);
    assert [] + body == body;
    var middle := Push(Osc([], false), body).0;
    LastByte(middle, BEL);
    PushOfConcat(Osc([], false), body, [BEL]);
    var events := Step(middle, BEL).1;
    assert [] + events == events;
  }

  lemma LastByte(state: ParserState, b: byte)
    ensures Push(state, [b]) == Step(state, b)
  {
    assert [b][1..] == [];
    assert Step(state, b).1 + [] == Step(state, b).1;
  }

  /** End to end: the script announces a path amid other output without escape characters, the output
      arrives in chunks cut anywhere, and the parser learns that path, trimmed, exactly when the command
      fits its buffer and the path is not blank. */
  lemma CwdIsLearned(before: seq<byte>, path: seq<byte>, after: seq<byte>, chunks: seq<seq<byte>>)
    requires ESC !in before && ESC !in after
    requires Utf8.Valid(path) && ESC !in path && BEL !in path
    requires Concat(chunks) == before + CwdCommand(path) + after
    ensures PushChunks(Normal, chunks) ==
            (Normal, if |CwdBody(path)| <= MAX_OSC_METADATA_BYTES && Trim(path) != [] then [Cwd(Trim(path))] else [])
  {
    BodyHasNoControl(path);
    BodyIsTheCwd(path);
    hide Push, CwdBody, Trim, FinishOsc;
    ChunksDoNotMatter(Normal, chunks);
    PlainOutputIsSilent(before);
    PlainOutputIsSilent(after);
    CommandIsRead(CwdBody(path));
    PushOfConcat(Normal, before, CwdCommand(path));
    PushOfConcat(Normal, before + CwdCommand(path), after);
    assert forall events: seq<Metadata> :: [] + events == events == events + [];
  }

  lemma BodyHasNoControl(path: seq<byte>)
    requires ESC !in path && BEL !in path
    ensures ESC !in CwdBody(path) && BEL !in CwdBody(path)
  {
    EscapeAddsNo(path, ESC);
    EscapeAddsNo(path, BEL);
    OnlyNewlinesComeOff(EscapeValue(path));
  }

  lemma BodyIsTheCwd(path: seq<byte>)
    requires Utf8.Valid(path)
    ensures FinishOsc(CwdBody(path)) == if Trim(path) == [] then [] else [Cwd(Trim(path))]
  {
    hide CwdBody, Trim, ParseOscMetadata;
    CwdBodyParses(path);
    Utf8.LossyKeepsValid(CwdBody(path));
  }

  /** So the emitted path is the announced one exactly when it has no surrounding white space, is not
      empty, and fits. */
  lemma CwdRoundTrip(before: seq<byte>, path: seq<byte>, after: seq<byte>, chunks: seq<seq<byte>>)
    requires ESC !in before && ESC !in after
    requires Utf8.Valid(path) && ESC !in path && BEL !in path
    requires Concat(chunks) == before + CwdCommand(path) + after
    ensures PushChunks(Normal, chunks).1 == [Cwd(path)] <==>
            |CwdBody(path)| <= MAX_OSC_METADATA_BYTES && path != [] && Trim(path) == path
  {
    hide CwdBody, Trim;
    CwdIsLearned(before, path, after, chunks);
  }
}
