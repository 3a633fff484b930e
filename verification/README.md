# Verified model of the remote machine daemon and its web client

The daemon lets a browser browse files, run terminals and inspect processes on a machine.  This project
models the parts of it where correctness is subtle and proves what they promise, for all inputs and all
runs.  `dafny verify dfyconfig.toml` checks everything.

- **CBOR** (`Bytes`, `Utf8`, `Utf8Laws`, `CborValue`, `Cbor`, `CborLaws`, `CborTheorems`, `CborVerdicts`,
  `CborFormat`, `CborGrammar`, `Buffers`, `RustCbor`, `JsCbor`, `CborAgreement`).  `Cbor` defines printing and
  parsing once, with the differences between the two implementations as a parameter.  The Rust code (an output
  vector, a cursor) and the TypeScript code (an offset, numbers of 53 bits) are methods proved equal to these
  functions; round trips, prefix-freeness, stability of verdicts, the description of accepted inputs and the
  agreement of the two languages are proved about the functions.
- **Generated codecs** (`Schema`, `SchemaLaws`, `SchemaEvolution`, `SchemaViews`, `SchemaReading`,
  `SchemaDecoding`, `SchemaCheck`).  The code generator is modelled by the meaning of what it emits: encoding
  and decoding indexed by an arbitrary schema. The generator's own check is modelled as its loops.
- **Message streams** (`Wire`, `WireLayout`, `WireLaws`, `WireGrammar`, `MessageReader`, `MessageSequence`,
  `EventStream`, `EventGrammar`).  The daemon's incremental reader and the browser's buffering loop, over any
  way the transport cuts the bytes.
- **Terminals** (`TerminalParser`, `ShellCwd`, `ParserLaws`, `Terminal`, `TerminalRuns`, `TerminalTheorems`,
  `TerminalHistory`, `TerminalStream`, `TerminalControl`).  `Terminal` is the session object; its methods are
  the sections under the session lock, each proved to do what a step function says.  A run is any sequence of
  steps in which attach ids are not reused and only the operation that removed the session closes it, so the
  run theorems cover every interleaving.  The pseudo-terminal, resize results and exits are inputs of the
  steps.
- **Pairing** (`Pairing`, `PairingRuns`, `PairingTheorems`, `PairingProgress`, `Credentials`,
  `CredentialRuns`).  Starting a pairing gives up its lock twice; every attempt is a task that takes its
  sections in order while others interleave. Finishing one loads the credentials file and later stores it,
  again with others in between.  The hash is an arbitrary function; ids, random numbers and clocks are inputs.
- **Reactive tables** (`TableSync`, `TableLaws`).  The server's diff and loop and the client's application of
  patches, for any display order.  The directory, roots, trash, modules and clients tables share this code
  shape; a row is its key and the rest of it.
- **Workbench** (`Workbench`, `WorkbenchLaws`, `WorkbenchTheorems`, `WorkbenchEffects`, `WorkbenchStore`).
  Panes, tabs, the active ones and the remembered previous ones.

What the proofs brought to light, each as a lemma with a concrete input or an exact condition:

- The TypeScript decoder drops a byte-order mark at the start of a text, which the Rust decoder keeps
  (`CborAgreement.LoneBomIsReadDifferently`).
- A single chunk larger than the retention limit would leave nothing to replay and no gap notice
  (`TerminalTheorems.SilentHoleExample`); reads of at most 8192 bytes exclude it.
- A failed resize leaves the new primary attach and size in place without telling anyone, exactly if the
  caller owns the attach, the size is valid and something changes (`TerminalTheorems.StepIsToldExactly`; a run
  in `TerminalTheorems.SilentChangeExample`).
- Rows with equal keys can leave the client's table different from the server's.  They arise on Windows, where
  names that are not valid Unicode are converted with replacement characters
  (daemon/windows/src/fs.rs:377-381), so that two files can be listed under one name.
  `TableLaws.SubscriptionAgreesExactly` says exactly when the client agrees all the same,
  `TableLaws.StaleForGood` and `TableLaws.DuplicateKeysDiverge` when it never does again.
- Two operations on the credentials file that overlap lose the update of the first: a client whose pairing
  succeeded may be refused (`CredentialRuns.LostPairing`).  `CredentialRuns.EveryPairingCountsExactly` says
  when no pairing is lost.
- An array header that announces 2^32 or more items makes the TypeScript decoder fail at once, where Rust
  waits for them (`CborAgreement.LongArrayIsRefused`).
- Selecting or opening a tab in a pane that does not exist makes that pane the active one
  (`WorkbenchTheorems.EditKeepsOrder`; a concrete input in `WorkbenchStore.UnknownPaneExample`).
- The TypeScript decoders accept integers outside the range of their type, such as a negative one for an
  unsigned field, which the Rust decoders refuse; this is their only difference on values
  (`SchemaReading.DecodersDifferOnNumbersOnly`).

## Model

| member | source | states |
|---|---|---|
| `RustCbor.Encode` | daemon/core/src/cbor.rs:40-44 | encoding any Rust value appends to an empty buffer exactly the printed form, whose laws are the theorems below |
| `RustCbor.EncodeValue` | daemon/core/src/cbor.rs:74-108 | the bytes of every value are appended behind what the buffer held |
| `RustCbor.EncodeTypeValue` | daemon/core/src/cbor.rs:110-127 | the head of a major type and argument is appended, in the shortest of the five forms |
| `RustCbor.Cursor.ReadU8` | daemon/core/src/cbor.rs:200-206 | one byte is read and the cursor moves by one, or the input ends |
| `RustCbor.Cursor.DecodeArgument` | daemon/core/src/cbor.rs:208-253 | the argument is read at its width; a longer form than needed and the reserved forms are errors |
| `RustCbor.Cursor.DecodeValue` | daemon/core/src/cbor.rs:129-198 | the value parsed at the cursor, maps in key order, and the position behind it; or the parse error |
| `RustCbor.Cursor.DecodeItems` | daemon/core/src/cbor.rs:160-167 | exactly the claimed number of items, whatever number is claimed |
| `RustCbor.Cursor.DecodeEntries` | daemon/core/src/cbor.rs:168-182 | the entries sorted by key; non-unsigned and repeated keys are errors |
| `RustCbor.DecodeWhole` | daemon/core/src/cbor.rs:46-53 | one value and nothing behind it |
| `CborTheorems.VerdictsAreStable` | daemon/core/src/cbor.rs:129-253 | a value or any error other than a premature end stays the same whatever bytes follow, and a value takes at least one byte |
| `CborTheorems.ParseAtOffset` | daemon/core/src/cbor.rs:64-71 | decoding depends only on the bytes from the cursor on |
| `CborTheorems.RoundTripWithSuffix` | daemon/core/src/cbor.rs:64-108 | decoding an encoding followed by any bytes gives the value back and consumes exactly the encoding, in both languages |
| `CborTheorems.ProperPrefixNeedsMore` | daemon/core/src/cbor.rs:64-71 | every proper prefix of an encoding reports a premature end |
| `CborVerdicts.NeedsMoreExactly` | daemon/core/src/cbor.rs:64-71 | in both languages a premature end is reported exactly if some continuation of the input changes the verdict |
| `CborFormat.PrintBeginsWithHead` | daemon/core/src/cbor.rs:74-127 | integers, strings, lists and maps are printed behind a head of the major type of RFC 8949 that spells their number big-endian; simple values and floats begin with the bytes of its section 3.3 |
| `CborFormat.WideFormIsRead` | daemon/core/src/cbor.rs:208-253 | a number spelled in 1, 2, 4 or 8 bytes is read as that number: in Rust exactly if no shorter head holds it, in TypeScript exactly if it is safe |
| `CborFormat.OtherFormsAreRefused` | daemon/core/src/cbor.rs:183-198 | tags, reserved and indefinite lengths and other simple values are unsupported in both languages |
| `CborGrammar.ItemIsSpelled` | daemon/core/src/cbor.rs:129-253 | in either language the bytes between two positions decode to a value exactly if they spell it, in a grammar that says which heads, contents and keys each language admits and not how to read them |
| `CborGrammar.WholeInputIsSpelled` | daemon/core/src/cbor.rs:46-53 | input that spells a value decodes to it with every map in key order; bytes behind it are an error |
| `CborGrammar.OnlySpelledInputIsDecoded` | daemon/core/src/cbor.rs:46-53 | no other input decodes |
| `CborGrammar.LargeNumbersAreRefused` | web/src/protocol/cbor.ts:197-248 | a number too large for its major type and language is refused at its head, with the error of its case, whatever follows |
| `CborGrammar.LongFormsAreRefused` | daemon/core/src/cbor.rs:208-253 | Rust refuses every number spelled longer than needed |
| `CborGrammar.NonFiniteIsRefused` | web/src/protocol/cbor.ts:181-190 | TypeScript refuses every float that is not finite |
| `CborGrammar.FirstBadItemDecides` | daemon/core/src/cbor.rs:160-167 | an array fails with the error of its first bad item, behind items spelled in any admitted way |
| `CborGrammar.FirstBadEntryDecides` | daemon/core/src/cbor.rs:168-182 | a map fails as its first bad entry does: the error of the key, a key that is no unsigned integer, a repeated key (in Rust after the value, in TypeScript before it), the error of the value |
| `CborTheorems.PrintsAreSelfDelimiting` | daemon/core/src/cbor.rs:74-108 | encodings are prefix-free, and injective up to the sign type of non-negative integers |
| `CborTheorems.DecodeOfEncode` | daemon/core/src/cbor.rs:40-53 | `decode(encode(v))` is `v`, non-negative signed integers read as unsigned |
| `CborTheorems.RustReadingIsRustValue` | daemon/core/src/cbor.rs:74-85 | reading an encoding back changes nothing the second time |
| `CborTheorems.AcceptedInput` | daemon/core/src/cbor.rs:100-253 | every accepted input re-encodes to the same length and decodes again to the same value; it is reproduced byte for byte exactly when all its maps list their keys in ascending order |
| `CborTheorems.HeadIsShortest` | daemon/core/src/cbor.rs:110-127 | no width that can hold an argument gives a shorter head |
| `CborTheorems.HeadsKeepOrder` | daemon/core/src/cbor.rs:110-127 | heads compare as bytes exactly as their arguments compare as numbers |
| `CborTheorems.AscendingIsDeterministic` | daemon/core/src/cbor.rs:100-107 | numeric key order is the bytewise key order of section 4.2.1 of RFC 8949, at every depth |
| `CborValue.SortAscends` | daemon/core/src/cbor.rs:170-182 | reading entries into an ordered map puts every map, at every depth, in ascending key order |
| `CborValue.GetAfterInsert` | daemon/core/src/cbor.rs:176-180 | a key looked up after an insertion gives the inserted value, any other key what it gave before |
| `JsCbor.JsCursor.Read` | web/src/protocol/cbor.ts:263-266 | one byte, or the premature-end error |
| `JsCbor.JsCursor.ReadBytes` | web/src/protocol/cbor.ts:250-261 | the next bytes, or the premature-end error with the offset unmoved |
| `JsCbor.JsCursor.ReadFixedUint` | web/src/protocol/cbor.ts:222-232 | the big-endian number; every intermediate is an exactly representable integer |
| `JsCbor.JsCursor.ReadU64AsU53` | web/src/protocol/cbor.ts:234-248 | an eight-byte integer is accepted exactly from 0 to 2^53-1, every intermediate being exact |
| `JsCbor.JsCursor.ReadArg` | web/src/protocol/cbor.ts:197-208 | the argument at its width; longer forms than needed are accepted |
| `JsCbor.JsCursor.ReadNegativeArg` | web/src/protocol/cbor.ts:210-220 | negative integers are accepted down to -(2^53-1) |
| `JsCbor.JsCursor.Decode` | web/src/protocol/cbor.ts:142-195 | the value parsed at the offset in the rules of this decoder, and the offset behind it; or its error, which for an array of 2^32 or more items comes before any item is read |
| `JsCbor.JsCursor.DecodeEntries` | web/src/protocol/cbor.ts:162-176 | a repeated key is rejected before its value is read |
| `JsCbor.Be` | web/src/protocol/cbor.ts:268-276 | the big-endian bytes of a number, by repeated division |
| `JsCbor.EncodeTypeValue` | web/src/protocol/cbor.ts:129-140 | succeeds exactly up to 2^53-1 and appends the same head as the Rust encoder |
| `JsCbor.EncodeValue` | web/src/protocol/cbor.ts:76-127 | succeeds exactly if all integers, keys and lengths are safe, and then appends the encoding with every map sorted by key |
| `JsCbor.EncodeInteger` | web/src/protocol/cbor.ts:79-85 | an integer is written exactly if it is safe, under the major type of its sign |
| `JsCbor.EncodeString` | web/src/protocol/cbor.ts:90-96 | text and byte strings are written as a head and their bytes |
| `JsCbor.ReadableIsEncodable` | web/src/protocol/cbor.ts:76-140 | whatever the TypeScript decoder can hold its encoder accepts |
| `CborAgreement.EncodersAgree` | web/src/protocol/cbor.ts:76-140 | on every value with safe integers and finite floats both encoders emit the same bytes |
| `CborAgreement.DecodersAgree` | web/src/protocol/cbor.ts:142-276 | on everything that Rust accepts TypeScript gives the same value exactly if its numbers are safe and finite, no array is longer than 2^32-1 and no text starts with a byte-order mark; else it fails for good or drops the marks |
| `CborAgreement.BomIsTheOnlyDifference` | web/src/protocol/cbor.ts:152-157 | the fatal text decoder changes a value exactly by dropping a leading byte-order mark of a text |
| `CborFormat.TextIsReadExactly` | web/src/protocol/cbor.ts:152-157 | a text is accepted exactly if its bytes encode a list of Unicode scalar values, and is given as it stands but for the byte-order mark in TypeScript |
| `CborFormat.FiniteIsBelowInfinity` | web/src/protocol/cbor.ts:69-73 | a float counts as finite exactly if its magnitude, as bits, is below that of infinity |
| `CborAgreement.LoneBomIsReadDifferently` | web/src/protocol/cbor.ts:152-157 | a concrete input that the two decoders read differently |
| `CborAgreement.LongArrayIsRefused` | web/src/protocol/cbor.ts:158-161 | for every array length from 2^32 on, the head alone is a final error in TypeScript and incomplete in Rust |
| `Utf8.LossyKeepsValid` | daemon/host/src/terminal.rs:158-158 | lossy decoding keeps well-formed UTF-8 |
| `Utf8.LossyIsValid` | daemon/host/src/terminal.rs:249-249 | lossy decoding gives well-formed UTF-8 for any bytes |
| `Utf8Laws.ValidIsEncoded` | daemon/core/src/cbor.rs:152-158 | bytes are accepted as text exactly if they are a concatenation of encodings of scalar values (0 to 0x10FFFF without the surrogates), each defined by division by 64 |
| `Utf8Laws.EncodingIsScalar` | daemon/core/src/cbor.rs:152-158 | every encoding of a scalar value is recognised, at its own length, whatever follows |
| `Utf8Laws.BadLengthIsMaximal` | daemon/host/src/terminal.rs:158-158 | a replacement character stands for the longest part that begins some encoding, or for one byte if none does |
| `Utf8Laws.LossyReplaces` | daemon/host/src/terminal.rs:158-158 | lossy decoding keeps the well-formed text in front, puts one replacement character for the ill-formed part and goes on behind it |
| `SchemaCheck.ValidateSchema` | scripts/codegen/rust/main.ts:290-335 | reports the first fault there is, none exactly for the well-formed schemas: distinct names, distinct proc ids, distinct ids within each enum, union and field list, and only declared types |
| `SchemaCheck.FirstFault` | scripts/codegen/rust/main.ts:290-335 | names and proc ids come first, then the declarations in order; there is no fault exactly if the schema is well formed |
| `SchemaCheck.ValidateUniqueIds` | scripts/codegen/rust/main.ts:344-355 | reports the first id that stood before, none exactly for lists of distinct ids |
| `SchemaCheck.ValidateTypeRef` | scripts/codegen/rust/main.ts:337-342 | reports the named part of a type, under any depth of arrays, exactly if it is not declared |
| `SchemaCheck.CollectNames` | scripts/codegen/rust/main.ts:291-311 | reports the first repeated name or proc id; if there is none, collects exactly the declared paths |
| `SchemaCheck.AcceptedSchemaIsValid` | scripts/codegen/rust/main.ts:290-335 | a schema that passes, and whose types have a finite size, has everything that the round trip asks for |
| `SchemaCheck.MapHasThePaths` | scripts/codegen/rust/main.ts:1672-1678 | the declaration map has exactly the declared paths, each with a declaration of that path |
| `SchemaLaws.EncodeSucceedsInRange` | scripts/codegen/rust/main.ts:1473-1510 | generated encoding fails exactly on integers outside 53 bits and non-finite floats; what it gives is encodable, readable in Rust, and in TypeScript if no list is longer than its arrays |
| `SchemaEvolution.EncodedFieldIsFound` | scripts/codegen/rust/main.ts:1276-1299 | a field is found under its id exactly if it was present, with its own encoding, whatever the other fields are |
| `SchemaEvolution.TypedRoundTrip` | scripts/codegen/rust/main.ts:614-739 | for every valid schema and value in range: generated encoder, bytes, decoder, generated decoder give the value back, in Rust always and in TypeScript if no text starts with a byte-order mark and no list is longer than its arrays |
| `SchemaViews.TypedEvolution` | scripts/codegen/rust/main.ts:1370-1383 | a reader with another schema over the same ids gets, in both languages, exactly the value that a relation on the two values describes: its own fields and variants by id, nothing for absent optional fields, zero for absent required ones, at every depth; it fails exactly if there is no such value |
| `SchemaViews.ProjectIsSeen` | scripts/codegen/rust/main.ts:1370-1383 | that function gives a value exactly if the value stands in the relation |
| `SchemaViews.DefaultIsTheZero` | scripts/codegen/rust/main.ts:1456-1471 | every type has exactly one zero value (0, false, empty, the first variant, optional fields absent, required ones zero again), and it is the default |
| `SchemaReading.DecodedIsMeant` | scripts/codegen/rust/main.ts:1427-1447 | on every CBOR value whatever a generated decoder, in either language, gives a typed value exactly if the one means the other, a relation that looks at kinds, ranges, ids and zero values |
| `SchemaReading.RefusalIsExplained` | scripts/codegen/rust/main.ts:1427-1447 | its error names what is wrong: the kind that was expected, the unknown variant, or that of the first item or field that means nothing |
| `SchemaReading.DecodersDifferOnNumbersOnly` | scripts/codegen/rust/main.ts:1427-1447 | on every value the Rust decoder accepts exactly what the TypeScript decoder accepts with all numbers in the range of their types, and gives the same |
| `SchemaReading.EncodingErrorIsTrue` | scripts/codegen/rust/main.ts:1473-1510 | the error of a generated encoder is about an unsafe integer or a float that is not finite somewhere in the value |
| `SchemaEvolution.ReaderSeesProjection` | scripts/codegen/rust/main.ts:1427-1447 | the same for both languages and every nested type, on values, as a function of the value |
| `SchemaEvolution.SelfProjection` | scripts/codegen/rust/main.ts:614-739 | read with the writer's own schema nothing is lost |
| `SchemaDecoding.DefaultIsTyped` | scripts/codegen/rust/main.ts:1456-1471 | the default of every type is a value of the type and can be encoded |
| `SchemaDecoding.DecodedIsTyped` | scripts/codegen/rust/main.ts:1427-1447 | whatever value a generated decoder accepts, the result is a value of the type |
| `SchemaDecoding.AcceptedBytesAreTyped` | scripts/codegen/rust/main.ts:741-760 | whatever bytes are accepted as a type give a value of it, which can be encoded again exactly if it is in range and then decodes to itself |
| `Wire.WireDeclarationsAreValid` | web/src/protocol/generated/wire.ts:5-57 | the declarations of the wire messages are a valid schema |
| `Wire.PartsFit` | daemon/core/src/wire.rs:194-204 | a message in range flattens to a kind and a field map that both languages can encode and read |
| `Wire.MessagesHoldNoLists` | web/src/protocol/generated/wire.ts:5-57 | no wire message holds a list, so array limits never matter on the wire |
| `WireLayout.MessageIsLaidOut` | web/src/protocol/generated/wire.ts:5-57 | every message that can be sent goes under the number of its kind and has exactly the fields of that kind, under their numbers, with values of their kinds and codes |
| `WireLayout.RequestVector` | daemon/core/src/wire.rs:313-322 | the bytes of a unary request of procedure 2 without payload |
| `Wire.PartsDecode` | daemon/core/src/wire.rs:206-208 | the flattened parts, read back in either language, give the message |
| `Wire.MessagePrefixIsStable` | daemon/core/src/wire.rs:64-76 | a message or an error in front of the buffer stays whatever arrives behind it |
| `Wire.MessagePrefixOfEncode` | daemon/core/src/wire.rs:34-76 | in front of any bytes an encoded message is decoded and exactly its bytes are consumed |
| `WireLaws.NeedsMoreExactly` | daemon/core/src/wire.rs:64-76 | the front of a buffer counts as incomplete exactly if some continuation gives a message or an error |
| `WireGrammar.MessageIsSpelled` | daemon/core/src/wire.rs:64-76 | a message of some length is taken from the front of any buffer exactly if that many bytes spell a kind and a field map that together mean the message |
| `WireGrammar.RefusalNamesBadFront` | daemon/core/src/wire.rs:64-76 | an error is that of the first of the two items that is refused, or says why the two are no message |
| `WireGrammar.OnlyLongBuffersAreTooLarge` | daemon/core/src/wire.rs:64-76 | a buffer is refused as too large exactly if it is longer than 64 MiB |
| `WireGrammar.SortKeepsMeaning` | daemon/core/src/wire.rs:206-208 | the order of map entries never matters to a generated decoder |
| `WireLaws.RunBehindMessages` | daemon/core/src/wire.rs:43-76 | behind a list of encoded messages, whatever the tail, the stream gives these messages and then goes on as the tail alone |
| `WireLaws.TailDecides` | daemon/host/src/server.rs:1026-1040 | a stream with no whole message left ends cleanly exactly if nothing is left, incomplete exactly if some continuation would help, and an error is final |
| `Wire.EncodeSequenceSplits` | daemon/core/src/wire.rs:43-49 | the encoding of a list is that of its front followed by that of its back |
| `Wire.RunOfEncodedSequence` | daemon/core/src/wire.rs:43-76 | reading an encoded list as a stream gives the list and ends cleanly |
| `MessageReader.FlowOfSplit` | daemon/host/src/server.rs:1042-1047 | a split into non-empty chunks delivers all bytes; an empty read is the end, before any failure of the transport |
| `MessageReader.ReqResMessageReader.constructor` | daemon/host/src/server.rs:1017-1024 | a new reader has all bytes pending |
| `MessageReader.ReqResMessageReader.ReadMore` | daemon/host/src/server.rs:1042-1058 | a read moves bytes from the transport to the buffer, ends the stream, fails with the transport, or exceeds the limit; consumed and pending bytes always are the bytes of the stream |
| `MessageReader.ReqResMessageReader.Next` | daemon/host/src/server.rs:1026-1040 | each call gives the next message of the pending bytes, or the one outcome of the whole stream |
| `MessageReader.ReadAll` | daemon/host/src/server.rs:1061-1069 | messages and ending are those of the bytes, for every byte stream and every split into chunks, where a failing transport takes the place of a clean or incomplete end; past the limit there is no clean end |
| `MessageReader.SplitsAreReadAlike` | daemon/host/src/server.rs:1016-1069 | two splits of one stream give the same messages and the same ending |
| `MessageSequence.DecodeValueSequence` | daemon/core/src/cbor.rs:55-62 | values one behind the other to the end of the buffer |
| `MessageSequence.DecodeMessageSequence` | daemon/core/src/wire.rs:78-97 | size limit, emptiness, odd counts, and the pairs in order, each with its error |
| `MessageSequence.BatchAgreesWithStream` | daemon/core/src/wire.rs:64-97 | decoding a whole buffer succeeds exactly when streaming it ends cleanly, with the same messages |
| `WireGrammar.BatchRefusalIsExplained` | daemon/core/src/wire.rs:78-97 | a buffer is refused because it is too long, empty, holds an item that does not decode (a cut one included), an odd number of items, or a pair that is no message, and the error says which |
| `EventStream.DecodeSequencePrefix` | web/src/protocol/cbor.ts:48-67 | the complete items in front, with their end offsets; only a premature end is not an error |
| `EventStream.DecodeMessagesInFront` | web/src/protocol/wire.ts:102-119 | complete kind and field pairs become messages; the bytes read end behind the last complete pair |
| `EventStream.FrontOfMessages` | web/src/protocol/wire.ts:102-119 | of a buffer holding the front of an encoded list exactly the messages held in full are decoded, and the rest is less than one message |
| `EventGrammar.FrontIsTaken` | web/src/protocol/wire.ts:102-119 | from the front of any bytes exactly the whole messages they spell are taken, with less than one more behind them; or the error is that of an item behind whole items, or says why two items behind whole messages are no message |
| `EventStream.NextInStep` | web/src/protocol/client.ts:253-263 | after each chunk the consumed messages and the buffer still make up the stream, or what was delivered and the error are those of the whole list |
| `EventStream.ServerEventStream.Deliver` | web/src/protocol/client.ts:265-279 | of the messages in order, those of kind 5 and 6 with a payload field are delivered, byte for byte; the first other one ends the stream: kind 7 as the call's failure, 5 or 6 without payload as a missing payload, any other kind as unexpected |
| `EventStream.PayloadIsCarried` | web/src/protocol/client.ts:265-279 | a message gives bytes exactly if, flattened, its kind is 5 or 6 and its field 2 is present and holds them; else it gives the error of its kind |
| `EventStream.ConsumedIsGiven` | web/src/protocol/client.ts:265-279 | the same for every list of messages, up to the first that ends the stream |
| `EventStream.ServerEventStream.Stream` | web/src/protocol/client.ts:248-292 | for every list of messages without leading byte-order marks and every split of its encoding, exactly the payloads before the first message that is no event are delivered in order, and the stream ends with that message's error; if all are events it ends normally with an empty buffer; it never ends normally with bytes left |
| `EventStream.ConsumedOfConcat` | web/src/protocol/client.ts:265-279 | what a list delivers is what its front delivers and, if that was without error, what its back delivers |
| `TerminalParser.TerminalMetadataParser.PushBytes` | daemon/host/src/terminal.rs:104-163 | the state machine over the bytes, and the title and directory events it finds |
| `TerminalParser.Push` | daemon/host/src/terminal.rs:104-169 | the collected command never grows beyond 4096 bytes, whatever is pushed |
| `TerminalParser.UnescapeOsc633Value` | daemon/host/src/terminal.rs:225-250 | the unescaped text, decoded lossily |
| `TerminalParser.PercentDecodeText` | daemon/host/src/terminal.rs:252-270 | the percent-decoded text, decoded lossily |
| `TerminalParser.PushOfConcat` | daemon/host/src/terminal.rs:104-151 | parsing two pieces one after the other is parsing them joined |
| `TerminalParser.ChunksDoNotMatter` | daemon/host/src/terminal.rs:104-151 | events and state do not depend on how the output was cut |
| `ShellCwd.UnescapeOfEscape` | daemon/host/src/shell_integration.rs:228-232 | the parser's unescaping undoes the two substitutions of the script on every byte string |
| `ShellCwd.EscapeKeepsUtf8` | daemon/host/src/shell_integration.rs:228-232 | escaping keeps text well formed |
| `ShellCwd.NewlinesComeOffEither` | daemon/host/src/shell_integration.rs:236-236 | stripping trailing newlines, as the command substitution does, commutes with the escaping |
| `ShellCwd.OnlyNewlinesComeOff` | daemon/host/src/shell_integration.rs:236-236 | the command substitution takes all newlines off the end and nothing else |
| `ShellCwd.TrimIgnoresNewlines` | daemon/host/src/shell_integration.rs:236-236 | the newlines that the command substitution strips would be trimmed by the parser |
| `ShellCwd.CwdBodyParses` | daemon/host/src/terminal.rs:171-199 | the command's content parses to the announced path, trimmed, if it is not blank |
| `ShellCwd.CommandIsRead` | daemon/host/src/terminal.rs:126-163 | a command is read from its start to its terminator, and dropped beyond 4096 bytes |
| `ShellCwd.CwdIsLearned` | daemon/host/src/shell_integration.rs:228-236 | amid other output without escape characters and cut anywhere, the announced path is learned, trimmed, exactly if the command, without the trailing newlines of the path, fits and the path is not blank |
| `ShellCwd.CwdRoundTrip` | daemon/host/src/shell_integration.rs:228-236 | exactly the path itself is learned if and only if the command fits and the path is non-empty and has no surrounding white space |
| `ParserLaws.TrimIsExact` | daemon/host/src/terminal.rs:171-199 | trimming takes exactly the scalar values with the property White_Space off both ends of any text |
| `ParserLaws.UnescapeOfEscaped` | daemon/host/src/terminal.rs:225-250 | unescaping undoes every spelling (plain, doubled backslash, \\x with digits of either case) of every byte string |
| `ParserLaws.LoneBackslash` | daemon/host/src/terminal.rs:225-250 | a backslash that begins neither spelling stands for itself |
| `ParserLaws.PercentDecodeOfEncoded` | daemon/host/src/terminal.rs:252-270 | decoding undoes every percent encoding that encodes the percent signs |
| `ParserLaws.LonePercent` | daemon/host/src/terminal.rs:252-270 | a percent sign without two hexadecimal digits behind it stands for itself |
| `ParserLaws.TitleIsParsed` | daemon/host/src/terminal.rs:171-174 | sequences 0 and 2 announce their text, trimmed, as title unless it is blank |
| `ParserLaws.FileUrlIsParsed` | daemon/host/src/terminal.rs:201-223 | sequence 7 with a file URL announces the percent-decoded path behind the host, whatever the host |
| `ParserLaws.PlainPathIsParsed` | daemon/host/src/terminal.rs:201-223 | any other content of sequence 7 is a path as it stands; a file URL without path announces nothing |
| `ParserLaws.QuotedPathIsParsed` | daemon/host/src/terminal.rs:177-184 | sequence 9;9 announces its path, with or without quotes around it |
| `ParserLaws.OthersAnnounceNothing` | daemon/host/src/terminal.rs:171-187 | no other sequence announces anything |
| `ParserLaws.OtherPropertiesAnnounceNothing` | daemon/host/src/terminal.rs:177-199 | of sequence 633 only the property Cwd and of sequence 9 only its number 9 announce anything |
| `ParserLaws.OpensBehindEscapes` | daemon/host/src/terminal.rs:104-125 | any number of escape characters before the bracket opens a command; an escape character before anything else opens none |
| `ParserLaws.StringTerminatorEnds` | daemon/host/src/terminal.rs:126-151 | an escape character and a backslash end a command as the bell does |
| `ParserLaws.EscapeInside` | daemon/host/src/terminal.rs:126-151 | inside a command an escape character before any other byte belongs to the content, as does that byte |
| `Terminal.TerminalSession.constructor` | daemon/host/src/terminal.rs:355-385 | a new session: nothing retained, nobody attached |
| `Terminal.TerminalSession.AttachClient` | daemon/host/src/terminal.rs:422-456 | checks size and closing, records the owner, and returns the info and the replay taken in the same section |
| `Terminal.TerminalSession.Replay` | daemon/host/src/terminal.rs:729-751 | a gap notice if the next wanted record is gone, then the retained records not yet seen |
| `Terminal.TerminalSession.DetachClient` | daemon/host/src/terminal.rs:458-468 | the attach loses its owner; nothing else changes |
| `Terminal.TerminalSession.TakeTerminalControl` | daemon/host/src/terminal.rs:470-512 | checks in order; then the attach is the primary one and the size the requested one; the new primary and the new size are broadcast if they changed; a failed resize leaves the new fields and broadcasts nothing |
| `Terminal.TerminalSession.WriteTerminalInput` | daemon/host/src/terminal.rs:514-532 | the bytes reach the terminal exactly when the live primary attach of the caller sent them, all of them or, if the write fails, those taken before; the session is unchanged |
| `Terminal.TerminalSession.RecordOutput` | daemon/host/src/terminal.rs:563-624 | numbers the chunk, updates title and directory, retains, trims and broadcasts, in this order |
| `Terminal.TerminalSession.MarkExited` | daemon/host/src/terminal.rs:626-647 | the first exit of an open session is recorded and broadcast |
| `Terminal.TerminalSession.RemoveFromTable` | daemon/host/src/terminal.rs:534-544 | the session can be taken out of the table once |
| `Terminal.TerminalSession.FinishClosing` | daemon/host/src/terminal.rs:546-561 | the session is closed, that is broadcast, and the child is killed if it has not exited |
| `TerminalRuns.DropOldStopsFirst` | daemon/host/src/terminal.rs:598-605 | trimming stops at the longest suffix that fits, and the counter is then its size |
| `TerminalTheorems.RetainedOutput` | daemon/host/src/terminal.rs:593-605 | in every run the retained output is the longest suffix of the whole history that fits in 1 MiB, and the counter is its size |
| `TerminalTheorems.OutputIsNumbered` | daemon/host/src/terminal.rs:572-573 | sequence numbers are consecutive from one exactly while the saturating 64-bit counter has not run out |
| `TerminalTheorems.ReplayIsSuffix` | daemon/host/src/terminal.rs:729-751 | the replay is the gap notice, if due, and the history from the starting point on |
| `TerminalTheorems.AttachDelivers` | daemon/host/src/terminal.rs:422-456 | in every interleaving replay and live chunks together are the history from the starting point on, each record once and in order |
| `TerminalTheorems.GapIsAnnouncedOnce` | daemon/host/src/terminal.rs:729-737 | one gap notice exactly if records asked for are gone while later ones are retained, naming the first record delivered; none is broadcast later |
| `TerminalTheorems.SilentHoleExactly` | daemon/host/src/terminal.rs:729-737 | a hole goes unannounced exactly if the newest record alone exceeds the limit and was not seen |
| `TerminalTheorems.SilentHoleExample` | daemon/host/src/terminal.rs:598-605 | a concrete run with an unannounced hole |
| `TerminalTheorems.NoSilentHole` | daemon/host/src/terminal.rs:685-707 | as reads are at most 8192 bytes, holes and gap notices coincide |
| `TerminalTheorems.StepIsToldExactly` | daemon/host/src/terminal.rs:478-506 | the events of one section tell its whole change, unless a resize failed after the fields were set |
| `TerminalTheorems.SilentChangeExample` | daemon/host/src/terminal.rs:482-493 | a concrete run: attach, then take control where the resize fails; the client's info is then wrong |
| `TerminalTheorems.ClientFollowsSession` | daemon/host/src/terminal.rs:422-647 | folding the live events over the info at attach gives the current info at every point of the run exactly if no resize failed with something to change |
| `TerminalHistory.HistoryDecides` | daemon/host/src/terminal.rs:422-647 | after every run each part of the session is what the list of steps alone says: size and primary of the last step that took control (the initial ones if none did), title and directory of the last output that announced one, first exit, removal and closing, owners, records |
| `TerminalHistory.StepsAreAnswered` | daemon/host/src/terminal.rs:422-647 | after every run each further step gets the answer that the earlier steps alone determine (an attach: the info of that moment), and broadcasts exactly the events they determine: a takeover the new primary if it is another, and the new size if it is another |
| `TerminalStream.StreamAttached` | daemon/host/src/server.rs:2174-2228 | after the first message: the replay, then the exit if there was one, else live events up to and including exit or close |
| `TerminalStream.StreamIsContiguous` | daemon/host/src/server.rs:2174-2228 | in every run the chunks sent to an attach are a contiguous part of the history from its starting point; the stream stops after the first exit or close event with everything recorded before that event, or covers everything |
| `TerminalStream.LiveUpToFinal` | daemon/host/src/server.rs:2203-2216 | of the live events exactly those up to the first exit or close event are sent |
| `TerminalStream.StopsAtTheFirstEnd` | daemon/host/src/server.rs:2203-2216 | what is sent of the live events is the shortest front that ends with an exit or close event, or all of them if there is none |
| `TerminalStream.ChunksUpToFinal` | daemon/host/src/server.rs:2203-2216 | they carry exactly the output recorded from the attach to that event |
| `TerminalControl.InputOnlyFromTheLivePrimary` | daemon/host/src/terminal.rs:514-532 | in every run input reaches the terminal exactly from the session that was handed the attach, not detached since, whose attach was the last to take control |
| `TerminalControl.OwnersAreTheOwned` | daemon/host/src/terminal.rs:753-765 | the owner table holds exactly the attaches handed out and not detached since |
| `TerminalControl.PrimaryIsTheLastTaker` | daemon/host/src/terminal.rs:478-493 | the primary attach is that of the last step that took control |
| `TerminalControl.OneWriter` | daemon/host/src/terminal.rs:514-532 | at any moment at most one attach of one session can type |
| `TerminalControl.DetachIsForever` | daemon/host/src/terminal.rs:458-468 | a detached attach never types or takes control again, whoever presents its id |
| `TerminalControl.ExitAndCloseOnce` | daemon/host/src/terminal.rs:534-647 | in every run at most one exit and one close event, and after the close only control and size changes already under way |
| `TerminalControl.RemovedOnce` | daemon/host/src/terminal.rs:534-544 | once removed, every later close finds nothing |
| `Pairing.ConstantTimeEq` | daemon/core/src/pairing.rs:125-134 | the accumulated difference is zero exactly for equal byte strings |
| `Pairing.VerifyPairingCode` | daemon/core/src/pairing.rs:43-51 | a code is accepted exactly if unexpired and of the recorded hash |
| `Pairing.PairingState.BeginAttempt` | daemon/host/src/server.rs:3935-3953 | a new id becomes the key's current attempt and an active challenge of that key is dropped |
| `Pairing.PairingState.IsCurrentAttempt` | daemon/host/src/server.rs:3955-3966 | whether the attempt is its key's current one |
| `Pairing.PairingState.RejectAttempt` | daemon/host/src/server.rs:3478-3485 | a rejected attempt is forgotten if it is still current |
| `Pairing.PairingState.ActivateChallenge` | daemon/host/src/server.rs:3503-3524 | the challenge becomes active exactly if its attempt is still current |
| `Pairing.PairingState.NotificationFailed` | daemon/host/src/server.rs:3533-3539 | the challenge is withdrawn if it is still this attempt's |
| `Pairing.PairingState.CompletePairing` | daemon/host/src/server.rs:3560-3599 | the four refusals in order, and success, which uses the challenge up |
| `PairingTheorems.ActiveIsNewest` | daemon/host/src/server.rs:3445-3551 | in every interleaving the active challenge is that of the newest attempt begun for its key |
| `PairingTheorems.SuccessIsEarned` | daemon/host/src/server.rs:3553-3599 | a success was begun by the same session, confirmed, activated, not superseded, is unexpired and its code hashes to the recorded hash |
| `PairingTheorems.NoAttemptPairsTwice` | daemon/host/src/server.rs:3593-3599 | no attempt succeeds twice |
| `PairingTheorems.RightCodePairs` | daemon/host/src/server.rs:3553-3599 | the displayed code pairs on its session until it expires, if nothing replaced, used or withdrew it |
| `PairingTheorems.CodeHasNoSpace` | daemon/core/src/pairing.rs:30-41 | the trimming of the entered code does not change a displayed one |
| `PairingTheorems.CodeSpellsItsNumber` | daemon/core/src/pairing.rs:30-41 | a code is six decimal digits whose value is the number drawn |
| `PairingTheorems.KeysAreClients` | daemon/host/src/server.rs:3968-3973 | different clients have different keys and all anonymous ones the same; a blank client id is none, any other is trimmed |
| `PairingTheorems.RefusalsSayWhy` | daemon/host/src/server.rs:3553-3599 | in every interleaving a completion is refused exactly as the run says, in this order: no active code, begun by another session, too late, another code; only the expired code and the used one are withdrawn |
| `PairingTheorems.EndedAttemptsNeverPair` | daemon/host/src/server.rs:3464-3599 | in every interleaving an attempt that was refused, could not be shown, expired or succeeded never pairs afterwards |
| `PairingProgress.CurrentUntilSuperseded` | daemon/host/src/server.rs:3464-3524 | in every interleaving an attempt without a code is current exactly if no other attempt was begun for its client since |
| `PairingProgress.SupersededStops` | daemon/host/src/server.rs:3492-3524 | so both checks let it go on, and its code becomes the active one, exactly in that case |
| `PairingProgress.RefusalForgets` | daemon/host/src/server.rs:3471-3491 | a refusal takes that attempt out of the current ones and changes nothing else |
| `PairingProgress.UninterruptedPairs` | daemon/host/src/server.rs:3445-3599 | after any run whatever, a client that starts a pairing, is confirmed and types the code in time is paired as itself, with its label |
| `Credentials.ClientCredentials.Load` | daemon/host/src/server.rs:4000-4007 | an operation starts from what the file holds at that moment |
| `Credentials.ClientCredentials.Show` | daemon/host/src/server.rs:4064-4074 | the list an operation loaded or stored becomes the one that decides who is let in |
| `Credentials.ClientCredentials.Verify` | daemon/host/src/server.rs:3979-3989 | a client is let in exactly if the shown list has an unexpired record with its id and the digest of its secret |
| `Credentials.ClientCredentials.Issue` | daemon/host/src/server.rs:3604-3625 | the file becomes the loaded list in which the new record replaces any of the client, at the end |
| `Credentials.ClientCredentials.Renew` | daemon/host/src/server.rs:3635-3659 | the file becomes the loaded list with one client's expiry moved, or is left alone if that client is not found |
| `Credentials.IssueDecidesAdmission` | daemon/core/src/pairing.rs:53-89 | after a pairing the client is let in exactly with the new secret and until 30 days later, everybody else as before |
| `Credentials.IssueKeepsUnique` | daemon/host/src/server.rs:3604-3618 | one record per client is kept; a known client keeps its id and creation time |
| `Credentials.IssuedRecord` | daemon/host/src/server.rs:3600-3625 | the new record carries the label and secret of this pairing and expires after 30 days; its client is the known one that asked, with its creation time, or else a new one; all other records stay |
| `Credentials.RenewalExtends` | daemon/core/src/pairing.rs:91-101 | renewal moves one expiry and changes nobody's secret |
| `CredentialRuns.ListsAreFolded` | daemon/host/src/server.rs:3600-3659 | in every interleaving of loading, storing and showing, each list is what the operations of its lineage make of the initial one |
| `CredentialRuns.FileKeepsAllExactly` | daemon/host/src/server.rs:3600-3659 | the file contains every stored update, in order, exactly if no operation stored between another's loading and storing |
| `CredentialRuns.ShownKeepsAllExactly` | daemon/host/src/server.rs:4000-4074 | the list that decides who is let in contains every stored update exactly if no operations overlapped and nothing was stored since it was loaded or stored |
| `CredentialRuns.PairingCountsExactly` | daemon/host/src/server.rs:3600-3632 | in every interleaving a paired client can log in with its new secret exactly if its pairing is in the lineage of the shown list |
| `CredentialRuns.EveryPairingCountsExactly` | daemon/host/src/server.rs:3600-3632 | pairings of different clients all count exactly if no two overlapped and the newest list is shown |
| `CredentialRuns.LostPairing` | daemon/host/src/server.rs:3600-3659 | a concrete run in which a client was told of its pairing and cannot log in |
| `CredentialRuns.KnownIsAdmitted` | daemon/core/src/pairing.rs:91-101 | a client known by a secret is one that is let in with it until its record expires |
| `TableSync.DirectoryPatch` | daemon/host/src/server.rs:3136-3169 | the keys gone and the rows new or changed, or nothing |
| `TableSync.Subscription.Turn` | daemon/host/src/server.rs:2722-2782 | each turn sends the patch to the new listing and remembers it, or sends the closing reason and stops |
| `TableSync.TableView.Receive` | web/src/state/explorer.ts:626-664 | a snapshot replaces the rows, a patch removes and upserts and re-sorts, closing keeps the rows and reports where a moved directory went |
| `TableSync.KeepRows` | web/src/state/explorer.ts:643-649 | the rows whose key is not in the set, in order |
| `TableLaws.PatchSays` | daemon/host/src/server.rs:3136-3169 | exactly the keys that are gone, exactly the rows new or changed, each once, no key in both lists; both are empty exactly if the tables are equal |
| `TableLaws.PatchedIsNext` | web/src/state/explorer.ts:641-652 | without repeated keys, applying the patch to a view of the old table gives a view of the new one |
| `TableLaws.PatchAgreesExactly` | web/src/state/explorer.ts:641-652 | for any two listings, the patched view of the old one is a view of the new one exactly if, under every key, the two last rows are equal and all rows are the same, or they differ and the new listing has at most one row |
| `TableLaws.UniqueIsFollowable` | daemon/host/src/server.rs:3136-3169 | listings without repeated keys meet that condition |
| `TableLaws.ViewFollowsTable` | daemon/host/src/server.rs:2686-2783 | over a whole subscription without repeated keys the client shows the last listing up to order, and is told of the end exactly if a listing or the watcher failed |
| `TableLaws.SubscriptionAgreesExactly` | daemon/host/src/server.rs:2709-2783 | over a whole subscription, repeated keys or not, the client shows the last listing at every moment exactly if every listing meets the condition against the rows the server remembers |
| `TableLaws.EndTellsReason` | daemon/host/src/server.rs:2722-2783 | over a whole subscription the client is told the reason of the first failure, and nothing after it |
| `TableLaws.OnePassKeepsTheSame` | web/src/state/explorer.ts:672-685 | filtering once by both key sets is filtering twice |
| `TableLaws.DuplicateKeysDiverge` | daemon/host/src/server.rs:3136-3147 | a concrete run: two files whose names convert to the same text, one of which is deleted; the client shows it however often the server looks |
| `TableLaws.StaleForGood` | daemon/host/src/server.rs:2756-2771 | for any two rows with one key, the first of which goes: no number of further listings repairs the client's table |
| `WorkbenchLaws.NormalizeRepairs` | web/src/state/workbench.ts:985-1002 | normalising repairs any pane with tabs and changes only what the tabs remember |
| `WorkbenchLaws.ActivateShows` | web/src/state/workbench.ts:951-969 | the tab is shown if the pane has it, and the pane is in order |
| `WorkbenchLaws.InsertPlaces` | web/src/state/workbench.ts:1004-1021 | the tab stands right before or after its target, else last, and the others keep their order |
| `WorkbenchLaws.ReleaseTakesOne` | web/src/state/workbench.ts:521-533 | a pane that lets a tab go keeps all others, stays in order and keeps showing what it showed |
| `WorkbenchLaws.EditKeepsPane` | web/src/state/workbench.ts:935-1021 | every edit of a pane keeps it in order and changes its tabs by exactly what it brings and takes |
| `WorkbenchEffects.EditEffect` | web/src/state/workbench.ts:935-1021 | every edit of a pane does what it is to do, stated on the pane before and after: which tab is shown, which one it remembers, where a tab stands, which is shown after a close; all other tabs and their order stay |
| `WorkbenchEffects.EditsOneExactly` | web/src/state/workbench.ts:481-533 | in a workbench in order an operation on a pane does that there and nothing elsewhere |
| `WorkbenchTheorems.EditKeepsOrder` | web/src/state/workbench.ts:508-519 | an operation that edits and activates a pane keeps the workbench in order exactly if the pane exists |
| `WorkbenchStore.UnknownPaneExample` | web/src/state/workbench.ts:508-519 | a concrete input: selecting a tab of an unknown pane in a new workbench leaves no existing pane active |
| `WorkbenchTheorems.MoveTabConserves` | web/src/state/workbench.ts:535-594 | moving a tab keeps the workbench in order and the bag of tabs; it returns true exactly if the source pane is gone, and no other pane comes or goes |
| `WorkbenchTheorems.MoveTabShows` | web/src/state/workbench.ts:579-592 | a tab moved to another pane is shown there and that pane is active |
| `WorkbenchTheorems.MoveLands` | web/src/state/workbench.ts:579-582 | the target pane is its old self with the tab inserted at the drop position and shown |
| `WorkbenchTheorems.MoveToNewPaneConserves` | web/src/state/workbench.ts:596-646 | the same for a pane of its own, and the report about the source pane is true |
| `WorkbenchEffects.MovesExactly` | web/src/state/workbench.ts:535-594 | a move between panes closes the tab in its pane, or the pane if it was the last one, takes it in at the drop position of the other, and leaves every other pane alone |
| `WorkbenchEffects.MovesOutExactly` | web/src/state/workbench.ts:596-646 | a move to a pane of its own closes the tab in its pane, or the pane, and puts it, remembering nothing, alone into a last pane; exactly if the tab exists and is not dropped on its own pane alone |
| `WorkbenchStore.RemovePaneKeeps` | web/src/state/workbench.ts:183-198 | removing a pane takes exactly that pane with its tabs, and never the last pane; if it was active the first remaining one is |
| `WorkbenchStore.AddPaneKeeps` | web/src/state/workbench.ts:159-181 | a new pane adds exactly its tab |
| `WorkbenchStore.CloseTabKeeps` | web/src/state/workbench.ts:521-533 | closing takes exactly that tab, and never the last one of a pane |
| `WorkbenchStore.DuplicateKeeps` | web/src/state/workbench.ts:481-506 | duplicating adds exactly the copy |
| `WorkbenchStore.Store.constructor` | web/src/state/workbench.ts:112-122 | the initial workbench is in order; one that was stored before is taken as it is, so it is in order exactly if that one was |
| `WorkbenchStore.Store.SelectTool` | web/src/state/workbench.ts:1103-1131 | the active pane shows its first tab of the tool, which remembers the one shown before, or a new last tab; nothing else changes |
| `WorkbenchStore.Store.FocusPane` | web/src/state/workbench.ts:148-157 | the pane becomes active exactly if it exists; panes are untouched |
| `WorkbenchStore.Store.AddPane` | web/src/state/workbench.ts:159-181 | a last, active pane holds a copy of what the source pane shows if it shows something, else the files tab; the other panes are untouched |
| `WorkbenchStore.Store.RemovePane` | web/src/state/workbench.ts:183-198 | exactly that pane goes, unless it is the last; order is kept, also when the active pane goes |
| `WorkbenchStore.Store.OpenTab` | web/src/state/workbench.ts:1142-1156 | the pane becomes active and shows the new tab, last in it, which remembers the one shown before; nothing else changes; order is kept exactly if the pane exists |
| `WorkbenchStore.Store.OpenTabInActivePane` | web/src/state/workbench.ts:1133-1140 | the same in the active pane; order is always kept |
| `WorkbenchStore.Store.DuplicateTab` | web/src/state/workbench.ts:481-506 | exactly if the tab exists, a copy stands right behind it and is shown; nothing else changes |
| `WorkbenchStore.Store.SelectTab` | web/src/state/workbench.ts:508-519 | the pane becomes active and shows the requested tab if it has it, which remembers the one shown before; nothing else changes; order is kept exactly if the pane exists |
| `WorkbenchStore.Store.CloseTab` | web/src/state/workbench.ts:521-533 | the tab goes unless it is the only one of its pane; if it was shown, the one it remembered is shown, else the first; nothing else changes |
| `WorkbenchStore.Store.MoveTab` | web/src/state/workbench.ts:535-594 | within a pane or between two, exactly what the two move theorems say; order and tabs are kept, and the result tells whether the source pane is gone |
| `WorkbenchStore.Store.MoveTabToNewPane` | web/src/state/workbench.ts:596-646 | exactly what the theorem on new panes says; order and tabs are kept |

## Left out

- `SchemaLaws.EncodeSucceedsInRange`: strings, byte strings and lists of a typed value are at most 2^53-1 long, the longest a host can hold.
- `SchemaDecoding.DecodedIsTyped`: the same bound, on the printed size of the value.
- `EventStream.ServerEventStream.Stream`: messages with a text that starts with a byte-order mark, which the reader drops, are outside the general clause; payloads are delivered as bytes, and decoding them as the response type of the call is not part of the loop's model.
- `Terminal.TerminalSession.AttachClient`: the attach time stamp and the table broadcast after the section are not modelled.
- `Terminal.TerminalSession.DetachClient`: the detach time stamp and the table broadcast after the section are not modelled.
- `Terminal.TerminalSession.RecordOutput`: the output time stamp and the table broadcast after the section are not modelled.
- `TerminalTheorems.AttachDelivers`: for receivers that keep up with the broadcast channel; a receiver that lags loses events and gets a notice with the number known at attach.
- `Pairing.PairingState.BeginAttempt`: attempt ids are unbounded numbers; the 64-bit counter would overflow after 2^64 attempts.
- `Credentials.ClientCredentials.Load`: a credentials file that cannot be read or written is not modelled.
- `WorkbenchStore.Store.AddPane`: what copying makes of a tab's content, and the copied view state, are a parameter.
- `WorkbenchStore.Store.DuplicateTab`: the same parameter for the copied content.
- Allocation limits and recursion depth in the decoders; lengths are those of a 64-bit host.
- Floats beyond their 64-bit pattern and whether they are finite.
- The emitted program text of the code generator, its BDL front end, the proc tables and the RPC dispatch; the TypeScript generator is represented by the generated wire codec and its helper functions.
- The conversion between the hand-written and the generated TypeScript message types, datagrams, credentials and RPC error payloads: flat records without new behaviour.
- The Windows variant of file URL paths, and the fish shell's escape, which differs from bash and zsh.
- The shell launch arguments and start-up files around the script.
- The table of all terminal sessions, whose patches are broadcast after the session lock is dropped and whose snapshot is taken before subscribing.
- The authentication of a session, whose check and write are separate lock scopes.
- The periodic shells table and the processes table, which send whole snapshots.
- The layout of panes on the screen, the contents of tabs, menus, modals and local storage.
- Transport, TLS, file watching, timers, configuration files and the operating-system services.
