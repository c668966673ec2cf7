# Verification of dbfw-agent-core

`dbfw-agent-core` is the library behind a database firewall: it frames wire packets, extracts the
command or SQL text they carry, and lets an ordered rule list decide whether to allow, report or block.
This project models that path in Dafny and proves what a caller relies on. Go strings and byte slices are
byte strings here, `int` is 64 bits wide, and conversions to `int32`, `uint32` and `int` are written out
where they can change a value.

| module | models |
|---|---|
| `Bytes`, `Occurrences`, `Buffers`, `Streams` | fixed-width integers, substring search, in-place buffer filling, connections that split their reads arbitrarily, `PrefixedConn`, `io.ReadFull` |
| `Bson`, `BsonWalk` | the BSON document tree with its encoder, and the flat byte walker and raw scans of `protocol/mongodb/bson.go` proved against it |
| `EmptyScan`, `OperatorScan` | the two raw scans against the tree in both directions |
| `MongoMessages`, `BlockResponse` | message framing, OP_MSG sections, OP_QUERY, the rule string, the block response |
| `RuleEngine`, `MongoRules` | first-match rules and the engine object; the ten default MongoDB patterns, matched exactly on every byte string |
| `MongoDecision`, `MongoExactness` | from wire bytes to the decision: what must be blocked is blocked, and exactly when the default rules block |
| `MysqlFraming`, `MysqlCommands` | fragment reassembly, whole runs, truncation errors; length-encoded integers, COM_QUERY, the handshake response, error packets |
| `Postgres` | framing, Parse/Bind/Query texts, data rows, the error reply |
| `EngineConcurrency` | every interleaving of engine calls under the read-write lock |
| `StableSorting`, `Fingerprint`, `FingerprintTokens`, `FingerprintOrder` | deduplication, stable sorting and top-N selection of content tokens; what tokens stand for; sets of values and the order of their tokens |

The programs are methods with the loops and in-place updates of the Go code; each is proved equal to a
function of its input (or of the unread bytes of its connection), and the lemmas are about those functions.

Where the code does not do what its comments say, or does something a caller would not expect, the exact
condition is proved, and inputs on the failing side are given:

- `EmptyScan.ScanIsExactly`: the comment on `HasEmptyFilter` promises true when an empty document appears. Besides
  those, the scan reports exactly the documents in which a leaf element shows the five bytes in its own bytes (up to
  the end of its documents), a key ending in 05 stands in front of a nested length that is a multiple of 2^24, or a
  selector behind the document holds the bytes. `MongoDecision.EmptyFilterIsRightWhen` says when the flag of a delete
  or update is right; `EmptyScan.FivesForge` names whole families for which it is not, such as any 64-bit integer 5.
- `BsonWalk.AllStringsAreRecordedWhen`: the comment on `ParseTopLevel` says that non-string values are skipped. All
  top-level strings are recorded exactly when none stands behind an element of a type the walker does not know, such
  as code; `MongoDecision.DatabaseBehindUnknownIsLost` shows a `$db` that is missed.
- `MysqlFraming.TruncationError`: the comment on `ReadPacket` promises `io.ErrUnexpectedEOF` for a truncated
  packet. When the stream ends between two fragments or right behind a fragment header, the wrapped error is
  `io.EOF`; in all other cases the promise is kept. Inputs: `TruncatedBehindHeader`, `TruncatedBetweenFragments`.
- `MongoMessages.BareEOFMeaning`, `Postgres.BareEOFMeaning`: a bare `io.EOF` is also returned for a message cut
  off right behind its header, and in no other case but the empty stream. Inputs: `HeaderAloneIsBareEOF` in each.
- `MysqlCommands.MalformedIsAcceptedWhen`: the comment on `ParseHandshakeResponse` promises failure on truncated or
  malformed input. Accepted although they encode no handshake response of the layout given there are exactly the
  32-byte SSL request and the payloads that announce an auth response that is not all there, a database without its
  NUL, or a plugin name without its NUL (`TruncatedAuthIsAccepted`, `TruncatedPluginNameIsAccepted`).
- `MysqlCommands.HandshakePanicsWhen`: the declared length of a length-encoded auth response is not checked; the
  parser panics exactly when a database name is to follow and that length puts the position behind the auth response
  at 2^63 or more but below 2^64. `DeclaredLengthIsTrusted` gives, for every eight-byte length, which of acceptance,
  panic and a database read from the fixed part of the payload it causes.
- `MysqlCommands.ErrorPacketIsRead`: the error packet is a single packet exactly when its payload is shorter
  than the largest fragment.
- `Postgres.ReplyFieldsAreRecovered`: the fields of the error reply are recoverable exactly when the message
  has no NUL.
- `Postgres.ExtractAgreesWithParse`: where `ExtractSQL` and `ParseParse` differ on a Parse packet.
- `FingerprintTokens.OneCredentialSuppressesAll`: the comment on `FingerprintValues` speaks of concatenated per-value
  tokens. There is no result exactly when there is no text or one value looks like a credential.
- `FingerprintOrder.ConcatenationWhen`: otherwise the tokens are those of the values
  (`FingerprintTokens.ValuesGiveTheirTokens`), and the list, as leaves, is the concatenation exactly when every leaf of
  an earlier value is longer than every leaf of a later one, or as long, different and of no later class; the same for
  the tokens themselves unless the digest collides (`ConcatenatedWhenInOrder`, `ConcatenatedOnlyInOrder`).
  `FingerprintTokens.LongestTokenWins` gives values on the other side.

## Model

| member | source | states |
|---|---|---|
| Streams.PrefixedConn.Read | tlsutil/tlsutil.go:60-67 | the bytes delivered are the next ones of prefix then connection, none lost or repeated at the seam |
| Streams.ReadFull | tlsutil/tlsutil.go:60-67 | filling a buffer depends on the remaining bytes only, not on how reads are split or where the prefix ends; the error tells an empty from a cut-off read |
| Bson.ScalarsAreValues | protocol/mongodb/bson.go:133-170 | the widths of all fixed-width types, in numbers and by typed payloads (bool, object id, 32- and 64-bit numbers, decimals) |
| Bson.ExampleIsEncoded | protocol/mongodb/bson.go:8-26 | the reference encoder gives the bytes of an example of the BSON standard |
| BsonWalk.SkipLengths | protocol/mongodb/bson.go:133-178 | the advance for every type code, in numbers, on any bytes |
| BsonWalk.SkipBSONValue | protocol/mongodb/bson.go:133-178 | for any bytes and type code: the advance, -1 for unknown types and missing lengths |
| BsonWalk.SkipIsPayloadLength | protocol/mongodb/bson.go:133-178 | skipping an encoded value of a known type advances by exactly its length, nested documents included |
| BsonWalk.ParseTopLevel | protocol/mongodb/bson.go:30-70 | on any bytes the walk ends, stays in range, and returns the last-wins map of the pairs it met |
| BsonWalk.UnusableYieldsNothing | protocol/mongodb/bson.go:30-38 | too short data and unusable declared lengths yield nothing, other data its first key |
| BsonWalk.RecordedIsInside | protocol/mongodb/bson.go:40-68 | on any bytes, every pair recorded is a string element that stands in the data, in front of the end of the declared length |
| BsonWalk.TextAtEndIsRead | protocol/mongodb/bson.go:60-66 | strings up to the very end of the data are read, empty lengths and strings beyond the end are not |
| BsonWalk.RecordedOfEncoded | protocol/mongodb/bson.go:30-70 | for an encoded document followed by anything, those pairs are the string fields before the first element of unknown type |
| BsonWalk.WalkOfElements | protocol/mongodb/bson.go:40-68 | the walk from any element boundary meets exactly the string fields of the elements that follow |
| Bson.LastWinsMeaning | protocol/mongodb/bson.go:31-64 | a key is in the map exactly when a pair has it, and the last such pair gives its value |
| BsonWalk.AllStringsAreRecordedWhen | protocol/mongodb/bson.go:28-29 | all top-level strings are recorded exactly when none stands behind an element of unknown type, and which map results otherwise |
| BsonWalk.FirstKeyValue | protocol/mongodb/bson.go:74-108 | on any bytes: the first key and string value, empty where there is none |
| BsonWalk.FirstOfEncoded | protocol/mongodb/bson.go:74-108 | for an encoded document: its first key, and that element's value exactly when it is a string |
| BsonWalk.FirstIsFirstRecorded | protocol/mongodb/bson.go:72-108 | a non-empty first value is the first pair ParseTopLevel records when the declared length is at least 6 |
| BsonWalk.ScanDangerousOps | protocol/mongodb/bson.go:110-125 | the operators that occur in the bytes, in list order |
| BsonWalk.OccurringInOrder | protocol/mongodb/bson.go:116-125 | operators are listed in the order of the list |
| BsonWalk.KeyIsSubstring | protocol/mongodb/bson.go:117-125 | a key at any depth occurs in the encoding |
| BsonWalk.EmptyIsSubstring | protocol/mongodb/bson.go:127-131 | an empty document or array at any depth leaves its bytes in the encoding |
| BsonWalk.ScansAreComplete | protocol/mongodb/bson.go:110-131 | neither scan misses anything the document tree holds, whatever follows it |
| EmptyScan.ElementOccurrences | protocol/mongodb/bson.go:127-131 | by tree induction: the five bytes start in an element list exactly where an empty document stands or an element forges them |
| EmptyScan.ScanIsExactly | protocol/mongodb/bson.go:127-131 | for every well-formed document and every tail: the scan reports it exactly when it holds an empty document or array or misleads the scan; hence exactly when the scan is right |
| EmptyScan.FivesForge | protocol/mongodb/bson.go:127-131 | under any key, a 64-bit 5, five bytes of generic binary and a final 32-bit 5 mislead it |
| OperatorScan.ElementOccurrences | protocol/mongodb/bson.go:116-125 | by tree induction: a NUL-free text starts in an element list exactly where an element shows it |
| OperatorScan.ScanIsExactly | protocol/mongodb/bson.go:116-125 | for every document and tail, a script operator occurs exactly when the document shows it in a key, a leaf or a length, at any depth, or the tail holds it |
| OperatorScan.SmallLengthShowsNothing | protocol/mongodb/bson.go:116-125 | below 512 MiB no length shows an operator |
| OperatorScan.TextShows | protocol/mongodb/bson.go:116-125 | a string value shows an operator exactly when its text contains it |
| MongoMessages.ReadPacket | protocol/mongodb/packet.go:35-59 | the message, error and unread rest as a function of the remaining bytes |
| MongoMessages.MessageLayout | protocol/mongodb/packet.go:35-59 | which bytes become which field, and both length bounds in numbers |
| MongoMessages.TransportErrorIsPassedOn | protocol/mongodb/packet.go:37-50 | a failure of the connection is passed on as it is |
| MongoMessages.EncodedMessageIsRead | protocol/mongodb/packet.go:35-59 | reading an encoded message recovers every field and leaves exactly what follows |
| MongoMessages.ReadMessageIsEncoded | protocol/mongodb/packet.go:35-59 | whatever is read is an encoded message from the front of the stream |
| MongoMessages.BareEOFMeaning | protocol/mongodb/packet.go:37-50 | a bare end-of-file error means an empty stream or a message cut off behind its header |
| MongoMessages.HeaderAloneIsBareEOF | protocol/mongodb/packet.go:46-50 | the header of any message with a payload is such a cut-off message |
| MongoMessages.BuildInfo | protocol/mongodb/opmsg.go:111-126 | the command fields as functions of the document bytes |
| MongoMessages.FieldsOfInfo | protocol/mongodb/opmsg.go:111-126 | which key names the database, which commands are searched for an empty filter, which operators are looked for |
| MongoMessages.ParseOpMsg | protocol/mongodb/opmsg.go:57-89 | the command of the first body section, or none |
| MongoMessages.ParseOpQuery | protocol/mongodb/opmsg.go:93-109 | the command of the legacy query document, or none |
| MongoMessages.ExtractCommand | protocol/mongodb/opmsg.go:43-55 | nothing from responses and other operations |
| MongoMessages.OperationDecides | protocol/mongodb/opmsg.go:43-55 | only operations 2013 and 2004 of a client give a command, each by its own rules |
| MongoMessages.FramedIsExtracted | protocol/mongodb/opmsg.go:57-89 | any bytes framed as a body behind any document sequences are taken as the command document |
| MongoMessages.ExtractedIsFramed | protocol/mongodb/opmsg.go:57-89 | conversely, a command is extracted only from sections of that form |
| MongoMessages.LegacyIsExtracted | protocol/mongodb/opmsg.go:91-109 | whatever stands behind flags, name and the two numbers is taken as the document |
| MongoMessages.ExtractedIsLegacy | protocol/mongodb/opmsg.go:91-109 | conversely, a command is extracted only from a message of that form |
| MongoMessages.MsgInfoIsBodyInfo | protocol/mongodb/opmsg.go:57-89 | any document sequences before the body and any bytes after it leave the command unchanged |
| MongoMessages.QueryInfoIsDocumentInfo | protocol/mongodb/opmsg.go:91-109 | the same document sent as OP_QUERY gives its command, with or without a selector behind it |
| MongoMessages.TrailingBytesAddFindingsOnly | protocol/mongodb/opmsg.go:108-126 | a selector changes neither command, collection nor database and removes no finding |
| MongoMessages.ToRuleString | protocol/mongodb/opmsg.go:19-39 | the rendered command |
| MongoMessages.RuleStringForm | protocol/mongodb/opmsg.go:17-39 | the documented form of the rule string, empty parts left out |
| BlockResponse.BuildErrorBSON | protocol/mongodb/opmsg.go:145-170 | the hand-filled buffer is the encoding of the reply document |
| BlockResponse.ErrorDocumentBytes | protocol/mongodb/opmsg.go:144-170 | the reply document byte by byte: ok is eight zero bytes, the code is 2 |
| BlockResponse.BuildBlockResponse | protocol/mongodb/opmsg.go:129-142 | the hand-filled buffer is an encoded OP_MSG with that document as body |
| BlockResponse.ErrorDocumentIsRead | protocol/mongodb/opmsg.go:144-170 | the walker finds "ok" first and exactly the message as string fields, NUL bytes included |
| BlockResponse.ResponseIsReadBack | protocol/mongodb/opmsg.go:128-142 | ReadPacket recovers the whole response; it counts as a client command exactly when ResponseTo is 0 |
| RuleEngine.RuleMatches | engine/engine.go:38-67 | the user must be listed, the database must be listed, and the pattern must match; empty lists and no pattern exclude nothing |
| RuleEngine.FirstMatchDecides | engine/engine.go:133-146 | a rule decides exactly when it matches and none before it does; otherwise allow, by "default-allow" |
| RuleEngine.FirstMatchIsMostSevere | engine/engine.go:15-20 | with block rules before alert rules before the rest, the first match is the most severe one |
| RuleEngine.EarlierRuleCanShadow | engine/engine.go:133-146 | in any list, a less severe rule in front of a more severe one hides it when just these two match |
| RuleEngine.OrderedExactlyWhenNothingShadows | engine/engine.go:133-146 | the first match is the most severe one whatever the rules match exactly when the list has that order |
| RuleEngine.Engine.SetSink | engine/engine.go:98-102 | replaces the sink and nothing else |
| RuleEngine.Engine.Reload | engine/engine.go:118-122 | replaces the rules and nothing else |
| RuleEngine.Engine.Emit | engine/engine.go:108-115 | sends one event with exactly these parts, unless it is to be ignored or there is no sink |
| RuleEngine.Engine.Decide | engine/engine.go:152-163 | the first match, and no event |
| RuleEngine.Engine.Evaluate | engine/engine.go:127-147 | the first match, and exactly the event of its action and rule, text and context |
| RuleEngine.DecideThenEmit | engine/engine.go:104-108 | deciding, reloading and emitting later sends what evaluating at once would have sent |
| MongoRules.DefaultRulesAreOrdered | engine/mongodb_rules.go:9-86 | the default list has blocks before alerts |
| MongoRules.DefaultRulesNeverShadow | engine/mongodb_rules.go:9-86 | so no default alert hides a default block, with these patterns or any others |
| MongoRules.PlainPatternIsSubstring | engine/mongodb_rules.go:18-25 | an unanchored literal alternation matches exactly the strings that contain one of its literals |
| MongoRules.CharacterClasses | engine/mongodb_rules.go:33-83 | word characters, and what case folding adds beyond ASCII |
| MongoRules.EmptyFilterWordMatches | engine/mongodb_rules.go:48 | a string ending in the separate word EMPTY_FILTER matches |
| MongoRules.CommandPatternMeaning | engine/mongodb_rules.go:33-83 | a command rule matches a rendered command exactly when one of its names names the command, whatever follows |
| MongoRules.AsciiCommandIsNamed | engine/mongodb_rules.go:33-83 | an ASCII command is named exactly when it starts with the letters in any case and a word ends there |
| MongoDecision.VerdictMeaning | engine/mongodb_rules.go:9-86 | the default decision on any rendered command, in terms of its rule string and name |
| MongoDecision.DecisionMeaning | engine/mongodb_rules.go:9-86 | the default decision in full, action and rule name, rule by rule |
| MongoDecision.DangerousOpIsShown | protocol/mongodb/opmsg.go:31-34 | every operator found appears as a flag in the rule string |
| MongoDecision.EmptyFilterIsShown | protocol/mongodb/opmsg.go:35-37 | the missing-filter mark ends the rule string and is matched |
| MongoDecision.WireCarriesDocument | protocol/mongodb/opmsg.go:43-109 | reading and extracting a client message gives the command of the document it carries |
| MongoDecision.InfoOfDocument | protocol/mongodb/opmsg.go:111-126 | command, collection, database, operators and the empty-filter flag, all exactly, in terms of the document tree |
| MongoDecision.DatabaseBehindUnknownIsLost | protocol/mongodb/bson.go:56-59 | inputs: a `$db` behind any second element of unknown type |
| MongoDecision.EmptyFilterIsRightWhen | protocol/mongodb/opmsg.go:122-124 | the flag of a delete or update says what the document holds exactly when it holds an empty one or does not mislead the scan |
| MongoDecision.VerdictOnMessage | protocol/mongodb/opmsg.go:41-126 | the decision on a message on the wire is the decision on its document |
| MongoDecision.WhereIsBlocked | engine/mongodb_rules.go:14-19 | `$where` as a key at any depth is blocked by its rule, in OP_MSG and OP_QUERY, from the wire bytes on |
| MongoDecision.MustBeBlockedIsBlocked | engine/mongodb_rules.go:21-63 | script operators at any depth, deletes and updates holding an empty document, and the blocked commands are blocked |
| MongoDecision.WatchedIsReported | engine/mongodb_rules.go:65-84 | the watched commands are at least reported |
| MongoDecision.EmptyFilterScanIsNotExact | protocol/mongodb/bson.go:127-131 | an input on the failing side: a delete that holds no empty document and is flagged |
| MongoExactness.NamesAreContained | protocol/mongodb/opmsg.go:111-121 | command, collection and database are substrings of the document bytes, well formed or not |
| MongoExactness.OperatorIsShownWhen | protocol/mongodb/opmsg.go:19-39 | the rule string shows an operator exactly when its name occurs in the document bytes: names cannot forge it |
| MongoExactness.WordOrigin | engine/mongodb_rules.go:48 | apart from the mark, the rule string shows the word EMPTY_FILTER exactly when the command, database or collection shows it by itself |
| MongoExactness.VerdictIsExactly | engine/mongodb_rules.go:9-86 | for every byte string as document, exactly when the default rules block, alert or allow, in terms of the bytes and the three names |
| MongoExactness.VerdictOnWireIsExactly | engine/mongodb_rules.go:9-86 | the same for every client message on the wire, in terms of the document sent |
| MongoExactness.DecisionIsExactly | engine/mongodb_rules.go:9-86 | the decision in full for every byte string as document |
| MongoExactness.DecisionOnWireIsExactly | engine/mongodb_rules.go:9-86 | the decision in full, action and rule name, for every client message on the wire, in terms of the document sent |
| MysqlFraming.Reader.ReadFragment | protocol/mysql/packet.go:93-107 | one wire packet, error and rest as a function of the remaining bytes |
| MysqlFraming.Reader.ReadPacket | protocol/mysql/packet.go:63-87 | the logical packet, error and rest as a function of the remaining bytes; nothing is held back |
| MysqlFraming.FragmentLayout | protocol/mysql/packet.go:93-107 | three bytes of length, least significant first, the sequence id, and when more follows |
| MysqlFraming.TransportErrorIsPassedOn | protocol/mysql/packet.go:93-107 | a failure of the connection is at the root of the error |
| MysqlFraming.FragmentedIsRead | protocol/mysql/packet.go:63-107 | any payload, fragmented under any sequence ids, is read back with the last id, the bytes verbatim, and exactly what follows left |
| MysqlFraming.ReadPacketIsFragmented | protocol/mysql/packet.go:25-42 | whatever is read, fragmenting its payload under the recorded ids gives Raw, which stood at the front; and the length of Raw |
| MysqlFraming.RunConservesBytes | protocol/mysql/packet.go:44-47 | after any number of reads, the raw bytes handed out and the unread rest are the original stream |
| MysqlFraming.RunReadsWhatWasSent | protocol/mysql/packet.go:63-87 | a run over any sequence of fragmented payloads reads exactly those, then a clean end |
| MysqlFraming.ChunkingIsInvisible | tlsutil/tlsutil.go:51-67 | two connections carrying the same bytes, split and prefixed in any way, give the same packets and error |
| MysqlFraming.BareEOFMeaning | protocol/mysql/packet.go:60-62 | a bare io.EOF means the stream was empty at the call |
| MysqlFraming.TruncationError | protocol/mysql/packet.go:60-62 | which error a truncated stream gives, exactly |
| MysqlFraming.TruncatedBehindHeader | protocol/mysql/packet.go:103-104 | an input: a header that announces one byte, and nothing else |
| MysqlFraming.TruncatedBetweenFragments | protocol/mysql/packet.go:77-81 | inputs: any single full fragment |
| MysqlCommands.LenEncIsRead | protocol/mysql/command.go:99-124 | decoding inverts all four forms of every value, whatever follows |
| MysqlCommands.LenEncBytes | protocol/mysql/command.go:99-124 | the short forms byte by byte, and the prefixes that are none |
| MysqlCommands.LenEncEightBytes | protocol/mysql/command.go:99-124 | the eight-byte form |
| MysqlCommands.ReadLenEncIsEncoded | protocol/mysql/command.go:99-124 | whatever is decoded stands at the front in one of the forms |
| MysqlCommands.ClassicQueryIsExtracted | protocol/mysql/command.go:68-75 | without attributes the text is the rest of the payload; other commands and empty payloads give none, with or without |
| MysqlCommands.QueryIsExtracted | protocol/mysql/command.go:68-94 | the SQL text is recovered behind an empty attribute block in any encoding, and not behind parameters |
| MysqlCommands.ExtractedQueryIsEncoded | protocol/mysql/command.go:68-94 | a text is extracted only from behind an empty attribute block |
| MysqlCommands.ParseHandshakeResponse | protocol/mysql/handshake.go:33-91 | the outcome as a function of the payload, with the panic and the 64-bit wrap-around |
| MysqlCommands.CapabilityBits | protocol/mysql/handshake.go:8-14 | the bit numbers of the capabilities that select the layout |
| MysqlCommands.HandshakeFields | protocol/mysql/handshake.go:33-91 | what is returned in every case, with or without success; an SSL request returns its capability word |
| MysqlCommands.HandshakeIsRead | protocol/mysql/handshake.go:16-91 | capabilities, user name, and the database exactly when announced, for each of the three auth encodings and any trailing data |
| MysqlCommands.HandshakePanicsWhen | protocol/mysql/handshake.go:57-88 | exactly when the parser panics |
| MysqlCommands.HandshakeAcceptsWhen | protocol/mysql/handshake.go:33-91 | exactly when it reports success |
| MysqlCommands.MalformedIsAcceptedWhen | protocol/mysql/handshake.go:21-32 | a payload encodes a handshake response exactly when every announced field is there in full, and exactly which other payloads are accepted |
| MysqlCommands.TruncatedAuthIsAccepted | protocol/mysql/handshake.go:64-69 | inputs: any one-byte auth length larger than what follows |
| MysqlCommands.TruncatedPluginNameIsAccepted | protocol/mysql/handshake.go:24-32 | inputs: any announced plugin name that is cut off or missing |
| MysqlCommands.InputsExist | protocol/mysql/handshake.go:9-14 | there are capability words for the inputs of the three lemmas around |
| MysqlCommands.DeclaredLengthIsTrusted | protocol/mysql/handshake.go:57-88 | for every eight-byte length: accepted, panic, or a database from the fixed part |
| MysqlCommands.BuildErrorPacket | protocol/mysql/error.go:15-36 | header, marker, code, padded or truncated state and message |
| MysqlCommands.ErrorPacketIsRead | protocol/mysql/error.go:3-36 | it is read back as one packet exactly when its payload is shorter than the largest fragment |
| MysqlCommands.ErrorFields | protocol/mysql/error.go:7-14 | the fields stand where the protocol puts them |
| Postgres.ReadPacket | protocol/postgres/packet.go:22-45 | the message, error and unread rest as a function of the remaining bytes |
| Postgres.PacketLayout | protocol/postgres/packet.go:22-45 | which bytes become which field, and both length bounds in numbers |
| Postgres.TransportErrorIsPassedOn | protocol/postgres/packet.go:24-38 | a failure of the connection is passed on as it is |
| Postgres.EncodedPacketIsRead | protocol/postgres/packet.go:22-45 | reading an encoded packet gives it back and leaves exactly what follows |
| Postgres.ReadPacketIsEncoded | protocol/postgres/packet.go:11-45 | what is read is an encoded packet from the front of the stream |
| Postgres.BareEOFMeaning | protocol/postgres/packet.go:24-38 | a bare end-of-file error means an empty stream or a message cut off behind its header |
| Postgres.HeaderAloneIsBareEOF | protocol/postgres/packet.go:34-38 | the header of any message with a payload is such a cut-off message |
| Postgres.ReadCString | protocol/postgres/query.go:73-82 | the NUL-terminated string and the offset behind it, or none |
| Postgres.ParseParse | protocol/postgres/query.go:87-100 | statement name and SQL text of a Parse packet |
| Postgres.ParseBind | protocol/postgres/query.go:105-118 | portal and statement name of a Bind packet |
| Postgres.TwoStringsAreRead | protocol/postgres/query.go:84-118 | both strings are recovered whatever follows them |
| Postgres.TwoStringsAreThere | protocol/postgres/query.go:84-118 | conversely, two names are found only where two terminated strings stand |
| Postgres.ExtractSQL | protocol/postgres/query.go:34-69 | the SQL text of a Query or Parse packet |
| Postgres.SimpleQueryIsExtracted | protocol/postgres/query.go:34-46 | a simple query is its payload without the final NUL; an empty one and other packets carry none |
| Postgres.ExtractAgreesWithParse | protocol/postgres/query.go:34-100 | on every Parse packet, how ExtractSQL relates to ParseParse |
| Postgres.ParseDataRow | protocol/postgres/query.go:144-171 | the values met until the payload ends early |
| Postgres.RowIsRead | protocol/postgres/query.go:139-171 | decoding an encoded row gives its non-NULL values in order, NULL being any negative length |
| Postgres.CutRowIsRead | protocol/postgres/query.go:155-170 | a row that ends inside a field gives the values of the fields before it |
| Postgres.TruncationGivesPrefix | protocol/postgres/query.go:155-170 | on any bytes, cutting the payload short only cuts the list of values short |
| Postgres.BuildErrorResponse | protocol/postgres/packet.go:77-96 | the hand-filled buffer is an encoded ErrorResponse |
| Postgres.ErrorReplyBytes | protocol/postgres/packet.go:77-96 | the reply byte by byte |
| Postgres.StatusIsLastByte | protocol/postgres/query.go:130-137 | the status is the last byte of a ReadyForQuery packet, and nothing else has one |
| Postgres.ErrorThenReadyIsRead | protocol/postgres/packet.go:74-102 | the client reads exactly an ErrorResponse and an idle ReadyForQuery |
| Postgres.ReplyFieldsAreRecovered | protocol/postgres/packet.go:79-94 | severity, SQLSTATE and message are recovered exactly when the message has no NUL |
| EngineConcurrency.InvHoldsInRun | engine/engine.go:86-122 | in every state of every interleaving the lock excludes writers from readers and what a reader has read is what is installed |
| EngineConcurrency.NoDeadlock | engine/engine.go:98-163 | while a call has not returned, some call can take a step |
| EngineConcurrency.WorksOnSnapshot | engine/engine.go:127-163 | every call works with one configuration installed while it held the lock |
| EngineConcurrency.EvaluateIsAtomic | engine/engine.go:124-147 | a finished Evaluate decided by one installed rule list; it sent nothing when that is to be ignored or no sink was installed, otherwise one event with the action and rule of the decision, its text and context, to the sink installed with the rules |
| EngineConcurrency.DecideIsAtomic | engine/engine.go:149-163 | a finished Decide decided by one installed rule list and sent nothing |
| EngineConcurrency.EmitIsAtomic | engine/engine.go:104-115 | a finished Emit sent exactly its event to the sink installed while it held the lock, or nothing |
| EngineConcurrency.FieldOrigin | engine/engine.go:98-122 | the rules and the sink in any state are what the last writer of that field installed, or the initial ones |
| EngineConcurrency.ReloadIsSeen | engine/engine.go:117-131 | an Evaluate that begins after a Reload has returned decides by its rules or by those of a later Reload |
| EngineConcurrency.DeferredEmitIsEvaluate | engine/engine.go:104-163 | Decide and a later Emit to an unchanged sink send what Evaluate would have, whatever reloads ran between |
| StableSorting.StableSort | content/content.go:90 | the array is sorted in place into the stable order |
| StableSorting.StableSortedIsStable | content/content.go:90 | descending, a permutation, ties in their order |
| StableSorting.StableSortIsUnique | content/content.go:90 | those three properties determine the list, so any stable sort gives the same one |
| Fingerprint.DedupKeyIsInjective | content/content.go:82-86 | two leaves share a key only when they are equal |
| Fingerprint.DistinctMeaning | content/content.go:76-89 | every leaf once |
| Fingerprint.DistinctKeepsOrder | content/content.go:76-89 | in the order of discovery |
| Fingerprint.TokenMeaning | content/content.go:110-121 | what is digested determines class and canonical form; two tokens are equal exactly when the classes are and the digest does not tell the leaves apart |
| Fingerprint.TokenBytes | content/content.go:110-121 | the bytes that are digested, and class, colon, digest as the token |
| FingerprintTokens.LeavesByClass | content/content.go:32-38 | which matches are leaves of which class, and which classes are lower-cased |
| FingerprintTokens.RepeatsOnlyOnCollision | content/content.go:82-98 | no token is listed twice unless the digest collides on two leaves of one class, and without a limit exactly then |
| Fingerprint.Fingerprint | content/content.go:66-99 | the selected tokens, or nothing for empty and credential texts |
| FingerprintTokens.OneCredentialSuppressesAll | content/content.go:101-108 | for patterns local to lines: no result exactly when there is no text or some value looks like a credential |
| FingerprintTokens.ValuesGiveTheirTokens | content/content.go:101-108 | otherwise the tokens are exactly those the values give one by one |
| FingerprintTokens.LongestTokenWins | content/content.go:90-93 | inputs: two values of which the later one has the longer token |
| FingerprintOrder.SelectedIsRanked | content/content.go:90-97 | the fingerprint lists the tokens of the ranked leaves |
| FingerprintOrder.RankedIsInOrder | content/content.go:74-90 | leaves are ranked by length, and those of one length by class |
| FingerprintOrder.ConcatenationWhen | content/content.go:101-108 | for any values: the ranking of all is the concatenation of the rankings exactly when every leaf of an earlier value goes before every leaf of a later one |
| FingerprintOrder.ConcatenatedWhenInOrder | content/content.go:101-108 | then the result is the concatenation of the per-value tokens, cut at any limit |
| FingerprintOrder.ConcatenatedOnlyInOrder | content/content.go:101-108 | and without a digest collision only then |
| Fingerprint.DiscoveredAreDistinctLeaves | content/content.go:74-89 | one token for each distinct (class, canonical form) pair |
| Fingerprint.SelectionIsTopN | content/content.go:90-93 | longest first, ties in order of discovery, nothing kept is shorter than anything dropped |
| Fingerprint.SmallerLimitGivesPrefix | content/content.go:91-93 | a smaller limit gives a prefix |

## Left out

- Documents inside OP_MSG kind-1 sections: the code skips them, so nothing is claimed about their content.
- The SQL patterns of engine/rules.go and engine/postgres_rules.go: Go regular expressions; a rule's pattern is any predicate on byte strings.
- `strings.EqualFold`, `strings.ToLower`, SHA-256 and the content patterns: parameters of the model.
- MysqlCommands.IsHandshake: of the fields behind the database only the plugin name of the layout in handshake.go is required; connection attributes count as trailing bytes.
- QueryMeta: of its fields only source, connection id, sequence number and tokens are kept; they are passed through.
- 32-bit platforms: on them `int` holds fewer values and the BSON lengths could turn negative.
- BlockResponse.BuildBlockResponse: messages so long that the int32 sizes wrap are excluded, since the buffer could not be made.
- Readers that write into the caller's buffer beyond the bytes they deliver.
- Aliasing of Payload and Raw in returned packets: packets are values.
- The writer preference of sync.RWMutex: the modelled lock admits readers and writers in any order it can.
- StableSorting.StableSort: insertion stands for the algorithm of sort.SliceStable; StableSorting.StableSortIsUnique shows that the result is the same.
- FingerprintTokens.ValuesGiveTheirTokens: that no pattern reaches across a line break is a hypothesis, since the patterns are parameters.
- The reflection, slice growth and allocation behaviour of Go.
- console, backend, certificate generation, protocol/mysql/stmt.go, startup and SSL packets of PostgreSQL, Execute packets, command names: single-branch members or calls to other systems.
