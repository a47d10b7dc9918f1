# knx-link in Dafny

knx-link is a TCP gateway to a KNX bus. A client sends a binary request that
names a group address, a KNX datapoint type and, for a write, textual values.
The gateway checks that the client is allowed to connect. It decodes the
request, asks the KNX client library to read or write the group address, and
answers with one or more response frames, each carrying a status code and,
optionally, a UTF-8 message. The repository has two sides:

- a Java gateway;
- a Rust command-line client that encodes group addresses, datapoint
  identifiers and values.

This project is a Dafny model of the byte and text codecs of both sides, the
gateway's decision logic, and the way the two sides meet.

**Gateway**

- `ArgumentParser`: the shell-like tokenizer for the values of a write
  request. It handles quotes, backslash escapes and whitespace runs. The
  model runs it as a loop over the decoded characters
  (`ArgumentParser.ToList`) and proves it against a recursive scanner.
- `ServerStatus`, `ServerAction`: the status and action code tables.
- `Header`: the two-byte version/action header.
- `FrameHeader`: the three-byte version/action/length header that the
  dispatcher and the reply writer use.
- `ResponseBody`: the last-packet flag, the 4-bit status nibble, a reserved
  octet and the data.
- `ReadRequestBody`, `WriteRequestBody`: the six-byte request prefix, with the
  argument tail of a write.
- `ProtocolHelper`: the group-address word, the three-step datapoint-type
  fallback, and argument delegation.
- `PacketReader`: the older NUL-terminated request layout.
- `SecurityAuditor`: the loopback / allow-list decision, which fails closed.
- `SocketWriter`: framing plus a guarded write.
- `SocketWorker` and the older `ServerWorker`: the dispatchers. Each is a
  class whose methods append the frames they send to the channel's `written`
  sequence. Each method is proved equal to a reply function, and the reply
  decision tree is proved about that function.
- `ChannelPacket` and `SocketChannel` (`Channels`): defensive array copies
  and the channel state.
- `KnxMode`: the case-insensitive mode parser.

**Client**

- `FreeLevel`, `TwoLevel`, `ThreeLevel`, `ClientGroupAddress`: group
  addresses in text and bytes.
- `Datapoint`: the `#.#`, `dpt-#`, `dpst-#-#` and `#` identifier forms and
  their four-byte encoding.
- `ClientStatus`, `ClientAction`, `ClientHeader`: the code tables and the
  three-byte header.
- `ClientProtocol`: the value-quoting loop with its 8-bit counter.
- `ClientReadRequest`, `ClientWriteRequest`: request framing.
- `ClientResponse`: the response decoder.
- `ClientProtocolV1`: the older NUL-terminated framing.

`CrossLanguage` proves what happens when client bytes reach the gateway and
gateway replies reach the client.

**External code.** The KNX client library is not part of this model. Three
stand-ins take its place, in `KnxCore`:

- a group address is its raw 16-bit word;
- the datapoint-type registry is a map from identifier texts (`dpst-M-S`,
  `dpt-M`) to opaque types, with a distinct `Raw` type;
- the bus client is a record of the outcomes of the one request a worker
  handles: read acknowledged, status-pool data, rendered text, how the
  argument conversion ends (converts, refused with a KNX exception, or any
  other exception), and write acknowledged.

**I/O.** The channel is a class with `open`, `connected`, `failing` (every
write raises an I/O error) and the remote address. Its `Write` method appends
a frame only when the write does not fail.

**Exceptions.** Each exception the source throws is a `Failure` value, and
each Rust `unwrap`/`expect` panic is a `Panic` value.

**Where the snapshots disagree.** The source files come from different
snapshots of the repository and do not always fit together. Each file is
modelled as written, and the disagreements are stated as lemmas:

- `Header.java` is the two-byte header. `SocketWorker` and `SocketWriter` use
  a three-byte header, modelled as `FrameHeader`.
- `response_body.rs` reads the status from byte 1. `ResponseBody.java` writes
  it into the low bits of byte 0. `CrossLanguage.RepliesReadAsSuccess` states
  the consequence.

## Model

| member | source | states |
|---|---|---|
| `ArgumentParser.ToList` | src/main/java/li/pitschmann/knx/link/ArgumentParser.java:72-134 | The loop over the decoded characters, with its quote and escape flags and its token buffer, returns exactly the scanner's result `Arguments(bytes)`, including the out-of-bounds failure. |
| `ArgumentParser.Finish` | src/main/java/li/pitschmann/knx/link/ArgumentParser.java:127-131 | At the end of the input, the buffer is added as one more token exactly when it is non-empty. |
| `ArgumentParser.ScanNoEmpty` | src/main/java/li/pitschmann/knx/link/ArgumentParser.java:95-99 | No token the scan returns is empty, whatever the starting state, as long as the tokens gathered so far are non-empty. |
| `ArgumentParser.ArgumentsNoEmpty` | src/main/java/li/pitschmann/knx/link/ArgumentParser.java:129-131 | No argument of any input is the empty string. |
| `ArgumentParser.ScanEnd` | src/main/java/li/pitschmann/knx/link/ArgumentParser.java:72-75 | The empty rest of an input finishes the scan. |
| `ArgumentParser.ScanPlain` | src/main/java/li/pitschmann/knx/link/ArgumentParser.java:121-123 | A run of characters that are not whitespace, backslash or quote is appended to the token verbatim, in or out of quotes. |
| `ArgumentParser.ScanQuotable` | src/main/java/li/pitschmann/knx/link/ArgumentParser.java:88-92 | Inside quotes, any run without backslash or quote, whitespace included, is appended to the token verbatim. |
| `ArgumentParser.ScanSkipsWhitespace` | src/main/java/li/pitschmann/knx/link/ArgumentParser.java:88-99 | Outside quotes and with an empty buffer, a run of whitespace is skipped entirely, so runs collapse. |
| `ArgumentParser.ScanSeparates` | src/main/java/li/pitschmann/knx/link/ArgumentParser.java:95-99 | Outside quotes, a whitespace character after a non-empty buffer closes the token and starts an empty one. |
| `ArgumentParser.ScanQuoted` | src/main/java/li/pitschmann/knx/link/ArgumentParser.java:114-120 | A quoted run without backslash or quote adds its content to the token and drops both quote characters. |
| `ArgumentParser.ScanEscapeOutside` | src/main/java/li/pitschmann/knx/link/ArgumentParser.java:100-117 | Outside quotes, a backslash makes the next character literal, whether it is a space, a backslash, a quote or anything else. |
| `ArgumentParser.ScanEscapedQuoteInside` | src/main/java/li/pitschmann/knx/link/ArgumentParser.java:102-117 | Inside quotes, `\"` gives a literal quote and the quote stays open. |
| `ArgumentParser.ScanBackslashInside` | src/main/java/li/pitschmann/knx/link/ArgumentParser.java:102-104 | Inside quotes, a backslash not followed by a quote is kept literally, and the next character is read normally. |
| `ArgumentParser.TrailingBackslash` | src/main/java/li/pitschmann/knx/link/ArgumentParser.java:102 | A final backslash fails exactly when a quote is open, where the source reads past the end of the array. Outside quotes it only sets the escape flag. |
| `ArgumentParser.OpenQuote` | src/main/java/li/pitschmann/knx/link/ArgumentParser.java:119 | An unescaped quote outside quotes opens a quote and adds nothing. |
| `ArgumentParser.UnclosedQuote` | src/main/java/li/pitschmann/knx/link/ArgumentParser.java:114-131 | An unclosed quote still yields its content as the one token. |
| `ArgumentParser.PlainWord` | src/main/java/li/pitschmann/knx/link/ArgumentParser.java:121-131 | A non-empty input without whitespace, quote or backslash is exactly one token equal to the input. |
| `ArgumentParser.PlainWordAfter` | src/main/java/li/pitschmann/knx/link/ArgumentParser.java:121-131 | Such a word at the end of the input is appended as the last token. |
| `ArgumentParser.PlainWordThenSpace` | src/main/java/li/pitschmann/knx/link/ArgumentParser.java:88-99 | A plain word followed by a space is closed as one token. |
| `ArgumentParser.ScanSpaceJoined` | src/test/java/li/pitschmann/knx/link/ArgumentParserTest.java:126-140 | Non-empty plain words joined by single spaces tokenize back to exactly those words. |
| `ArgumentParser.ScanQuotedJoin` | src/test/java/li/pitschmann/knx/link/ArgumentParserTest.java:143-148 | Non-empty values without quote or backslash, each quoted and joined by spaces, tokenize back to exactly those values. |
| `ArgumentParser.QuotedLast` | src/main/java/li/pitschmann/knx/link/ArgumentParser.java:114-131 | A single quoted value at the end is its own last token. |
| `ArgumentParser.QuotedThenSpace` | src/main/java/li/pitschmann/knx/link/ArgumentParser.java:88-120 | A quoted value followed by a space is closed as one token. |
| `ArgumentParser.EmptyQuotedVanishes` | src/main/java/li/pitschmann/knx/link/ArgumentParser.java:95-99 | `""` followed by a space contributes no token. |
| `ServerStatus.Code` | src/main/java/li/pitschmann/knx/link/Status.java:31-57 | The seven statuses have codes below 7. |
| `ServerStatus.Of` | src/main/java/li/pitschmann/knx/link/Status.java:65-70 | `of(code)` succeeds exactly for 0 to 6 and returns the status with that code. Any other integer fails with enum-not-found. |
| `ServerStatus.GetByte` | src/main/java/li/pitschmann/knx/link/Status.java:72-74 | `code % 0xFF` equals the code and fits in the 4-bit status nibble. |
| `ServerStatus.OfCode` | src/main/java/li/pitschmann/knx/link/Status.java:65-74 | `of(code(s)) == s` for every status. |
| `ServerStatus.CodeInjective` | src/main/java/li/pitschmann/knx/link/Status.java:31-57 | Distinct statuses have distinct codes. |
| `ServerAction.Code` | src/main/java/li/pitschmann/knx/link/Action.java:24-25 | Each action's code is its position in declaration order, so an ordinal look-up agrees with the code. |
| `ServerAction.GetByte` | src/main/java/li/pitschmann/knx/link/Action.java:33-35 | `code % 0xFF` equals the code. |
| `Header.Of` | src/main/java/li/pitschmann/knx/link/protocol/Header.java:51-59 | Decoding succeeds exactly for two bytes whose action byte is 0 or 1. The version is byte 0 unchecked, and the action is the one with that code. A wrong length fails the precondition, and an action byte of 2 or more fails on indexing. |
| `Header.OfBytes` | src/main/java/li/pitschmann/knx/link/protocol/Header.java:46-63 | A header survives its version and action bytes. |
| `FrameHeader.Code` | src/main/java/li/pitschmann/knx/link/SocketWorker.java:107 | The five actions of the three-byte revision have distinct codes below 5. |
| `FrameHeader.ActionOf` | src/main/java/li/pitschmann/knx/link/SocketWorker.java:81 | Look-up by code succeeds exactly for codes below 5 and inverts `Code`. |
| `FrameHeader.ActionOfCode` | src/main/java/li/pitschmann/knx/link/SocketWorker.java:81-85 | Every action survives the trip through its code. |
| `FrameHeader.Make` | src/main/java/li/pitschmann/knx/link/SocketWriter.java:62 | A header built from a body length below 256 carries that length. |
| `FrameHeader.ToBytes` | src/test/java/li/pitschmann/knx/link/protocol/HeaderTest.java:31-45 | The byte form is three octets. |
| `FrameHeader.Decode` | src/test/java/li/pitschmann/knx/link/protocol/HeaderTest.java:33-41 | Three octets decode exactly when the action code is known, into a header whose byte form is those octets. |
| `FrameHeader.DecodeToBytes` | src/test/java/li/pitschmann/knx/link/protocol/HeaderTest.java:34-41 | Decoding the bytes of a header gives it back, as `(1, READ_REQUEST, 13)` equals the header decoded from `01 00 0D`. |
| `ResponseBody.Empty` | src/main/java/li/pitschmann/knx/link/protocol/ResponseBody.java:90-92 | The body of a flag and a status has no data. |
| `ResponseBody.WithMessage` | src/main/java/li/pitschmann/knx/link/protocol/ResponseBody.java:98-106 | A null or blank message gives empty data, and exactly then. Otherwise the data decodes back to the message. |
| `ResponseBody.GetBytes` | src/main/java/li/pitschmann/knx/link/protocol/ResponseBody.java:136-142 | The byte form is two bytes longer than the data. |
| `ResponseBody.Decode` | src/main/java/li/pitschmann/knx/link/protocol/ResponseBody.java:80-112 | Fewer than two bytes fail the precondition. Otherwise decoding succeeds exactly when the low nibble is a status code. It takes the flag from bit 7, returns the status whose code is the low nibble, and takes the data from `bytes[2..]`. A low nibble of 7 to 15 fails with the enum-not-found failure for that nibble. |
| `ResponseBody.DecodeGetBytes` | src/main/java/li/pitschmann/knx/link/protocol/ResponseBody.java:126-150 | Decoding the byte form of any body gives an equal body. |
| `ResponseBody.GetBytesDecode` | src/main/java/li/pitschmann/knx/link/protocol/ResponseBody.java:80-88 | Re-encoding a decoded body reproduces the input exactly when byte 1 and bits 6-4 were zero, since decoding ignores them. |
| `ResponseBody.EmptySuccessBytes` | src/main/java/li/pitschmann/knx/link/protocol/ResponseBody.java:126-134 | A body that is not last and has status `SUCCESS` is `00 00`. |
| `ResponseBody.FirstByteExamples` | src/main/java/li/pitschmann/knx/link/protocol/ResponseBody.java:126-130 | The first byte is `0x80` for the last packet, OR-ed with the status. Examples: `85` and `03`. |
| `ResponseBody.ToArray` | src/main/java/li/pitschmann/knx/link/protocol/ResponseBody.java:136-142 | The array filled in place (prefix bytes, then a copy of the data) is a fresh array equal to the byte form. |
| `ProtocolHelper.ParseGroupAddress` | src/main/java/li/pitschmann/knx/link/protocol/helpers/ProtocolHelper.java:43-47 | The word's big-endian bytes are the two input bytes. |
| `ProtocolHelper.SubTypeKey` | src/main/java/li/pitschmann/knx/link/protocol/helpers/ProtocolHelper.java:64 | The subtype key starts with `dpst-`. |
| `ProtocolHelper.MainTypeKey` | src/main/java/li/pitschmann/knx/link/protocol/helpers/ProtocolHelper.java:68 | The main-type key starts with `dpt-`. |
| `ProtocolHelper.ParseDataPointTypeResolution` | src/main/java/li/pitschmann/knx/link/protocol/helpers/ProtocolHelper.java:57-73 | The subtype entry wins. Without it, the main type's entry is used. The raw type results exactly when neither exists, so resolution never fails. |
| `ProtocolHelper.SubTypeKeyInjective` | src/main/java/li/pitschmann/knx/link/protocol/helpers/ProtocolHelper.java:64 | Equal subtype keys mean equal main and sub numbers. |
| `ProtocolHelper.SplitsSubTypeKey` | src/main/java/li/pitschmann/knx/link/protocol/helpers/ProtocolHelper.java:64 | A subtype key splits at `-` into `dpst` and the two decimal numbers. |
| `ProtocolHelper.SubTypeKeyIsNotMainTypeKey` | src/main/java/li/pitschmann/knx/link/protocol/helpers/ProtocolHelper.java:64-68 | A subtype key never equals a main-type key, so the two look-ups cannot collide. |
| `ProtocolHelper.ParseArguments` | src/main/java/li/pitschmann/knx/link/protocol/helpers/ProtocolHelper.java:84-90 | No bytes give no arguments. Otherwise the result is the tokenizer's. |
| `ReadRequestBody.Of` | src/main/java/li/pitschmann/knx/link/protocol/ReadRequestBody.java:61-70 | Decoding succeeds exactly for six bytes. Any other length fails with the bytes in hex in the message. The group address comes from bytes 0-1 and the datapoint type from the fallback over bytes 2-5. |
| `WriteRequestBody.Of` | src/main/java/li/pitschmann/knx/link/protocol/WriteRequestBody.java:74-84 | Fewer than six bytes fail with the bytes in hex. Otherwise decoding succeeds exactly when the tail tokenizes. The address, datapoint type and arguments come from bytes 0-1, 2-5 and `bytes[6..]`. |
| `WriteRequestBody.SixBytesNoArguments` | src/main/java/li/pitschmann/knx/link/protocol/WriteRequestBody.java:77 | A body of exactly six bytes decodes with no arguments. |
| `WriteRequestBody.ArgumentsNotEmpty` | src/main/java/li/pitschmann/knx/link/protocol/WriteRequestBody.java:77 | No decoded argument is empty. |
| `PacketReader.GetVersion` | src/main/java/li/pitschmann/knx/link/protocol/v1/PacketReader.java:93-95 | The version is byte 0, and it fails only on an empty packet. |
| `PacketReader.GetAction` | src/main/java/li/pitschmann/knx/link/protocol/v1/PacketReader.java:103-106 | Byte 1 value 0 is read and 1 is write. Anything else fails on indexing. |
| `PacketReader.GetGroupAddress` | src/main/java/li/pitschmann/knx/link/protocol/v1/PacketReader.java:115-119 | The word is the big-endian pair of bytes 2-3. |
| `PacketReader.GetDataPointType` | src/main/java/li/pitschmann/knx/link/protocol/v1/PacketReader.java:129-140 | Fewer than eight bytes fail on indexing. Otherwise the result is the registry entry for the `dpst-M-S` key when there is one, else the entry for `dpt-M`. With neither, it fails with not-found. |
| `PacketReader.GetArgs` | src/main/java/li/pitschmann/knx/link/protocol/v1/PacketReader.java:152-163 | An empty packet fails on indexing, and one whose last byte is not NUL fails with `No NULL termination?: <hex>`. A terminated packet of nine bytes or more gives the tokenization of bytes 8 up to the terminator, so the nine-byte shortcut agrees with tokenizing nothing. Accepted arguments are never empty. |
| `PacketReader.GetDataPointTypeAgrees` | src/main/java/li/pitschmann/knx/link/protocol/v1/PacketReader.java:130-141 | The two-step fallback agrees with the gateway's three-step one whenever it succeeds. It fails with not-found exactly where the gateway would fall back to the raw type. |
| `PacketReader.GetArgsShape` | src/main/java/li/pitschmann/knx/link/protocol/v1/PacketReader.java:152-163 | For eight prefix bytes, a content and the terminator, the arguments are the tokenization of the content. No content gives no arguments. |
| `PacketReader.GetArgsRefuses` | src/main/java/li/pitschmann/knx/link/protocol/v1/PacketReader.java:153-155 | A last byte other than NUL fails with an illegal-argument error. So does a packet of at most eight bytes. |
| `KnxCore.AddressLevel3` | src/main/java/li/pitschmann/knx/link/SocketWorker.java:118 | The three-level text of a word is at least `0/0/0` long. |
| `KnxCore.Lookup` | src/main/java/li/pitschmann/knx/link/protocol/helpers/ProtocolHelper.java:64-70 | Stands in for the external datapoint registry, which is given as a map. The look-up succeeds exactly for a key in that map. A missing key fails with not-found. |
| `SecurityAuditor.RejectionMessage` | src/main/java/li/pitschmann/knx/link/SecurityAuditor.java:85-87 | The message is the fixed lead, the address, then the fixed tail. |
| `SecurityAuditor.SecurityAuditor.constructor` | src/main/java/li/pitschmann/knx/link/SecurityAuditor.java:39-41 | The auditor holds a snapshot of the given allow-list. |
| `SecurityAuditor.SecurityAuditor.GetAllowedAddresses` | src/main/java/li/pitschmann/knx/link/SecurityAuditor.java:50-52 | The snapshot taken at construction. |
| `SecurityAuditor.SecurityAuditor.IsRemoteAddressValid` | src/main/java/li/pitschmann/knx/link/SecurityAuditor.java:65-97 | The result is the decision `Accepts`. The only frames written are the rejection notices, and the channel is otherwise unchanged. |
| `SecurityAuditor.LoopbackAccepted` | src/main/java/li/pitschmann/knx/link/SecurityAuditor.java:72-75 | `127.0.0.1` is accepted with any allow-list, and nothing is sent. |
| `SecurityAuditor.InetDecision` | src/main/java/li/pitschmann/knx/link/SecurityAuditor.java:72-91 | An IP address is accepted exactly when it is the loopback text or listed. A refused one gets one final `ERROR_CLIENT_NOT_AUTHORIZED` general message. |
| `SecurityAuditor.FailsClosed` | src/main/java/li/pitschmann/knx/link/SecurityAuditor.java:93-96 | An address that is not an IP socket address, or cannot be read, is refused without a message. |
| `SecurityAuditor.AcceptsMonotone` | src/main/java/li/pitschmann/knx/link/SecurityAuditor.java:76-78 | Enlarging the allow-list never refuses an accepted address. |
| `SecurityAuditor.RejectionNamesAddress` | src/main/java/li/pitschmann/knx/link/SecurityAuditor.java:81-89 | The rejection's data decodes to the message that names the refused address. |
| `SocketWriter.FrameSplits` | src/main/java/li/pitschmann/knx/link/SocketWriter.java:59-65 | A frame splits into a version-1 header with the action and the body length, followed by the body bytes. |
| `SocketWriter.WriteToChannel` | src/main/java/li/pitschmann/knx/link/SocketWriter.java:54-78 | The frame is appended to what the channel received exactly when the channel is connected and the write does not fail. Nothing else changes. |
| `SocketWriter.WriteGeneralMessage` | src/main/java/li/pitschmann/knx/link/SocketWriter.java:42-44 | The same, always tagged `GENERAL_MESSAGE`. |
| `SocketWorker.Frames` | src/main/java/li/pitschmann/knx/link/SocketWorker.java:49-56 | One frame per reply. |
| `SocketWorker.SocketWorker.constructor` | src/main/java/li/pitschmann/knx/link/SocketWorker.java:45-47 | The worker holds its KNX client. |
| `SocketWorker.SocketWorker.Execute` | src/main/java/li/pitschmann/knx/link/SocketWorker.java:76-93 | Execution throws exactly what `Replies` fails with. The channel receives the frames of the replies when it takes them. Its open state and remote address are unchanged. |
| `SocketWorker.SocketWorker.ActionRead` | src/main/java/li/pitschmann/knx/link/SocketWorker.java:100-147 | The frames written to the channel, and the failure thrown, are those of `ReadReplies` on the body after the header. The channel's open state and remote address are unchanged. |
| `SocketWorker.SocketWorker.ActionWrite` | src/main/java/li/pitschmann/knx/link/SocketWorker.java:154-185 | The same for `WriteReplies`. The channel's open state and remote address are unchanged. |
| `SocketWorker.RepliesEndWithOneLast` | src/main/java/li/pitschmann/knx/link/SocketWorker.java:85-92 | A read or write request that is answered gets a non-empty reply list whose last reply alone is final. Any other action gets no reply. |
| `SocketWorker.ReadEndsWithOneLast` | src/main/java/li/pitschmann/knx/link/SocketWorker.java:110-145 | On every read path, only the last reply is final. |
| `SocketWorker.WriteEndsWithOneLast` | src/main/java/li/pitschmann/knx/link/SocketWorker.java:164-184 | On every write path that is answered, only the last reply is final. |
| `SocketWorker.RepliesCarryResponseAction` | src/main/java/li/pitschmann/knx/link/SocketWorker.java:107 | Every read reply is tagged `READ_RESPONSE` and every write reply `WRITE_RESPONSE`. |
| `SocketWorker.ReadNotAcknowledged` | src/main/java/li/pitschmann/knx/link/SocketWorker.java:141-145 | A read the bus rejects gets exactly one reply, a final `ERROR_REQUEST`. |
| `SocketWorker.ReadAcknowledged` | src/main/java/li/pitschmann/knx/link/SocketWorker.java:110-140 | An acknowledged read gets a non-final `SUCCESS` and one final reply. The final reply is `SUCCESS` exactly when there is pool data that renders, `ERROR_TIMEOUT` exactly when there is none, and `ERROR_INCOMPATIBLE_DATA_POINT_TYPE` exactly when rendering fails. |
| `SocketWorker.ReadTextDelivered` | src/main/java/li/pitschmann/knx/link/SocketWorker.java:138-140 | The final success carries the rendered text. |
| `SocketWorker.WriteNotConvertible` | src/main/java/li/pitschmann/knx/link/SocketWorker.java:164-173 | A write whose arguments the datapoint type refuses with a KNX exception gets one final `ERROR_INCOMPATIBLE_DATA_POINT_TYPE`. The answer does not depend on the bus, which is never asked. |
| `SocketWorker.WriteConversionEscapes` | src/main/java/li/pitschmann/knx/link/SocketWorker.java:164-167 | Only a KNX exception is caught. A well-formed write packet fails with the escaping conversion failure exactly when the conversion throws anything else, and then nothing is sent. |
| `SocketWorker.WriteConvertible` | src/main/java/li/pitschmann/knx/link/SocketWorker.java:175-184 | A write whose arguments convert gets one final reply: `SUCCESS` when the bus acknowledges, `ERROR_REQUEST` otherwise. |
| `SocketWorker.RepliesRefused` | src/main/java/li/pitschmann/knx/link/SocketWorker.java:77-83 | An empty packet, an unknown action code, a version other than 1 and a read body of the wrong length fail before any reply. |
| `SocketWorker.UnsupportedVersionMessage` | src/main/java/li/pitschmann/knx/link/SocketWorker.java:82-83 | The version failure names the version in decimal and the packet in hex. |
| `SocketWorker.TwoWrites` | src/main/java/li/pitschmann/knx/link/SocketWorker.java:113-140 | Two writes on an unchanged channel deliver both frames or neither. |
| `ServerWorker.OutcomeBytes` | src/main/java/li/pitschmann/knx/link/ServerWorker.java:98-99 | The reply bytes decode to `SUCCESS` or `FAILED`. |
| `ServerWorker.WriteToChannel` | src/main/java/li/pitschmann/knx/link/ServerWorker.java:48-59 | Bytes are appended exactly when the channel is open and connected and the write does not fail. Nothing else changes. |
| `ServerWorker.ServerWorker.constructor` | src/main/java/li/pitschmann/knx/link/ServerWorker.java:44-46 | The worker holds its KNX client. |
| `ServerWorker.ServerWorker.Execute` | src/main/java/li/pitschmann/knx/link/ServerWorker.java:61-81 | Execution throws exactly what `Replies` fails with. The channel receives the replies when it takes them. Its remote address is unchanged. |
| `ServerWorker.ServerWorker.ActionRead` | src/main/java/li/pitschmann/knx/link/ServerWorker.java:88-113 | The bytes written and the failure thrown are those of `ReadReplies` on the body after the two-byte header. The channel's remote address is unchanged. |
| `ServerWorker.ServerWorker.ActionWrite` | src/main/java/li/pitschmann/knx/link/ServerWorker.java:120-136 | The same for `WriteReplies`. The channel's remote address is unchanged. |
| `ServerWorker.RepliesRefused` | src/main/java/li/pitschmann/knx/link/ServerWorker.java:61-79 | An empty or one-byte packet, an action byte of 2 or more, a version other than 1 and a read body of the wrong length fail before any reply. |
| `ServerWorker.ReadAnswered` | src/main/java/li/pitschmann/knx/link/ServerWorker.java:96-111 | A well-formed read first gets the outcome text. Then, whatever the outcome, it gets the pool's value bytes when the pool has a value. |
| `ServerWorker.WriteAnswered` | src/main/java/li/pitschmann/knx/link/ServerWorker.java:120-134 | A conversion failure of either kind propagates before anything is sent, since nothing catches it. Otherwise the single reply is the outcome text. |
| `Channels.SocketChannel.constructor` | src/main/java/li/pitschmann/knx/link/SocketWorker.java:58-60 | A channel with the given state that has received nothing. |
| `Channels.SocketChannel.Write` | src/main/java/li/pitschmann/knx/link/SocketWriter.java:68-72 | A write appends the frame unless it fails with an I/O error. The failure is reported and nothing else changes. |
| `Channels.CloneArray` | src/main/java/li/pitschmann/knx/link/ChannelPacket.java:37 | A fresh array with the same content. |
| `Channels.ArrayOf` | src/main/java/li/pitschmann/knx/link/SocketWorker.java:54-56 | A fresh array holding the given bytes. |
| `Channels.ChannelPacket.constructor` | src/main/java/li/pitschmann/knx/link/ChannelPacket.java:35-38 | The packet keeps the channel and a fresh private copy of the bytes. |
| `Channels.ChannelPacket.GetBytes` | src/main/java/li/pitschmann/knx/link/ChannelPacket.java:54-56 | Each call returns a fresh array equal to the stored bytes, so callers cannot alter the packet. |
| `KnxMode.GetMode` | src/main/java/li/pitschmann/knx/link/config/KnxMode.java:44-46 | The text of a mode is in lower case. |
| `KnxMode.Of` | src/main/java/li/pitschmann/knx/link/config/KnxMode.java:34-42 | Parsing succeeds exactly for `tunneling` or `routing` up to case, and returns a mode whose text matches. Anything else, null included, fails with `Mode is not supported: <mode>`. |
| `KnxMode.ModesDistinct` | src/main/java/li/pitschmann/knx/link/config/KnxMode.java:25-26 | The two texts differ even up to case. |
| `KnxMode.OfGetMode` | src/main/java/li/pitschmann/knx/link/config/KnxMode.java:34-46 | `of(getMode(m)) == m`. |
| `KnxMode.OfIgnoresCase` | src/main/java/li/pitschmann/knx/link/config/KnxMode.java:35-38 | Any text equal to a mode's text up to case parses to that mode. |
| `KnxMode.OfUpperCase` | src/main/java/li/pitschmann/knx/link/config/KnxMode.java:35-38 | The upper-case text of a mode parses to that mode. |
| `AddressError.Kinded` | client/src/address/group_address.rs:46-48 | An error with the given kind and message. |
| `AddressError.Untyped` | client/src/address/group_address_three_level.rs:59 | The one-argument construction carries the message and no kind. |
| `AddressError.ErrorText` | client/src/address/group_address.rs:55-59 | The text is the fixed `Group Address: ` prefix followed by the message, which reads back from the text; the kind is not shown. |
| `FreeLevel.New` | client/src/address/group_address_free_level.rs:66-73 | Construction succeeds exactly for a non-zero address. |
| `FreeLevel.AsBytes` | client/src/address/group_address_free_level.rs:49-53 | Two bytes whose big-endian word is the address. |
| `FreeLevel.FromBytes` | client/src/address/group_address_free_level.rs:29-41 | Decoding succeeds exactly for a pair other than `[0,0]`, into an address whose bytes are that pair. |
| `FreeLevel.Display` | client/src/address/group_address_free_level.rs:43-47 | The decimal text is non-empty and has no `/`. |
| `FreeLevel.FromStr` | client/src/address/group_address_free_level.rs:55-64 | A text is accepted exactly when it spells a number from 1 to 65535 in decimal, with leading zeros and an optional `+` allowed, and the address is that number. A text spelling 0 fails with `Address 0 is not allowed!`. Any other text fails with `Address must be between [1-65535], but got: <s>`. |
| `FreeLevel.BytesRoundTrip` | client/src/address/group_address_free_level.rs:112-134 | Decoding the bytes of an address gives it back. |
| `FreeLevel.TextRoundTrip` | client/src/address/group_address_free_level.rs:151-156 | Parsing the text of an address gives it back. |
| `TwoLevel.New` | client/src/address/group_address_two_level.rs:86-99 | Construction succeeds exactly for admitted addresses. The checks run in order: main above 31 is a main overflow, sub above 2047 a sub overflow, and `0/0` invalid. |
| `TwoLevel.AsBytes` | client/src/address/group_address_two_level.rs:77-84 | Two bytes. |
| `TwoLevel.AsBytesFields` | client/src/address/group_address_two_level.rs:77-84 | For an admitted address, the first byte is the main group over the top three sub bits, and the second is the low sub byte. |
| `TwoLevel.FromBytes` | client/src/address/group_address_two_level.rs:31-45 | Decoding succeeds exactly for a non-zero pair, into an admitted address whose bytes are that pair. `[0,0]` is invalid. |
| `TwoLevel.Display` | client/src/address/group_address_two_level.rs:47-51 | `main/sub` has exactly one `/`. |
| `TwoLevel.FromStr` | client/src/address/group_address_two_level.rs:54-74 | Every error has a kind. Text without exactly one `/` is invalid. A result is always admitted. |
| `TwoLevel.FromStrParts` | client/src/address/group_address_two_level.rs:64-72 | A main part that is no 8-bit number is a main overflow. A sub part that is no 16-bit number is a sub overflow. Otherwise `new` decides. |
| `TwoLevel.BytesRoundTrip` | client/src/address/group_address_two_level.rs:146-171 | Decoding the bytes of an admitted address gives it back. |
| `TwoLevel.TextRoundTrip` | client/src/address/group_address_two_level.rs:196-201 | Parsing the text of an admitted address gives it back. |
| `TwoLevel.Example` | client/src/address/group_address_two_level.rs:196-201 | `14/1733` packs to `76 C5`. |
| `ThreeLevel.New` | client/src/address/group_address_three_level.rs:88-101 | Construction succeeds exactly for admitted addresses. The checks run in order: main above 31, middle above 7, then `0/0/0`, each with a message-only error. |
| `ThreeLevel.AsBytes` | client/src/address/group_address_three_level.rs:81-86 | Two bytes. |
| `ThreeLevel.AsBytesFields` | client/src/address/group_address_three_level.rs:81-86 | For an admitted address, the bytes are `[main * 8 + middle, sub]`. |
| `ThreeLevel.FromBytes` | client/src/address/group_address_three_level.rs:31-45 | Decoding succeeds exactly for a non-zero pair, into an admitted address whose bytes are that pair. |
| `ThreeLevel.Display` | client/src/address/group_address_three_level.rs:47-51 | `main/middle/sub` has exactly two `/`. |
| `ThreeLevel.FromStr` | client/src/address/group_address_three_level.rs:53-79 | Errors carry no kind. Text without exactly two `/` fails with the format message. A result is always admitted. |
| `ThreeLevel.FromStrParts` | client/src/address/group_address_three_level.rs:62-78 | The first part that is no 8-bit number is named in its field's message. Parts that parse go through `new`. |
| `ThreeLevel.SplitSlashes` | client/src/address/group_address_three_level.rs:57 | `a/b/c` without further `/` splits into its three parts. |
| `ThreeLevel.BytesRoundTrip` | client/src/address/group_address_three_level.rs:154-182 | Decoding the bytes of an admitted address gives it back. |
| `ThreeLevel.TextRoundTrip` | client/src/address/group_address_three_level.rs:207-213 | Parsing the text of an admitted address gives it back. |
| `ThreeLevel.Examples` | client/src/address/group_address_three_level.rs:206-213 | `1/2/3` packs to `0A 03`, and `12/3/45` to `63 2D`. |
| `ClientGroupAddress.TryFrom` | client/src/address/group_address.rs:70-101 | Two `/` select the three-level parser, one the two-level parser and none the free-level parser: the text is accepted exactly when that parser accepts it, the stored bytes are that parser's `as_bytes`, and its error passes unchanged. A result is two non-zero bytes. More than two `/` is invalid, with the unsupported-format message. |
| `ClientGroupAddress.ThreeLevelText` | client/src/address/group_address.rs:74-81 | The text of an admitted three-level address is read as three-level and keeps its bytes. |
| `ClientGroupAddress.TwoLevelText` | client/src/address/group_address.rs:82-88 | The text of an admitted two-level address is read as two-level. |
| `ClientGroupAddress.FreeLevelText` | client/src/address/group_address.rs:89-95 | The text of an admitted free-level address is read as free-level. |
| `ClientGroupAddress.ErrorKinds` | client/src/address/group_address.rs:134-157 | Two-level failures have a kind, and more than two `/` is invalid. Three-level and free-level failures carry only a message. |
| `ClientGroupAddress.ThreeLevelRefused` | client/src/address/group_address.rs:146-157 | A three-level text of numbers that `new` refuses fails with `new`'s message-only error, not the kind the test expects. |
| `Datapoint.Display` | client/src/datapoint/datapoint.rs:50-82 | The displayed text (`dpt-N`, or `dpst-N-M` with a sub number) reads back through `try_from` as the same datapoint. |
| `Datapoint.AsBytes` | client/src/datapoint/datapoint.rs:84-93 | Four bytes: the main number and then the sub number, each big-endian. |
| `Datapoint.Numbers` | client/src/datapoint/datapoint.rs:95-116 | Two digit runs give a datapoint exactly when both fit 16 bits. The main range error comes before the sub range error. |
| `Datapoint.ParseWithNumbers` | client/src/datapoint/datapoint.rs:157-162 | An accepted text spells the result's number, optionally after a `+`, and the sub number is 0. A digit run up to 65535 gives that number. Every failure is `Data Point Type must be between 0 and 65535`. |
| `Datapoint.ParseWithDot` | client/src/datapoint/datapoint.rs:95-116 | A text matching `^(\d+)\.(\d+)$` gives its two numbers. A main number above 65535 fails with `Main Data Point Type must be between 0 and 65535`, checked before the sub number. A sub number above 65535 fails with `Sub Data Point Type must be between 0 and 65535`. A text that does not match fails with exactly `Wrong data point format. Expected: #.#`, and only such a text does. |
| `Datapoint.ParseWithDpt` | client/src/datapoint/datapoint.rs:118-132 | A text whose lower-case form matches `^(?:dpt-)(\d+)$` gives its number with sub number 0. A number above 65535 fails with `Data Point Type must be between 0 and 65535`. A text that does not match fails with exactly `Wrong data point format. Expected: dpt-#`, and only such a text does. |
| `Datapoint.ParseWithDpst` | client/src/datapoint/datapoint.rs:134-155 | A text whose lower-case form matches `^(?:dpst-)(\d+)-(\d+)$` gives its two numbers. The main and then the sub range errors apply as for `#.#`. A text that does not match fails with exactly `Wrong data point format. Expected: dpst-#-#`, and only such a text does. |
| `Datapoint.TryFrom` | client/src/datapoint/datapoint.rs:60-82 | Every accepted text is a text of the result in one of the four forms: `N.M`, `dpt-N` or `dpst-N-M` in any case, or a bare `N` with sub number 0. Each number is a digit run whose value is the result's number. |
| `Datapoint.TryFromGeneric` | client/src/datapoint/datapoint.rs:60-82 | The text fails with `Wrong data point format. Expected: #, #.#, dpt-# or dpst-#-#` exactly when it has no dot, no `dpt-` or `dpst-` prefix in any case, and a character that is not a digit. No parser's own error carries that text. |
| `Datapoint.TryFromComplete` | client/src/datapoint/datapoint.rs:60-162 | Every text of a datapoint in one of those four forms is accepted, as that datapoint. No earlier branch of the dispatch takes it elsewhere. |
| `Datapoint.DisplayPlain` | client/src/datapoint/datapoint.rs:50-58 | The displayed text has no upper-case letter and no `.`. |
| `Datapoint.DptText` | client/src/datapoint/datapoint.rs:60-71 | `dpt-N` reads as main N, sub 0. |
| `Datapoint.DpstText` | client/src/datapoint/datapoint.rs:60-75 | `dpst-N-M` reads as main N, sub M. |
| `Datapoint.DispatchDisplayed` | client/src/datapoint/datapoint.rs:60-82 | The dispatcher reads a displayed datapoint with the `dpt-` or `dpst-` parser. |
| `Datapoint.UpperCaseRoundTrip` | client/src/datapoint/datapoint.rs:118-155 | The upper-case displayed text reads back the same, because the prefixes ignore case. |
| `Datapoint.DotNumbers` | client/src/datapoint/datapoint.rs:95-116 | `N.M` gives the two numbers when both are in range. A main number out of range is refused first. |
| `Datapoint.BareNumber` | client/src/datapoint/datapoint.rs:157-162 | A bare number in range is main N, sub 0. Above 65535 it is the overflow error. |
| `Datapoint.Examples` | client/src/datapoint/datapoint.rs:181-184 | `4711.32109` is `12 67 7D 6D`. |
| `ClientStatus.ToByte` | client/src/protocol/status.rs:56-68 | The seven statuses map to 0 to 6. |
| `ClientStatus.TryFrom` | client/src/protocol/status.rs:37-54 | Decoding succeeds exactly for 0 to 6 and inverts `ToByte`. 7 to 255 are unknown. |
| `ClientStatus.RoundTrip` | client/src/protocol/status.rs:85-94 | Every status survives its byte. |
| `ClientStatus.ToByteInjective` | client/src/protocol/status.rs:74-83 | Distinct statuses have distinct bytes. |
| `ClientAction.ToByte` | client/src/protocol/action.rs:24-31 | Read is 0 and write is 1. |
| `ClientHeader.New` | client/src/protocol/header.rs:27-29 | The version is always 1, with the given action and length. |
| `ClientHeader.AsBytes` | client/src/protocol/header.rs:31-37 | The bytes are version, action code and length. |
| `ClientHeader.AsBytesInjective` | client/src/protocol/header.rs:31-37 | The bytes of a header determine it. |
| `ClientHeader.Examples` | client/src/protocol/header.rs:44-64 | Read with length 13 is `01 00 0D`, and write with length 17 is `01 01 11`. |
| `ClientProtocol.ConvertValuesToUtf8Bytes` | client/src/protocol/v1/protocol.rs:21-36 | The push loop with its 8-bit counter produces `QuotedFrom(values, 0)`. |
| `ClientProtocol.ValuesText` | client/src/protocol/v1/protocol.rs:21-36 | Up to 256 values are sent as the UTF-8 text `"v1" "v2" …`, and no values give no bytes. |
| `ClientProtocol.QuotedFromJoin` | client/src/protocol/v1/protocol.rs:24-34 | A run of values after `written` earlier ones is the joined quoted text, with a leading space when the counter is non-zero. |
| `ClientProtocol.QuotedFromConcat` | client/src/protocol/v1/protocol.rs:24-34 | The bytes of two runs of values are the bytes of each, with the counter carried over. |
| `ClientProtocol.SeparatorLostAfter256` | client/src/protocol/v1/protocol.rs:23-33 | Because the counter wraps, the 257th value follows the 256th with no separating space. |
| `ClientProtocol.QuotedFromLength` | client/src/protocol/v1/protocol.rs:25-32 | After the first value, every value costs its quoted width plus one space. |
| `ClientProtocol.ValuesLength` | client/src/protocol/v1/protocol.rs:21-36 | Up to 256 values take their quoted widths plus one space between each two. |
| `ClientProtocol.QuotedAscii` | client/src/protocol/v1/protocol.rs:72-83 | The quoted forms of `abc`, `123` and `$%&`. |
| `ClientProtocol.ExampleOne` | client/src/protocol/v1/protocol.rs:48-55 | `["abc"]` encodes to `" a b c "`. |
| `ClientProtocol.Quoted` | client/src/protocol/v1/protocol.rs:28-32 | A quoted value is two bytes longer than its UTF-8 encoding: the two quotes. |
| `ClientProtocol.Piece` | client/src/protocol/v1/protocol.rs:25-32 | One value adds its quoted width, plus one when separated. |
| `ClientProtocol.PushValue` | client/src/protocol/v1/protocol.rs:25-32 | The pushes for one value append exactly its piece. |
| `ClientReadRequest.Layout` | client/src/protocol/v1/read_request_body.rs:59-75 | The frame is nine bytes: `01 00 06`, the address, then the datapoint bytes. |
| `ClientReadRequest.Frame` | client/src/protocol/v1/read_request_body.rs:29-76 | Framing succeeds exactly when both texts parse. An unparsable address or datapoint fails with its own message, the address checked first. |
| `ClientReadRequest.AsBytes` | client/src/protocol/v1/read_request_body.rs:29-76 | The push loops produce exactly `Frame`. |
| `ClientWriteRequest.Layout` | client/src/protocol/v1/write_request_body.rs:60-81 | The frame is header, address, datapoint and quoted values, with the length byte the body length modulo 256. |
| `ClientWriteRequest.Frame` | client/src/protocol/v1/write_request_body.rs:30-82 | Framing succeeds exactly when both texts parse. The parser's own error is passed on, the address first. |
| `ClientWriteRequest.AsBytes` | client/src/protocol/v1/write_request_body.rs:30-82 | The push loops produce exactly `Frame`. |
| `ClientWriteRequest.LayoutOf` | client/src/protocol/v1/write_request_body.rs:68-81 | Pushing the header and then the body gives the layout. |
| `ClientWriteRequest.LengthField` | client/src/protocol/v1/write_request_body.rs:68 | The length byte is the body length exactly when the body is shorter than 256 bytes. |
| `ClientResponse.TryFrom` | client/src/protocol/v1/response_body.rs:54-63 | Decoding succeeds exactly for at least two bytes with a status byte below 7. It takes the flag from bit 7 of byte 0, the status from byte 1 and the data from `value[2..]`. Fewer bytes panic on indexing, and an unknown status panics with `Status not found: <n>: UnknownStatusError`, which is the `expect` message followed by the error's Debug form. |
| `ClientResponse.Message` | client/src/protocol/v1/response_body.rs:43-45 | A message is text whose UTF-8 encoding is the data. |
| `ClientResponse.MessageOfText` | client/src/protocol/v1/response_body.rs:43-45 | The data of a text reads back as that text. |
| `ClientResponse.MessageRefuses` | client/src/protocol/v1/response_body.rs:43-45 | Data that is no text's encoding is refused. |
| `ClientResponse.DecodeShape` | client/src/protocol/v1/response_body.rs:54-63 | Every accepted input is flag bit, status byte and data. |
| `ClientProtocolV1.ConvertValuesToUtf8Bytes` | client/src/protocol_v1/protocol.rs:51-69 | The same quoting, followed by the NUL terminator. |
| `ClientProtocolV1.Layout` | client/src/protocol_v1/protocol.rs:31-49 | Version, action, address and datapoint, then for a write the terminated values. A read is eight bytes. |
| `ClientProtocolV1.Frame` | client/src/protocol_v1/protocol.rs:31-49 | The result is the layout exactly when both texts parse. Otherwise it is the `unwrap` panic with the parser's error. It never returns its own error. |
| `ClientProtocolV1.AsBytes` | client/src/protocol_v1/protocol.rs:31-49 | The push loops produce exactly `Frame`. |
| `CrossLanguage.ClientName` | client/src/protocol/status.rs:56-68 | The client status with the gateway status's code. |
| `CrossLanguage.StatusCodesAgree` | client/src/protocol/status.rs:37-54 | The client reads each gateway status byte as the same status. |
| `CrossLanguage.ServerName` | client/src/protocol/action.rs:24-31 | The gateway action with the client action's code. |
| `CrossLanguage.ActionCodesAgree` | client/src/protocol/action.rs:24-31 | The gateway's three-byte header reads the client's action byte as the same request. |
| `CrossLanguage.ThreeLevelServerText` | src/test/java/li/pitschmann/knx/link/protocol/helpers/ProtocolHelperTest.java:34-40 | The gateway's three-level text of the client's bytes is the client's own text, so `12/3/45` becomes `63 2D` and back. |
| `CrossLanguage.DatapointKeys` | client/src/datapoint/datapoint.rs:50-58 | The client's datapoint text is the registry key the gateway builds from its bytes. |
| `CrossLanguage.DatapointResolves` | src/main/java/li/pitschmann/knx/link/protocol/helpers/ProtocolHelper.java:57-64 | A subtype the client names and the registry knows is the type the gateway resolves. |
| `CrossLanguage.ReadFrameDecoded` | src/main/java/li/pitschmann/knx/link/SocketWorker.java:100-103 | A client read frame passes the gateway's header checks and decodes to the client's address and datapoint. |
| `CrossLanguage.ValuesReadBack` | src/main/java/li/pitschmann/knx/link/protocol/WriteRequestBody.java:77 | Up to 256 non-empty values without quote or backslash are tokenized back to exactly those values. |
| `CrossLanguage.WriteFrameDecoded` | src/main/java/li/pitschmann/knx/link/SocketWorker.java:157-158 | A client write frame decodes to the client's address, datapoint and values. |
| `CrossLanguage.ArgumentsOfText` | src/main/java/li/pitschmann/knx/link/ArgumentParser.java:78 | The gateway tokenizes the very text that a non-empty encoded text came from. |
| `CrossLanguage.EmptyFirstText` | client/src/protocol/v1/protocol.rs:25-32 | An empty first value is sent as `""` and a space before the rest. |
| `CrossLanguage.EmptyValueVanishes` | src/main/java/li/pitschmann/knx/link/ArgumentParser.java:95-99 | An empty first value is lost: the gateway sees only the values after it. |
| `CrossLanguage.OlderWriteArguments` | src/main/java/li/pitschmann/knx/link/protocol/v1/PacketReader.java:152-163 | The older reader takes the terminated values of an older client write as those values. |
| `CrossLanguage.OlderReadArgumentsRefused` | src/main/java/li/pitschmann/knx/link/protocol/v1/PacketReader.java:153-155 | An older client read frame has no terminator, so the older reader refuses its arguments. |
| `CrossLanguage.RepliesReadAsSuccess` | client/src/protocol/v1/response_body.rs:58-59 | The client reads every gateway reply as status `Success`, because the gateway always sends 0 in byte 1. It keeps the flag and the data. |
| `CrossLanguage.ErrorTextReadAsSuccess` | src/main/java/li/pitschmann/knx/link/protocol/ResponseBody.java:126-134 | A gateway error with a message reaches the client as a success whose message is the error text. |

## Left out

- KNX client library: group addresses, the datapoint-type registry, datapoint conversion and the status pool are stand-ins (see above). `KnxCore.AddressLevel3` assumes the 5/3/8-bit three-level layout. The raw type's identifier text is a placeholder.
- `FrameHeader.Code`: the codes of `READ_RESPONSE`, `WRITE_RESPONSE` and `GENERAL_MESSAGE` are not in the shown files. The model gives them the distinct placeholders 2, 3 and 4, and the length byte is the body length modulo 256.
- `Header.java` of the three-byte revision is not part of this model. `FrameHeader` is built from its uses and from its test.
- The response `Action` enum with the response codes is not part of this model.
- `client/src/protocol_v1/header.rs` and `action.rs` are not part of this model. `ClientProtocolV1` takes the action directly.
- Rust compile mismatches are modelled by intent:
  - `GroupAddressError::new` is called with one argument in the three-level and free-level files. It is modelled as an error without a kind (`AddressError.Untyped`).
  - `Header::new(1, action, len)` is modelled as `new(action, len)`.
  - `ProtocolError`, which `read_request_body.rs` imports, is modelled as a message holder.
- `ClientProtocol.ConvertValuesToUtf8Bytes`: the `u8` counter is modelled with wrap-around (release build). A debug build panics on the 256th increment instead.
- UTF-8: encoding is exact. Decoding (`new String(bytes, UTF_8)`, `from_utf8`) covers well-formed input and replaces each ill-formed subpart with U+FFFD. Java's UTF-16 char array is modelled with one char per Unicode scalar value, which the tokenizer cannot tell apart (no surrogate is whitespace, quote or backslash).
- `Character.isWhitespace` is defined over the characters the Java documentation lists. Rust `\d` and `parse::<uN>` are taken on ASCII digits only.
- `Datapoint.TryFrom`: the bare-number branch tests `char::is_numeric`, which is true of every Unicode numeric character. The model tests ASCII digits. So a text of non-ASCII numerals such as `²` gets the generic format error in the model, where the source reaches `parse_with_numbers` and fails with `Data Point Type must be between 0 and 65535`. In the same way the `\d` of the three patterns matches only ASCII digits in the model, where the source's regular expressions match any Unicode decimal digit.
- `KnxMode.Of`: `String.equalsIgnoreCase` also matches characters whose `Character.toUpperCase` or `Character.toLowerCase` agree. The model folds ASCII letters only, so it refuses `TUNNELıNG` (U+0131) and `TUNNELİNG` (U+0130), which the source reads as tunneling.
- Threads, the asynchronous `thenAccept` chains, `Sleeper.seconds(1)` and logging: the chains run as straight-line code, and the sleep and the log messages are not modelled.
- `ServerWorker.ReadAnswered`: a status pool with no value throws inside the asynchronous callback. The model stops the replies there and does not model how the exception surfaces.
- `ChannelPacket.getChannel` adds nothing beyond the stored `channel` field, so it has no member of its own.
- `ResponseBody`'s `equals`/`hashCode` are Dafny's structural equality, and `toString` is not modelled.
- `ResponseBodyError` of `response_body.rs` is never returned, so it is not modelled.
- Null arguments (`Objects.requireNonNull`) cannot occur in Dafny, except the null mode of `KnxMode.of`, which is an `Option`.
- `ServerWorker.RepliesRefused`: `ServerWorkerTest.java` expects an unsupported version to fail with `Protocol Version '255' is not supported: 0xFF 00`, and action 0xFF with `KnxEnumNotFoundException`. It also expects the text `4711K` as the second read reply. The model follows `ServerWorker.java` as written: its own version message, an index failure in the header for the action, and the pool value's bytes as the second reply.
- `ClientGroupAddress.ThreeLevelRefused`: the tests of `group_address.rs` expect kinds (`Invalid`, `MainOverflow`) for three-level texts that the code as written cannot produce. The model states what the code produces.
