# Homer: nothing a capture agent sent is lost

Homer stores what capture agents send it: SIP messages wrapped in HEP packets, and points in
InfluxDB line protocol. On the way a message is taken apart, rewritten, encoded and put together
again several times. This project models the codecs and the small state machines on that path and
proves what they are for: every byte, row and packet arrives, once and unchanged, or the exact
condition under which it does not.

| file | what it models |
|---|---|
| `Octets.dfy`, `Text.dfy` | Go strings as sequences of octets; `strings`, `strconv`, `encoding/hex`, big-endian integers, with the laws the codecs need |
| `SipText.dfy`, `Segments.dfy` | splitting a SIP message, its header lines and its MIME parts, and finding all of it again after a rewrite |
| `Utf8.dfy`, `Unicode.dfy` | UTF-8, the sanitiser every payload passes, and the characters and white space that the octet tables stand for |
| `IsupPreserve.dfy`, `IsupCarried.dfy`, `Envelope.dfy`, `IsupRoundTrip.dfy` | binary ISUP bodies lifted out of SIP-I messages and put back, and which messages carry them |
| `IsupExact.dfy`, `IsupExamples.dfy` | exactly which multipart messages come back, and messages that do not |
| `IsupHex.dfy`, `IsupHexRoundTrip.dfy` | the older hex form of the same bodies |
| `IsupStorage.dfy` | both, end to end, through a text column |
| `IsupDecode.dfy`, `IsupMessages.dfy`, `IsupDecodeSip.dfy`, `IsupVerdicts.dfy` | decoding ISUP messages (ITU-T Q.763), what a decoded message says, and finding them in SIP messages |
| `Protobuf.dfy`, `ProtobufWire.dfy`, `HepStruct.dfy`, `HepPacket.dfy` | the protobuf codec of HEP packets, its octets and its errors |
| `Hep3.dfy`, `Hep3RoundTrip.dfy` | the HEP3 chunk parser and the packets rebuilt from stored rows |
| `LineScan.dfy`, `LineProtocol.dfy`, `LineRoundTrip.dfy` | the line protocol tokeniser and parser |
| `LineQuotes.dfy` | exactly which points come back when names hold quotes |
| `LineErrors.dfy` | what the parser rejects, and with which error |
| `Catalogs.dfy`, `Ident.dfy`, `Statements.dfy`, `Ingest.dfy`, `IngestPoints.dfy` | rows, buckets, chunks and tables of the ingester |
| `IngestProtocol.dfy` | several writers that share one ingester, statement by statement |
| `Replay.dfy`, `ReplayRuns.dfy` | replaying stored rows of one table and of all, with checkpoints, limits and failing sends |
| `Flight.dfy`, `FlightProtocol.dfy`, `Dedup.dfy`, `Timestamp.dfy`, `JsonText.dfy` | packet tables in memory, deduplication, repair of packet times, JSON strings |

Where the source runs a loop, the model runs the same loop as a method, proved equal to a recursive
function; where an object updates its fields, the model has a class. The properties are then proved
about the functions. Functions that properties are stated with are tied to
tables, to decimal texts or to the fields of the input. `dafny verify dfyconfig.toml` checks everything.

Functions of Go's libraries that are not written out are parameters, so the results hold for any
deterministic function in their place: `mime` for mime.ParseMediaType, `b64` for base64 decoding,
`floats` for the grammar of strconv.ParseFloat, `parseIP` for net.ParseIP, `v6` for the text of an
IPv6 address. The database answers its statements, and the sink its sends, as an arbitrary list of
outcomes says.

## Where the plain statement is false

Several things one would expect are not so in the code. The model keeps the code as it is; each case has
a proof of the condition, and an input or a family of inputs for which the plain statement fails.

- Lifting takes only the binary ISUP bodies (src/isup/preserve.go:192), but attaching counts every
  ISUP part (src/isup/preserve.go:212). `Envelope.BodiesComeBack` says exactly which bodies come back, and
  `IsupExact.MultipartRoundTripIff` which messages; `IsupExamples.TextBodyIsLost` is a message that does not.
- An ISUP part that runs up to the next delimiter without a newline is lost, and its message with it:
  `IsupExact.MultipartRoundTripIff`, `IsupExact.UnclosedPartIsLost`; the input is `IsupExamples.UnclosedIsLost`.
- A Content-Length line is rewritten to one spelling (src/isup/preserve.go:446), so byte equality needs
  canonical lines: `PlainRoundTrip`, `MultipartRoundTripIff`, `PlainHexRoundTrip`, `MultipartHexRoundTrip`;
  the input is `IsupExamples.UnspacedLengthIsLost`.
- More than 65535 ISUP bodies do not fit the 16-bit count: `Envelope.TooManyParts`.
- IPv6 addresses are sent under chunk types made for IPv4 (src/cli/migrate_hep.go:103-104) and rejected
  by the decoder: `Hep3RoundTrip.AcceptedIff`; the input is `Hep3RoundTrip.LoopbackIsRejected`.
- A table left by an earlier process, or created although the statement was reported as failed, makes the
  column memo wrong (src/lineprotoreceiver/ingest.go:366-386): `IngestProtocol.TableSafeIff` for one table,
  `SafeIffEmpty` for the lake; the runs are `LeftoverTableBreaks` and `UnreportedTableBreaks`.
- The replay limit is described as a total (src/cli/migrate_cmd.go:122), but each table is given it anew
  (src/cli/migrate_hep.go:417 and 330): `ReplayRuns.LimitExceededIff` says when it is exceeded, and
  `ReplayRuns.BoundIsReached` gives rows of which a run sends almost twice as much.
- Quotes in names count as quotes of strings (src/lineprotoreceiver/parser.go:170-189), so a point is read
  back exactly when they come in pairs: `LineQuotes.LineReadsIff`; the input is `LineQuotes.TwoOddNamesMerge`.
  Quotes behind backslashes in odd field names are apart: such a point may come back after all
  (`LineQuotes.HiddenQuotesComeBack`).
- AddHEP holds only a read lock (src/flight/catalog.go:164-188), so two calls may overtake each other between
  the two tables. `FlightProtocol.SameOrderIff`: the orders agree exactly when none did; the run is
  `OvertakingBreaksTheOrder`.

Where the code and its own documentation differ, the model follows the code: docs/LINE_PROTOCOL.md shows a
string field with an escaped newline, but the parser unescapes only the quote and the backslash
(src/lineprotoreceiver/parser.go:412-433) and keeps both octets of `\n`; replayTable is described as going in
chronological order (src/cli/migrate_hep.go:347-349), but it goes by row id.

## Model

| member | source | states |
|---|---|---|
| SipText.SplitSipGives | src/isup/preserve.go:351-359 | splitSIP loses nothing: headers, blank line and body put together are the payload, and the headers hold no earlier blank line of either kind |
| SipText.SplitSipFinds | src/isup/preserve.go:351-359 | every entity whose headers are free of blank lines is split back into exactly that entity |
| SipText.ReplaceHeaderValue | src/isup/preserve.go:438-453 | the loop rewrites every matching line to `name: value` and no other, and reports a match exactly when headerValue finds one |
| SipText.RemoveHeaderLines | src/isup/preserve.go:455-466 | the loop drops exactly the matching lines and keeps the order of the rest |
| SipText.HeaderNames | src/isup/preserve.go:479-491 | a header is found in any case, and Content-Type and Content-Length also by their compact forms `c` and `l` |
| SipText.HeaderSplits | src/isup/preserve.go:468-477 | the first colon parts name and value, and white space around both is left out |
| SipText.NoHeader | src/isup/preserve.go:468-477 | continuation lines, lines without a name and lines without a colon are no headers |
| SipText.FirstLineCounts | src/isup/preserve.go:428-436 | the first line that carries the header gives its value |
| SipText.Rewritten | src/isup/preserve.go:438-491 | a rewritten Content-Length line is still that header, takes a second rewriting like the original, and changes no other header the codecs read |
| SipText.EditedSplit | src/isup/preserve.go:177-182 | after header lines were rewritten or appended and the body replaced, splitSIP finds the same boundary and the edited lines |
| Utf8.ToUtf8Loop | src/decoder/decoder.go:518-565 | the index loop of toUTF8, with its fast path and its run flag, computes the scrubbed text |
| Utf8.FastPathAgrees | src/decoder/decoder.go:519-523 | on every text the fast path accepts, the slow loop would have returned the same text |
| Utf8.ToUtf8IsSafe | src/decoder/decoder.go:518-565 | with a safe replacement the result is NUL-free valid UTF-8 (section 4 of RFC 3629), and sanitising it again changes nothing |
| Utf8.ScrubRun | src/decoder/decoder.go:518-565 | text in front of ill-formed octets is kept, and a whole run of them up to the next character or NUL becomes one replacement |
| Utf8.ScrubNul | src/decoder/decoder.go:535-538 | a NUL behind text goes, and the text stays |
| Unicode.ValidIff | src/decoder/decoder.go:519-523 | the texts that pass as valid are exactly the encodings of lists of Unicode code points (section 3 of RFC 3629) |
| Unicode.TrimIs | src/isup/preserve.go:468-477 | TrimSpace takes exactly the white space of unicode.IsSpace off both ends |
| Unicode.SpaceFound | src/isup/preserve.go:468-477 | every character of white space is found at either end of a text |
| Unicode.SpaceOnly | src/isup/preserve.go:468-477 | nothing else is taken for white space |
| Text.LowerIs | src/isup/preserve.go:479-491 | case folding pairs the 26 letters and leaves other octets alone |
| Text.HexDigits | src/isup/preserve.go:335-345 | hexadecimal digits are written small and read in either case, and nothing else is read |
| Text.DigitIff | src/lineprotoreceiver/parser.go:342-356 | the decimal digits are 0 to 9 |
| IsupPreserve.PackBodies | src/isup/preserve.go:118-135 | the loop over the parts writes the envelope, or the one part raw, or nothing |
| IsupPreserve.UnpackEnvelope | src/isup/preserve.go:149-175 | the loop accepts exactly the blobs the envelope reader accepts and returns their records |
| IsupPreserve.DetachMultipart | src/isup/preserve.go:184-202 | the walk over the segments returns the emptied body and the lifted bodies in order |
| IsupPreserve.AttachMultipartLoop | src/isup/preserve.go:204-236 | counting the ISUP parts and handing out the bodies in a second pass equals attaching segment by segment |
| IsupCarried.DetachesIff | src/isup/preserve.go:33-57 | something is lifted if and only if the message is unmarked and has a binary ISUP body, or a MIME part with one, by its content types and octets alone; every other message is returned as it was |
| IsupCarried.PlainDetaches | src/isup/preserve.go:53-57 | a plain message gives away exactly its body, whatever the version parameter of its type |
| IsupCarried.TextCarriesNothing | src/isup/preserve.go:34-36 | the early return for text payloads misses no binary part: a text payload holds none |
| IsupCarried.AttachesNothing | src/isup/preserve.go:75-78 | a plain message of another type is returned as it is, whatever octets are stored with it |
| Envelope.EnvelopeInverse | src/isup/preserve.go:118-175 | unpacking the `ISI1` envelope of 2 to 65535 bodies gives the bodies |
| Envelope.EnvelopeOnto | src/isup/preserve.go:149-175 | whatever the reader accepts is the envelope of the bodies it returns, so packing and unpacking are mutually inverse |
| Envelope.TooManyParts | src/isup/preserve.go:125-126 | with more than 65535 bodies the 16-bit count is wrong and the envelope is unreadable |
| Envelope.BodiesComeBack | src/isup/preserve.go:118-147 | after lifting only the binary bodies and counting all ISUP parts, the bodies come back if and only if all are binary (and, when there are several, fit the 16-bit count and the 32-bit lengths), or only the first is binary, the others are empty, and it is not itself such an envelope |
| Envelope.NoneShorter | src/isup/preserve.go:118-147 | bodies that come back no shorter than they were, whatever envelope or fallback they went through, come back as they were |
| Segments.Resplit | src/isup/preserve.go:177-182 | after Content-Length and body were replaced the message is split where it was, with the same Content-Type and mark |
| Segments.CanonicalIff | src/isup/preserve.go:438-453 | rewriting Content-Length leaves the headers alone exactly when every such line already reads `name: length` |
| Segments.SegmentEdited | src/isup/preserve.go:386-426 | a rewritten MIME part is found again in its segment between the same newlines, and holds no delimiter |
| Segments.RecutSplit | src/isup/preserve.go:386-426 | a body joined from rewritten segments is cut at its delimiters into exactly those segments |
| IsupRoundTrip.LiftedAreUnsafe | src/isup/preserve.go:184-216 | the bodies lifted are the binary ones among the bodies that attaching will count |
| IsupRoundTrip.DetachedSegment | src/isup/preserve.go:184-202 | where the lifted part ends in its newline the part is found again, and attaching to the detached segment equals attaching to the original |
| IsupRoundTrip.AttachedSegments | src/isup/preserve.go:217-235 | attaching gives all segments back if and only if every ISUP part gets its own body and has a canonical length line |
| IsupRoundTrip.PlainRoundTrip | src/isup/preserve.go:33-80 | a plain message with a binary ISUP body, of whatever version, comes back from DetachISUPBody and AttachISUPBody byte for byte if and only if its Content-Length lines are canonical or absent |
| IsupRoundTrip.MultipartRoundTrip | src/isup/preserve.go:33-80 | every restorable multipart SIP-I message (canonical lengths, ISUP parts that end before a newline, recoverable bodies) comes back byte for byte |
| IsupExact.MultipartRoundTripIff | src/isup/preserve.go:33-236 | among all multipart messages with a binary ISUP part, exactly the restorable ones come back byte for byte: canonical lengths, every ISUP part ends before a newline, bodies recoverable; no condition on what is stored or on the delimiters inside it |
| IsupExact.UnclosedPartIsLost | src/isup/preserve.go:386-421 | a message with a binary ISUP part that runs up to its delimiter without a newline never comes back |
| IsupExamples.UnspacedLengthIsLost | src/isup/preserve.go:446 | a SIP-I message with `Content-Length:5` and a binary body of five octets comes back changed |
| IsupExamples.TextBodyIsLost | src/isup/preserve.go:184-216 | a message with one binary and one textual ISUP body does not come back: two parts are counted, one body was stored |
| IsupExamples.UnclosedIsLost | src/isup/preserve.go:386-421 | a message whose ISUP part runs up to the closing delimiter does not come back |
| IsupHex.MapMultipart | src/isup/preserve.go:386-426 | the loop of mapMultipart maps every part between the newlines of its delimiters, skips closing delimiters, and reports a change exactly when the text changed |
| IsupHex.RestoredPart | src/isup/preserve.go:300-333 | restorePart turns the hex form of a part back into the part, with its Content-Length rewritten |
| IsupHex.BodyForms | src/isup/preserve.go:335-345 | the mark names hex or base64 in any case, the text is trimmed, and any other mark is an error |
| IsupHexRoundTrip.SegmentThereAndBack | src/isup/preserve.go:300-333 | a segment mapped to hex and back is the segment with renewed lengths, and it changes on the way exactly when its part is binary |
| IsupHexRoundTrip.PlainHexRoundTrip | src/isup/preserve.go:245-298 | Restore(Preserve(m)) = m for an unmarked message that is not multipart if and only if nothing is binary or its Content-Length is canonical |
| IsupHexRoundTrip.MultipartHexRoundTrip | src/isup/preserve.go:245-298 | the same for multipart messages, with any mix of newlines at their parts: if and only if nothing is rewritten or the rewritten lengths are canonical |
| IsupHexRoundTrip.UnrewrittenRestores | src/isup/preserve.go:272-298 | a message without the mark is returned unchanged by RestoreBinarySIPPayload |
| IsupStorage.TextStored | src/decoder/decoder.go:387-390 | an ordinary text message is stored as it is, without isup_body, and read back as it was |
| IsupStorage.PlainStored | src/decoder/decoder.go:387-390 | end to end: a plain message with a binary ISUP body and text headers is read back as it was captured, through toUTF8 and MessageBytes, if and only if its Content-Length is canonical |
| IsupStorage.StoredNoMarks | src/isup/preserve.go:174-203 | no part of the stored text is marked when none of the message was and every lifted part ends before a newline |
| IsupStorage.MultipartStored | src/isup/preserve.go:84-91 | end to end: a multipart message with a binary ISUP part, whose headers and other parts are text and whose stored text holds no part that is marked as a hex form, is read back byte for byte if and only if it is restorable |
| IsupDecode.DecodeDigitsLoop | src/isup/decode.go:448-462 | the loop with its odd flag and filler stop computes the digit text |
| IsupDecode.DigitsRoundTrip | src/isup/decode.go:448-481 | packed address signals (section 3.9 of ITU-T Q.763) decode to their characters in the table `0123456789ABC*#F` if and only if no signal in a second half octet is the filler |
| IsupDecode.DialText | src/isup/decode.go:464-481 | the digits of every decimal number, with any leading zeros, are read as the number is written |
| IsupDecode.PartyRoundTrip | src/isup/decode.go:390-413 | a calling number decodes to exactly the digits, nature, plan, presentation, screening and incomplete flag it was encoded from; a called number to its digits, nature and plan, whatever its octet 2 holds besides the plan |
| IsupDecode.SubsequentRoundTrip | src/isup/decode.go:415-420 | subsequent numbers decode to their digits |
| IsupDecode.GenericRoundTrip | src/isup/decode.go:422-431 | generic numbers decode to their qualifier and their number |
| IsupDecode.ListedAs | src/isup/decode.go:356-381 | redirection, connected, location and generic numbers in the optional part are listed by their digits |
| IsupDecode.ListedRaw | src/isup/decode.go:381-388 | other parameters without a field are listed by their octets |
| IsupDecode.ShortIff | src/isup/decode.go:230-262 | empty messages, unknown types and messages shorter than their type demands are told apart, and nothing else is read of them |
| IsupDecode.PointerIff | src/isup/decode.go:295-305 | the pointer to the optional part may point right behind the message, and no further |
| IsupDecode.LeastIsEnough | src/isup/decode.go:255-300 | messages of that least length without variable parameters are complete and say nothing more |
| IsupDecode.CauseRoundTrip | src/isup/decode.go:433-446 | a cause decodes to its value and location with and without octet 1a |
| IsupDecode.OptionalsDecode | src/isup/decode.go:318-336 | an encoded optional part (section 1.8 of Q.763) is read parameter by parameter, in order, without error |
| IsupDecode.OptionalsAre | src/isup/decode.go:318-336 | the optional part is read without error only when it is such an encoding |
| IsupMessages.MessageSays | src/isup/decode.go:230-388 | for every message type of the layout table an encoded message is decoded without error; called number, cause and subsequent number are the mandatory ones, else the first optional ones; calling, redirecting and original number are the last ones that can be decoded; the other parameters are listed in order |
| IsupMessages.IamRoundTrip | src/isup/decode.go:255-336 | an initial address message yields its called number (digits, nature and plan, with or without routing to an internal number), its category and medium, whatever its optional part holds |
| IsupMessages.IamCalls | src/isup/decode.go:255-336 | the called number of an initial address message, dialled with leading zeros, is read as its decimal text |
| IsupMessages.SubsequentMessageRoundTrip | src/isup/decode.go:269-305 | a subsequent address message yields its further digits, whatever its optional part holds |
| IsupMessages.CauseMessageRoundTrip | src/isup/decode.go:269-305 | a release or confusion message yields its cause, whatever its optional part holds |
| IsupMessages.PartyKept | src/isup/decode.go:349-374 | a number encoded in the optional part is the one the message keeps, when no later one under its code can be decoded |
| IsupMessages.LastWins | src/isup/decode.go:349-374 | of several calling, redirecting or original numbers the last one that can be decoded wins |
| IsupMessages.FirstWins | src/isup/decode.go:340-363 | a called number, cause or subsequent number already there is kept, else the first optional one is taken |
| IsupMessages.RestIsListed | src/isup/decode.go:356-388 | the parameters without a field of their own are listed in their order, and the fixed codes stay |
| IsupDecode.Message.constructor | src/isup/decode.go:230-253 | the object that Decode fills holds the fields and the error of the decoding function, for arbitrary octets |
| IsupDecode.Message.Apply | src/isup/decode.go:255-305 | applyLayout fills the message step by step as the function says and reports truncation |
| IsupDecode.Message.ApplyVariables | src/isup/decode.go:273-294 | the loop over the pointers reads only in range and fills called number, cause or subsequent number |
| IsupDecode.Message.ParseOptionals | src/isup/decode.go:318-336 | the re-slicing loop adds exactly the parameters up to the end marker or the truncation |
| IsupDecodeSip.DecodeMultipartLoop | src/isup/decode.go:97-148 | the loop collects the messages of all ISUP parts and the type and version of the first part that names a type; `IsupVerdicts` says what these are |
| IsupDecodeSip.DecodeCommutes | src/isup/decode.go:73-156 | DecodeSIP(PreserveBinarySIPPayload(m)) = DecodeSIP(m) for every plain or multipart message |
| IsupVerdicts.PlainVerdict | src/isup/decode.go:73-95 | a plain message of an ISUP type, raw or in hex form, gives one entry: its octets when the version names ANSI in any case, else their decoding; a message of another type gives none |
| IsupVerdicts.PlainSays | src/isup/decode.go:73-95 | an ITU message encoded in a plain SIP-I message is found with the fields that were encoded |
| IsupVerdicts.MultipartVerdicts | src/isup/decode.go:97-148 | a multipart message gives one entry for each ISUP part, in order, each with what has to be said of its octets, and no result exactly when it holds no such part |
| IsupVerdicts.MultipartNamed | src/isup/decode.go:127-147 | type and version of the result are those of the first ISUP part, when that has a type |
| Protobuf.ReadBack | src/decoder/hep.pb.go:366-374 | the decoding loop reads back every 64-bit value that the encoding loop wrote, whatever follows |
| Protobuf.MarshalRoundTrip | src/decoder/hep.pb.go:301-374 | Unmarshal(Marshal(m)) succeeds and yields exactly the 14 wire fields of m |
| Protobuf.SkipsExactly | src/decoder/hep.pb.go:963-1056 | skipHep consumes exactly the well-formed field in front of it: varint, fixed32, fixed64, length-delimited, or a group nested to any depth |
| Protobuf.GroupSkipsExactly | src/decoder/hep.pb.go:1008-1043 | the inner loop consumes exactly the fields of a group and its end tag |
| Protobuf.UnknownIsSkipped | src/decoder/hep.pb.go:900-913 | a field with a number above 14 is skipped as a whole |
| Protobuf.RunExtend | src/decoder/hep.pb.go:540-917 | fields are read one after the other: a message read as a prefix and its rest gives the same state |
| Protobuf.UnknownFieldIgnored | src/decoder/hep.pb.go:900-913 | inserting any well-formed unknown field between fields changes neither the fields returned nor the error |
| ProtobufWire.MarshalIs | src/decoder/hep.pb.go:311-364 | the octets of a packet field by field, each with its tag, in the order of the field numbers |
| ProtobufWire.VarintDigits | src/decoder/hep.pb.go:366-374 | octet k of a varint holds bits 7k to 7k+6 of the number, and bit 8 is set in all octets but the last |
| ProtobufWire.NoTag | src/decoder/hep.pb.go:545-559 | ten octets with bit 8 set are an overflow, fewer an unexpected end |
| ProtobufWire.BadTags | src/decoder/hep.pb.go:560-566 | an end tag out of place and field numbers that are not positive as int32 are errors |
| ProtobufWire.WrongWire | src/decoder/hep.pb.go:568-570 | each of the 14 fields demands its wire type |
| ProtobufWire.NumbersCut | src/decoder/hep.pb.go:571-588 | a number is cut to 32 bits |
| ProtobufWire.StringsCut | src/decoder/hep.pb.go:629-636 | a string longer than the rest of the message is an unexpected end, and a negative length is an error of its own |
| ProtobufWire.UnknownCut | src/decoder/hep.pb.go:900-913 | so is an unknown string |
| ProtobufWire.FixedCut | src/decoder/hep.pb.go:900-913 | an unknown fixed field that ends behind the message is an unexpected end |
| ProtobufWire.NoSuchWire | src/decoder/hep.pb.go:1051-1056 | the wire types 6 and 7 are errors |
| HepStruct.Hep.constructor | src/decoder/decoder.go:122-157 | the zero value of the packet |
| HepPacket.EncodeVarint | src/decoder/hep.pb.go:366-374 | writes exactly the varint at the offset, keeps what stands before it, and returns the offset behind it |
| HepPacket.VarintSize | src/decoder/hep.pb.go:496-505 | sovHep(v) is the number of octets encodeVarintHep writes |
| HepPacket.PutNum | src/decoder/hep.pb.go:316-321 | a number field is its tag octet and its varint, written at the moving index |
| HepPacket.PutStr | src/decoder/hep.pb.go:322-325 | a string field is its tag octet, its length and a copy of its octets |
| HepPacket.Size | src/decoder/hep.pb.go:468-494 | Size() is the length of the encoding of the packet |
| HepPacket.MarshalTo | src/decoder/hep.pb.go:311-364 | MarshalTo writes exactly Size() octets, the encoding of the packet |
| HepPacket.ToWire | src/decoder/hep.pb.go:301-309 | Marshal returns the encoding of the packet |
| HepPacket.ReadUvarint | src/decoder/hep.pb.go:545-559 | the decoding loop with its shift, cut to the width of its variable, including both of its errors |
| HepPacket.Skip | src/decoder/hep.pb.go:963-1056 | skipHep, with its recursion, terminates and returns what the skipping function says |
| HepPacket.SkipContents | src/decoder/hep.pb.go:982-1055 | the cases of skipHep for the fields that are no groups |
| HepPacket.SkipItems | src/decoder/hep.pb.go:1008-1043 | the loop of skipHep over a group reads only in range and ends |
| HepPacket.ReadInto | src/decoder/hep.pb.go:567-899 | one case of the switch sets its field and only its field, or returns its error |
| HepPacket.FromWire | src/decoder/hep.pb.go:540-962 | Unmarshal sets the 14 fields to what was read last, reports the first missing required field or the first error, and touches nothing else |
| HepPacket.WireRoundTrip | src/decoder/hep.pb.go:301-962 | the packet that Unmarshal leaves after reading what Marshal wrote is the packet that was written |
| LineScan.SplitAtUnescapedSpace | src/lineprotoreceiver/parser.go:170-189 | the loop cuts at the first blank outside escapes and strings, or reports the open string |
| LineScan.FindEquals | src/lineprotoreceiver/parser.go:221-233 | the search for the first '=' outside escapes, and outside strings for fields |
| LineScan.SplitPieces | src/lineprotoreceiver/parser.go:365-387 | splitUnescaped and splitFieldSet return the pieces between top-level separators, or report the open string |
| LineScan.JoinSplitTop | src/lineprotoreceiver/parser.go:263-295 | the splitters lose nothing: joining the pieces restores the text |
| LineScan.PiecesHoldNone | src/lineprotoreceiver/parser.go:263-295 | no piece holds a separator that the scan would see |
| LineScan.SplitJoinTop | src/lineprotoreceiver/parser.go:263-295 | pieces without top-level separator, open string or cut escape come back from their join |
| LineProtocol.UnescapeIdle | src/lineprotoreceiver/parser.go:391-394 | the fast path of the unescapers agrees with their loop |
| LineProtocol.UnescapeLoop | src/lineprotoreceiver/parser.go:391-433 | both unescaping loops remove exactly their escapes |
| LineProtocol.UnescapeEscape | src/lineprotoreceiver/parser.go:391-433 | unescaping inverts the standard escaping of names and of strings |
| LineProtocol.BackslashKept | src/lineprotoreceiver/parser.go:391-433 | a backslash in front of any other octet stays, in names and in strings |
| LineProtocol.LiteralInert | src/lineprotoreceiver/parser.go:263-295 | a quoted string hides all its separators from the tokeniser |
| LineProtocol.ParseDecimal | src/lineprotoreceiver/parser.go:342-347 | every int64 is read back from its decimal text |
| LineProtocol.DecimalIff | src/lineprotoreceiver/parser.go:342-356 | of all integers exactly those that fit 64 bits are read, signed and unsigned, with or without a plus |
| LineProtocol.ValueReads | src/lineprotoreceiver/parser.go:324-363 | every writable field value is read back from its text with its type |
| LineProtocol.SignedIff | src/lineprotoreceiver/parser.go:342-347 | an integer with the suffix i or I is read exactly when it fits int64 |
| LineProtocol.UnsignedIff | src/lineprotoreceiver/parser.go:348-356 | one with the suffix u or U is read exactly when it fits uint64, and then as itself or as the largest int64 |
| LineProtocol.BooleanIff | src/lineprotoreceiver/parser.go:324-363 | exactly the ten spellings of true and false are read as truth values |
| LineProtocol.ParseMeasurementAndTags | src/lineprotoreceiver/parser.go:191-219 | the loop over the tag pieces builds the tag map, last tag wins, or returns the first error |
| LineProtocol.ParseFieldSet | src/lineprotoreceiver/parser.go:235-259 | the loop over the field pieces builds the field map or returns the first error |
| LineProtocol.ParseSingleLine | src/lineprotoreceiver/parser.go:122-165 | the point is filled part by part, and the errors come in the order of the parts |
| LineProtocol.ParseLineProtocol | src/lineprotoreceiver/parser.go:91-120 | the loop over the lines returns the points so far, the index of the line at fault and its error |
| LineProtocol.Wrap64 | src/lineprotoreceiver/parser.go:106-108 | scaling a time stamp wraps to int64 and is exact when the product fits |
| LineProtocol.ScaledIs | src/lineprotoreceiver/parser.go:71-108 | the time stamp of a point is multiplied by its unit, modulo 64 bits, and exact where it fits; nothing else changes |
| LineRoundTrip.CollectDistinct | src/lineprotoreceiver/parser.go:204-217 | with distinct keys the parsed map holds exactly the pairs that were written |
| LineRoundTrip.LineReads | src/lineprotoreceiver/parser.go:122-165 | the line of a well-formed point with an even number of quotes in each field name parses to its measurement, tags, fields and time stamp if and only if measurement and tags together hold an even number of quotes; else it is rejected |
| LineRoundTrip.OddQuotesFail | src/lineprotoreceiver/parser.go:170-189 | a point whose names hold an odd number of quotes in all is rejected |
| LineQuotes.OddNameFails | src/lineprotoreceiver/parser.go:214-259 | a field name with an odd number of quotes, none of them behind a backslash, makes its point fail to come back, whatever else the point holds |
| LineQuotes.LineReadsIff | src/lineprotoreceiver/parser.go:122-259 | a well-formed point comes back if and only if the quotes come in pairs, in measurement and tags together and in each field name; names with an odd number must not hide a quote behind a backslash |
| LineQuotes.TwoOddNamesMerge | src/lineprotoreceiver/parser.go:170-259 | two fields whose names hold one quote each are read as a single field with another name, without an error |
| LineQuotes.HiddenQuotesComeBack | src/lineprotoreceiver/parser.go:170-259 | a point with two field names that hide an odd number of quotes behind backslashes does come back |
| LineRoundTrip.OkIsClosed | src/lineprotoreceiver/parser.go:122-165 | whatever line parses has its quotes in pairs |
| LineRoundTrip.RecordUntrimmed | src/lineprotoreceiver/parser.go:96-100 | trimming leaves the line of a legal point alone, and it is neither blank nor a comment |
| LineRoundTrip.PayloadReads | src/lineprotoreceiver/parser.go:91-120 | any list of points, with quotes in pairs in the key part and in each field name, mixed with comments and blank lines, parses to exactly those points in order, time stamps scaled by the precision |
| LineErrors.BadLineStops | src/lineprotoreceiver/parser.go:91-120 | a payload with a bad line gives the points of the lines before it, the index of the line, counted over comments and blank lines, and its error |
| LineErrors.FirstBadTag | src/lineprotoreceiver/parser.go:204-218 | of several bad tags the first one is reported |
| LineErrors.FirstBadField | src/lineprotoreceiver/parser.go:241-258 | of several bad fields the first one is reported |
| LineErrors.NoEquals | src/lineprotoreceiver/parser.go:221-233 | a tag or field without an equals sign is an error |
| LineErrors.NoName | src/lineprotoreceiver/parser.go:204-256 | so is one without a name |
| LineErrors.NoValue | src/lineprotoreceiver/parser.go:297-327 | a tag may have no value, a field must have one |
| LineErrors.OpenString | src/lineprotoreceiver/parser.go:328-333 | a string that does not end in a quote is an error |
| LineErrors.NoSuchValue | src/lineprotoreceiver/parser.go:324-363 | so is a value that is no string, integer, truth value or float |
| LineErrors.NoFieldsAtAll | src/lineprotoreceiver/parser.go:140-165 | a field set of commas, or of nothing, is an error |
| LineErrors.NoMeasurement | src/lineprotoreceiver/parser.go:191-200 | so is a line without a measurement |
| LineErrors.TimestampIff | src/lineprotoreceiver/parser.go:150-165 | a time stamp is a decimal int64 with white space around it, and 0 when there is none |
| LineErrors.BadTimestamps | src/lineprotoreceiver/parser.go:150-165 | any other octet in it is an error |
| Ident.SanitizeIdent | src/lineprotoreceiver/ingest.go:492-510 | the rune loop computes the sanitised name, one underscore for every rune that is no word character |
| Ident.SanitizedIff | src/lineprotoreceiver/ingest.go:489-510 | the result is an identifier, and exactly the identifiers stay as they are |
| Ident.CharacterWords | src/lineprotoreceiver/ingest.go:492-510 | character by character: letters, digits and underscores stay, and every other character, however many octets it has, is one underscore |
| Ident.StrayWords | src/lineprotoreceiver/ingest.go:492-510 | an octet that begins no character is one underscore |
| Ident.SortedKeys | src/lineprotoreceiver/ingest.go:471-478 | the keys in ascending order of Go strings, each once |
| Ident.AscendingUnique | src/lineprotoreceiver/ingest.go:471-478 | a set of keys has only one ascending order, however the map is walked |
| Ident.LessIff | src/lineprotoreceiver/ingest.go:471-478 | the order is that of Go strings: the first difference counts, and a prefix comes first |
| Ident.ColSignature | src/lineprotoreceiver/ingest.go:466-469 | computes a signature of the column set |
| Ident.SameSignatureIff | src/lineprotoreceiver/ingest.go:466-469 | two sets of sanitised columns have the same signature if and only if they are the same set |
| IngestProtocol.InvStep | src/lineprotoreceiver/ingest.go:257-293 | for each table: every statement of every writer keeps the invariant, unless it is a CREATE of that table that was applied and reported as failed: memo within the real columns, one holder of the mutex, and each writer's columns known |
| IngestProtocol.EmptyLakeIsSafe | src/lineprotoreceiver/ingest.go:351-413 | over every interleaving from an empty lake in which no CREATE is applied and reported as failed, the memoised columns are real columns and no INSERT about to be sent names a missing one |
| IngestProtocol.AbsentTableIsSafe | src/lineprotoreceiver/ingest.go:351-413 | over every interleaving, whatever the lake holds, no INSERT into a table absent at the start names a missing column unless a CREATE of that table was applied and reported as failed |
| IngestProtocol.TableSafeIff | src/lineprotoreceiver/ingest.go:355-386 | all runs are safe for a table if and only if it is absent at the start and no CREATE can be applied and reported as failed |
| IngestProtocol.ColumnsGrow | src/lineprotoreceiver/ingest.go:351-413 | over every such run the columns of each table only grow, in the lake and in the memo |
| IngestProtocol.DoneHasSentAll | src/lineprotoreceiver/ingest.go:236-290 | over every interleaving, a writer that comes to its end has sent a statement for each of its rows, in order, dated alike |
| IngestProtocol.NeverStuck | src/lineprotoreceiver/ingest.go:351-420 | no deadlock: in every run, while a writer is at work, some writer can take a step that succeeds |
| IngestProtocol.NextMovesOn | src/lineprotoreceiver/ingest.go:236-413 | each statement that succeeds brings its writer nearer to the end of its job, whatever the others have done |
| IngestProtocol.NoNeedlessAlter | src/lineprotoreceiver/ingest.go:390-412 | over every run no ALTER is sent for a column that the memo lists |
| IngestProtocol.SafeIffEmpty | src/lineprotoreceiver/ingest.go:355-386 | all runs are safe if and only if the lake holds no table at the start and no CREATE can be applied and reported as failed |
| IngestProtocol.LeftoverTableBreaks | src/lineprotoreceiver/ingest.go:366-386 | for every table left by an earlier process there is a run without such a fault that sends an INSERT with a column it lacks |
| IngestProtocol.UnreportedTableBreaks | src/lineprotoreceiver/ingest.go:382-386 | for every table absent at the start, one CREATE of it that was applied and reported as failed leads to an INSERT with a column it lacks |
| Statements.ArgumentAt | src/lineprotoreceiver/ingest.go:327-333 | argument k*width+j of a statement is column j of row k, NULL when the row lacks it |
| Statements.UnpackArgs | src/lineprotoreceiver/ingest.go:326-340 | rows that have exactly the columns of the statement come back from its arguments |
| Statements.CollectArgs | src/lineprotoreceiver/ingest.go:326-333 | the two inner loops build the argument list |
| Ingest.TotalAppend | src/lineprotoreceiver/ingest.go:228-229 | appending a row to its group adds exactly that row to the rows of all groups |
| Ingest.Bucketize | src/lineprotoreceiver/ingest.go:271-275 | bucketing by signature partitions the rows as a multiset, and every bucket has one column set |
| Ingest.DatedIs | src/lineprotoreceiver/ingest.go:260-269 | the day is filled in only where the table asks for it, it is missing and there is a time, and it is the day of that time; nothing else changes |
| Ingest.Ingester.constructor | src/lineprotoreceiver/ingest.go:55-71 | over an empty lake a new ingester is consistent with it |
| Ingest.Ingester.EnsureDatePartition | src/storage/ducklake/date_partition.go:81-138 | columns only grow, and the writers are told to fill the day only when the column exists |
| Ingest.Ingester.EnsureTable | src/lineprotoreceiver/ingest.go:351-413 | after success all columns are known, memo and lake stay consistent whatever statement fails, and columns only grow |
| Ingest.Ingester.InsertBucket | src/lineprotoreceiver/ingest.go:312-347 | chunks of at most 500 rows store a prefix of the bucket, the whole of it on success and whole chunks on failure, and the count is its length |
| Ingest.Ingester.WriteBuckets | src/lineprotoreceiver/ingest.go:277-288 | over any order of the buckets the rows stored are all rows as a multiset, or a part of them after a failure |
| Ingest.Ingester.WriteRows | src/lineprotoreceiver/ingest.go:236-290 | as a multiset the rows stored are the rows given, dated where the table asks for it; the count is right also after a failure; without failing statements it succeeds |
| IngestPoints.MakeRow | src/lineprotoreceiver/ingest.go:213-227 | the row of a point has the sanitised tag and field names and `ts`, fields override tags, and `ts` is the time or now |
| IngestPoints.OwnTable | src/lineprotoreceiver/ingest.go:205-211 | the table of a point is `lake.schema.prefix` and its sanitised measurement, the measurement itself when it is an identifier; two points share a table if and only if their measurements sanitise alike |
| IngestPoints.GroupByTable | src/lineprotoreceiver/ingest.go:201-231 | every point becomes exactly one row in the group of its table, which `OwnTable` names, and each group keeps the order of the points |
| IngestPoints.RowsAtWith | src/lineprotoreceiver/ingest.go:335-343 | rows stored in one table are appended to it, and no other table changes |
| IngestPoints.GroupsDeliver | src/lineprotoreceiver/ingest.go:201-231 | tables that received their groups received just the rows of their points, for every table name |
| IngestPoints.MeasurementDelivered | src/lineprotoreceiver/ingest.go:201-231 | delivered means, for each measurement: its table has received just the rows of the points of that measurement, in whatever order |
| IngestPoints.WritePoints | src/lineprotoreceiver/ingest.go:144-153 | every point becomes exactly one row: on success every table, and so the table named after each measurement, has received just the rows of its points as a multiset, dated where it asks for it; after a failure each table has a part of them, and the count returned is the number of rows stored all the same |
| Hep3.Assemble | src/cli/migrate_hep.go:154-169 | the appending loop writes the magic, the length and the chunks in order |
| Hep3.ScanFrames | src/decoder/hep.go:32-64 | good chunks are read back from their concatenation |
| Hep3.ScanOnto | src/decoder/hep.go:32-64 | whatever is read to the end is the concatenation of the good chunks returned |
| Hep3.AcceptsIff | src/decoder/hep.go:25-124 | a packet is accepted if and only if its declared length is right and the rest is a concatenation of chunks of the required sizes |
| Hep3.SizesAre | src/decoder/hep.go:45-63 | each kind of chunk holds an octet, a 16-bit or 32-bit number, a 32-bit or 128-bit address, or any text |
| Text.Be32Order | src/decoder/hep.go:82-85 | numbers are big-endian: their order is that of their octets |
| Hep3.WriteDecimal | src/decoder/ipformat.go:27-41 | writes the decimal text of an octet at the running position |
| Hep3.Ipv4BytesToString | src/decoder/ipformat.go:11-25 | four octets give their dotted quad, written within the 15 octets of the buffer; other lengths give nothing |
| Hep3.DottedInjective | src/decoder/ipformat.go:11-25 | the address can be read off its dotted quad |
| Hep3.DottedIs | src/decoder/ipformat.go:11-41 | the text is the four octets in decimal with full stops between them |
| Hep3.ProtoNames | src/decoder/hep.go:92-112 | the names of the protocol types |
| Hep3.Store | src/decoder/hep.go:66-120 | one chunk sets its field and no other |
| Hep3.ParseHep | src/decoder/hep.go:25-124 | the loop applies the chunks up to the first bad one, the 16-bit cursor never wraps and ends at the length, and acceptance is that of the scan |
| Hep3.LastChunkWins | src/decoder/hep.go:66-120 | every field holds what the last chunk for it says, and its old value when there is none |
| Hep3RoundTrip.Reconstruct | src/cli/migrate_hep.go:62-129 | the chunks are built step by step with the defaults of the source, and an empty payload is an error |
| Hep3RoundTrip.AcceptedIff | src/cli/migrate_hep.go:144-152 | the decoder accepts a rebuilt packet if and only if it is at most 65535 bytes long and both addresses have a 4-byte form |
| Hep3RoundTrip.RowComesBack | src/cli/migrate_hep.go:62-169 | every accepted packet of a row is applied chunk by chunk over whatever the decoder's packet held; `RowSays` says what it then holds |
| Hep3RoundTrip.RowSays | src/cli/migrate_hep.go:62-129 | the packet read back has the row's own family, protocol, ports, times, type, capture id and texts where they are there and fit, and else 2, 17, the creation date to the microsecond, 1, the forced id or 1, and the call id |
| Hep3RoundTrip.NoSource | src/cli/migrate_hep.go:171-186 | a source address that is missing or no address is sent as 0.0.0.0, and in a row of IPv6 the packet is rejected; `NoDestination` says the same for the destination |
| Hep3RoundTrip.AddressTextsReturn | src/cli/migrate_hep.go:144-186 | a row with dotted quads for its addresses is accepted exactly when its packet is short enough, and the packet read back holds the very texts of both |
| Hep3RoundTrip.LoopbackIsRejected | src/cli/migrate_hep.go:144-152 | no packet of a row with the source address ::1 is accepted |
| Replay.Resume | src/cli/migrate_hep.go:438-463 | resuming behind the last row of a prefix selects exactly the rows behind that prefix |
| Replay.ChainSends | src/cli/migrate_hep.go:350-430 | a chain of clean runs sends the packets of the rows between its checkpoints, each once and in order |
| Replay.UpToExactly | src/cli/migrate_hep.go:417-421 | a limited run covers the rows up to the one that brings the last packet |
| Replay.SendBatch | src/cli/migrate_hep.go:379-422 | the loop over a batch sends every row with a payload, counts sent and skipped rows, and stops at the limit or at a failed send |
| Replay.ReplayTable | src/cli/migrate_hep.go:350-430 | every row up to the new checkpoint was sent, in order; after a failed send the checkpoint stays behind what was sent; without a failure the rows covered do not depend on the batch size |
| ReplayRuns.RunMigrate | src/cli/migrate_hep.go:319-334 | a run without error appends to the log exactly the packets of the clean run and ends with its checkpoint, whatever the batch size; nothing is lost between the first checkpoint and the one in memory or on disk, however the run ends; with a limit all tables together send at most 2*limit-1 packets |
| ReplayRuns.ChainAllIsOneRun | src/cli/migrate_hep.go:319-334 | over all tables, clean runs with any limits chained through checkpoints and closed by an unlimited one send exactly the sequence of one unlimited run and end with its checkpoint |
| ReplayRuns.RunResumes | src/cli/migrate_hep.go:319-430 | a limited run over the tables, from any total, and an unlimited one behind it are one unlimited run |
| ReplayRuns.TotalIs | src/cli/migrate_hep.go:417-430 | a clean run over distinct tables sends all there is when that is below the limit; else all of the first tables, and of the one that reaches the limit as many packets as the limit allows |
| ReplayRuns.LimitExceededIff | src/cli/migrate_cmd.go:122 | a clean run over distinct tables sends more than its limit if and only if there is a table before which some, but fewer than the limit, and behind which more than the limit were pending |
| ReplayRuns.BoundIsReached | src/cli/migrate_hep.go:330-333 | for every limit and any two tables there are rows of which a run sends exactly 2*limit-1 |
| Flight.AddKeepsLast | src/flight/hep_table.go:233-243 | adding to the ring keeps the last packets, oldest first |
| Flight.RingBuffer.Add | src/flight/hep_table.go:233-243 | in place: the buffer holds the last `size` packets of what it held and the new one |
| Flight.RingBuffer.GetAll | src/flight/hep_table.go:246-269 | returns the packets held, oldest first, in both layouts of the array |
| Flight.RingBuffer.Clear | src/flight/hep_table.go:279-290 | empties the buffer and drops every reference |
| Flight.Schema.constructor | src/flight/catalog.go:99-113 | four empty tables of one size, no two of them sharing a buffer |
| Flight.Schema.AddHEP | src/flight/catalog.go:164-188 | after any sequence of calls, one after the other, every table holds the last packets of its class, oldest first |
| Flight.ClassNames | src/flight/catalog.go:170-187 | the class tables hold exactly the packets whose type the decoder names sip, rtcp and log |
| Flight.ExpectedMore | src/flight/catalog.go:164-188 | a packet changes the table of all packets and the table of its class, and no other |
| Flight.ClassIsSuffix | src/flight/catalog.go:164-188 | the packets of a class among the last packets are the newest packets of the table of that class |
| FlightProtocol.EveryInterleavingConserves | src/flight/catalog.go:164-188 | over every interleaving of concurrent calls, at rest each class table has received exactly the packets of its class, as a multiset |
| FlightProtocol.SameOrderIff | src/flight/catalog.go:164-188 | at rest the table of a class holds its packets in the order of `packets` if and only if no call of the class overtook another between its two additions, for packets no two of which are the same |
| FlightProtocol.InTurnIsSequential | src/flight/catalog.go:164-188 | when no call of a class overtakes another of that class between its two additions, the table of the class at rest is that of calls one after the other, and its last packets are the class packets among the last of all |
| FlightProtocol.OvertakingBreaksTheOrder | src/flight/catalog.go:164-188 | two concurrent calls can leave `packets` and `sip` with different orders |
| Dedup.Window.Offer | src/decoder/decoder.go:361-382 | over whole runs every drop is justified, and while nothing has been forgotten the packets let through keep their distance |
| Dedup.Window.Forget | src/decoder/decoder.go:361-365 | a cache that drops entries never makes a drop unjustified |
| Dedup.DroppedHasWitness | src/decoder/decoder.go:365-376 | every suppressed packet has an earlier accepted one of its hash within 500 ms |
| Dedup.ConsecutiveAreSpaced | src/decoder/decoder.go:365-382 | without eviction consecutive accepted packets of one hash are at least 500 ms apart |
| Timestamp.Sanitize | src/decoder/decoder.go:296-333 | the time is in the window around the receive time, and seconds and microseconds agree with it |
| Timestamp.FieldsAgree | src/decoder/decoder.go:345-350 | the two fields name the time to the microsecond |
| Timestamp.UnixTimeKept | src/decoder/decoder.go:312-317 | a Unix time in the window keeps its value |
| Timestamp.NtpTimeRecovered | src/decoder/decoder.go:319-328 | a time in the window sent with the NTP offset is recovered exactly |
| Timestamp.OtherwiseNow | src/decoder/decoder.go:296-333 | a time that is missing, or in the window in neither reading, becomes the receive time |
| Timestamp.BadMicros | src/decoder/decoder.go:297-299 | microseconds of a million and more count as none |
| Timestamp.WindowEnds | src/decoder/decoder.go:335-343 | the window reaches from ten years before the receive time to one day behind it, ends included |
| Timestamp.ReadingsExclude | src/decoder/decoder.go:281-294 | a time is never in the window both as Unix time and as NTP time |
| Timestamp.RepairIsStable | src/decoder/decoder.go:296-333 | repairing a repaired packet again, at the same receive time, changes neither seconds nor microseconds |
| JsonText.WriteJSONString | src/decoder/decoder.go:446-495 | writing runs of plain octets between escapes gives the escaped text |
| JsonText.ReadsBack | src/decoder/decoder.go:446-495 | a reader of JSON strings (section 7 of RFC 8259) finds exactly the text that was written and the true closing quote |
| JsonText.PlainCopied | src/decoder/decoder.go:446-495 | a text without quotes, backslashes and control octets is written as it is |
| JsonText.EscapeForms | src/decoder/decoder.go:459-485 | the form of every escape |

## Left out

- IsupExact.MultipartRoundTripIff: asks for a boundary without line breaks, since a boundary with one could be cut by the newline of a part; RFC 2046, section 5.1.1, allows none.
- IsupStorage.MultipartStored: asks that no part of the stored text carries the mark of the hex form, because reading back would then decode it; `IsupStorage.StoredNoMarks` says when that is so.
- IsupMessages.MessageSays: at most one variable parameter, as in the layout table; two would need more than one pointer.
- LineQuotes.LineReadsIff: leaves out names that hold an odd number of quotes and hide one of them behind a backslash; some points with such names come back and others do not, and `LineQuotes.HiddenQuotesComeBack` is one that does.
- HepPacket.FromWire: positions are unbounded integers, so messages near 2^63 octets are not modelled, and a length so near 2^63 that the index behind it wraps is UnexpectedEof here, where the source goes on with a negative index; the set of fields seen stands for the bit mask.
- IngestProtocol.SafeIffEmpty: column types are not modelled, only column names; names are compared exactly, where DuckDB ignores case.
- Ingest.Ingester.EnsureTable: a CREATE TABLE that fails leaves no table behind; `IngestProtocol.SafeIffEmpty` has both cases.
- Dedup.Window.Offer: packets pass the cache one after the other; two that pass at the same moment may both be let through.
- ReplayRuns.RunMigrate: real runs only; a dry run also moves the checkpoint although it sends nothing.
- Replay.ReplayTable: the rows of a table in the time window are fixed during a run.
- FlightProtocol.InTurnIsSequential: the tables are their histories; that a ring keeps the last packets of its history is proved in `Flight`.
- Names and summary texts of the ISUP decoder, and the text behind listed numbers: tables without a deep property.
- Case folding of letters beyond ASCII in header names and content types.
- BodyFromCell for the base64 text of a JSON API: a library call.
- HEP versions 1 and 2: fixed offsets.
- Structured HEP rows in line protocol (hep_proto_* measurements) and schema creation: one statement each.
- ParsePrecision: a table of spellings.
- colType and the widening of column types: one-branch facts.
- Sockets, HTTP, FlightSQL, SQL text, PostgreSQL, configuration, the command line and user interfaces.
- SIP parsing, Lua scripts and everything behind the decoder that package sipparser does.
