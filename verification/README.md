# Teltonika gateway core in Dafny

This project models the core of `Codec12/codec12.py`. That file is a TCP
gateway for Teltonika GPS trackers. The gateway multiplexes three kinds of
traffic on one socket:

- the tracker's IMEI handshake;
- Codec 8 Extended AVL data frames;
- Codec 12 command replies.

The same socket also accepts an HTTP-like `POST /send-data?id=` request
that relays a command to a registered tracker.

Frames are byte sequences (`seq<byte>`). The source works on their
lower-case hex text, where hex index `2k` is byte `k`. Where the source
tests hex text, the model states the test on that text as written and
proves it equal to a test on the bytes. The modules follow the source's
pieces:

- `Wire`: Python slicing with clamped bounds; big-endian reads that may
  be cut short; `bytes.hex()`; `f"{n}"`.
- `Utf8`: strict and `errors="ignore"` UTF-8 decoding, and the encoder
  they invert.
- `Handshake`: `imei_checker` and `ascii_imei_converter`.
- `Classify`: the order in which `handle_connection` tries the branches,
  and the two codec checkers.
- `AvlDecode`: `codec_8e_parser`'s cursor walk over the wire content.
  `AvlEncode` is an encoder it inverts. `AvlSample` is the demo
  tracker's frame.
- `AvlView`: the dictionary `codec_8e_parser` builds for each record.
- `Coordinate`: `coordinate_formater` in integer units of 1e-7 degrees.
- `Rtp`: the 60-second plausibility flag over integer seconds.
- `Codec12`: `parse_response_message`, and a frame builder it inverts.
- `Gateway`: the registry state machine.
  - The registry is the three dictionaries `connections`, `devices` and
    `device_data_store`.
  - It covers one chunk of the read loop, the whole loop, the `finally`
    block, and the `send_data` route.

The gateway takes a few things as parameters:

- Python's `str.isnumeric` is a parameter `numeric: char -> bool`. Where
  ASCII is concerned it is required to agree with `'0'..'9'`.
- The `TELTONIKA_IO_MAPPING` table is a parameter `map<nat, string>`.
- The reception clock is a parameter giving integer seconds per record.
- The query extraction of an HTTP-like request is a parameter.

Socket writes become events, and writers are identified by a number.

In several places the code does less, or something other, than its names
suggest; the model follows the code:

- The handshake check uses `str.isnumeric`, which accepts any 15 numeric
  characters, non-ASCII ones such as `'٣'` included
  (`Handshake.NonAsciiDigitsAccepted`). For an ASCII payload it accepts
  exactly 15 digits (`Handshake.AsciiHandshake`).
- An id that is not registered makes `send_data` raise a 404. The
  route's own `except` turns that 404 into a 500.
- `codec_8e_parser` is always called with `props={}`, so it returns 0.
  AVL records are therefore never appended to the store; a malformed
  frame only ends the connection.
- The variable-width IO tier steps over one extra byte after every value.
  The reason is that `len((value, 16))` is 2 hex characters.
- An unknown IO key is stored under `Unknown IO <4 hex digits>` in the
  fixed tiers, not under its number. A variable-width element is stored
  twice: under its number, and under its name.
- An HTTP-like chunk re-points the connection's `device` at the IMEI it
  names (line 153). The `finally` block then unregisters that IMEI, not
  the one this connection registered (`Gateway.HttpRepointsFinally`).
- `send_data` writes whatever command text it is given. Only the read
  loop limits commands to `getinfo` and `getio`.

## Model

| member | source | states |
|---|---|---|
| Wire.Slice | Codec12/codec12.py:457 | Python slicing: clamped bounds; the result is the elements from `lo` up to `min(hi, len)` |
| Wire.ReadUint | Codec12/codec12.py:496-498 | `int(field, 16)` on a slice: it parses a field cut short by the end of the buffer, raises on an empty one, and its value fits the width |
| Wire.ReadFull | Codec12/codec12.py:535-540 | a field read that needs all `w` bytes; it fails exactly when fewer remain |
| Wire.Skip | Codec12/codec12.py:483-486 | the priority field, taken but never parsed: the cursor moves by at most one field |
| Wire.BEOfEncode | Codec12/codec12.py:84 | reading back a big-endian encoding yields the encoded value |
| Wire.EncodeOfBE | Codec12/codec12.py:84 | re-encoding a big-endian read yields the bytes that were read |
| Wire.HexAt | Codec12/codec12.py:124 | characters `2k..2k+1` of `data.hex()` are the two hex digits of byte `k` |
| Wire.HexInjective | Codec12/codec12.py:124 | different byte strings have different hex text |
| Wire.Decimal | Codec12/codec12.py:433 | `f"{key}"` is a non-empty run of decimal digits with no leading zero, and is "0" exactly for 0 |
| Wire.DecimalValueOfDecimal | Codec12/codec12.py:433 | reading the digits of `f"{key}"` back in base 10 gives `key` |
| Wire.DecimalInjective | Codec12/codec12.py:433 | two keys with the same `f"{key}"` text are the same key, so the text keys of distinct IO numbers never collide |
| Utf8.DecodeOfEncode | Codec12/codec12.py:414 | strict UTF-8 decoding of an encoded string gives the string back |
| Utf8.EncodeOfDecode | Codec12/codec12.py:414 | a byte string that decodes strictly is the encoding of its decoded text |
| Utf8.IgnoringErrorsAgrees | Codec12/codec12.py:86 | on well-formed input, `errors="ignore"` decoding equals strict decoding |
| Utf8.DecodeAscii | Codec12/codec12.py:414 | ASCII bytes decode to the characters with the same codes |
| Utf8.ScalarOfEncodeChar | Codec12/codec12.py:414 | the first well-formed sequence of an encoded character followed by anything is that character, with its length |
| Handshake.ImeiCheck | Codec12/codec12.py:405-414 | accepts iff the declared length equals the remaining byte count and the payload decodes as UTF-8 to 15 numeric characters, the IMEI being that text; raises a decode fault iff the length matches and the payload is not UTF-8 |
| Handshake.AsciiHandshake | Codec12/codec12.py:405-414 | for an ASCII payload: never a fault, and accepted iff the frame has 17 bytes, declares 15, and bytes 2 onward are ASCII digits; the IMEI is those bytes as text |
| Handshake.ZeroPreambleRejected | Codec12/codec12.py:406-408 | a frame starting `00 00` with at least one more byte is never a handshake |
| Handshake.MalformedTextFaults | Codec12/codec12.py:413-414 | every length-matching payload that holds a byte 0xC0, 0xC1 or 0xF5 and above raises a decode fault |
| Handshake.MalformedSample | Codec12/codec12.py:413-414 | the three-byte frame `00 01 FF` raises a decode fault |
| Utf8.ScalarBytes | Codec12/codec12.py:414 | no byte of a well-formed UTF-8 sequence is 0xC0, 0xC1 or 0xF5 and above |
| Utf8.NeverByteFails | Codec12/codec12.py:414 | strict decoding fails on any byte sequence that holds such a byte |
| Handshake.NonAsciiDigitsAccepted | Codec12/codec12.py:410 | fifteen Arabic-Indic threes pass `isnumeric` and are accepted as an IMEI |
| Classify.UpperText | Codec12/codec12.py:418 | `str.upper()` on hex text maps each character and keeps the length |
| Classify.PostPrefixIsHex | Codec12/codec12.py:135 | the hex literal compared with is the hex of `POST /send-data?id=` |
| Classify.HttpCheckerBytes | Codec12/codec12.py:135 | the hex-prefix test holds iff the bytes start with `POST /send-data?id=` |
| Classify.CodecChars | Codec12/codec12.py:417-418 | hex characters 16..17, which the AVL checker here and the reply checker at line 374 both test, are the hex of byte 8, or empty when there is no byte 8 |
| Classify.AvlCheckerBytes | Codec12/codec12.py:417-421 | the upper-cased test against "8E" holds iff byte 8 is 0x8E |
| Classify.ReplyCheckerBytes | Codec12/codec12.py:373-374 | the test against "0c" holds iff byte 8 is 0x0C |
| Classify.ClassifyAgrees | Codec12/codec12.py:127-214 | the branch taken on the hex text equals the ordered byte-level classification: handshake, POST prefix, 0x8E, 0x0C, otherwise ignored |
| Classify.PostIsHttp | Codec12/codec12.py:135-188 | a chunk of at most 1280 bytes with the POST prefix is an HTTP-like request: its first two bytes declare 0x504F bytes, more than one read returns, so it is never a handshake |
| Classify.ZeroPreambleKinds | Codec12/codec12.py:191-214 | a zero-preamble chunk is AVL iff byte 8 is 0x8E, a reply iff byte 8 is 0x0C, and ignored otherwise |
| Classify.EncodedAvlIsAvl | Codec12/codec12.py:191 | every encoded AVL frame is classified as AVL |
| Classify.EncodedReplyIsReply | Codec12/codec12.py:201 | every encoded Codec 12 reply is classified as a reply |
| Classify.SampleHandshakeAccepted | Codec12/sp.py:11 | the demo handshake is accepted with the IMEI 356307042441013 |
| Classify.SampleFramesClassified | Codec12/sp.py:25 | the demo AVL frame is AVL; the getinfo and getio replies are replies |
| AvlDecode.DecodeTier | Codec12/codec12.py:532-548 | `n` key/value pairs yield `n` elements, and the cursor stays within the buffer |
| AvlDecode.DecodeTierFacts | Codec12/codec12.py:532-548 | keys fit 2 bytes and values fit the width; unless the buffer ran out, the tier spans exactly `n` times `2 + w` bytes |
| AvlDecode.DecodeVarTier | Codec12/codec12.py:640-663 | `n` triples yield `n` elements with non-empty values, and the cursor moves by key, length, value and the extra byte of each |
| AvlDecode.DecodeVarSection | Codec12/codec12.py:634-665 | the 2-byte count followed by its triples; the cursor advances strictly |
| AvlDecode.DecodeHeader | Codec12/codec12.py:457-524 | the 28 fixed bytes: the cursor advances strictly, by exactly 28 unless the buffer ended; an out-of-range timestamp raises; coordinates fit 32 bits |
| AvlDecode.DecodeCountedTier | Codec12/codec12.py:526-630 | a fixed-width tier: a count and the pairs; the cursor advances strictly, by exactly the tier's size unless the buffer ended |
| AvlDecode.DecodeRecord | Codec12/codec12.py:451-668 | one record: the cursor advances strictly, and by exactly the record's size unless the buffer ended; the variable tier is read only for codec 0x8E |
| AvlDecode.DecodeRecords | Codec12/codec12.py:451-676 | the loop stops at or beyond its bound, yields at least one record when it starts below the bound, and otherwise spans exactly its records; it terminates because the cursor rises |
| AvlDecode.DecodeFrame | Codec12/codec12.py:441-451 | records start at byte 10 and are decoded while the cursor is below L - 3; a frame of 4 bytes or fewer raises |
| AvlDecode.Codec8eParse | Codec12/codec12.py:678-702 | success iff the frame decodes; the result is 0 unless `props == "SERVER"`, and then it is the record count |
| AvlEncode.EncodeRecord | Codec12/codec12.py:451-668 | a record's encoding has exactly the length the decoder's cursor arithmetic predicts |
| AvlEncode.DecodeHeaderOfEncode | Codec12/codec12.py:457-524 | an encoded header decodes to itself in exactly 28 bytes |
| AvlEncode.DecodeTierOfEncode | Codec12/codec12.py:532-548 | encoded pairs decode to themselves and end exactly after them |
| AvlEncode.DecodeCountedTierOfEncode | Codec12/codec12.py:526-630 | an encoded counted tier decodes to itself, consuming its size |
| AvlEncode.DecodeVarTierOfEncode | Codec12/codec12.py:640-663 | encoded triples, each with its extra byte, decode to themselves |
| AvlEncode.DecodeVarSectionOfEncode | Codec12/codec12.py:634-665 | an encoded variable-width tier decodes to itself |
| AvlEncode.DecodeRecordOfEncode | Codec12/codec12.py:451-668 | an encoded record decodes to itself, consuming exactly its size |
| AvlEncode.DecodeRecordsOfEncode | Codec12/codec12.py:451-676 | encoded records decode to themselves, in order, and the loop stops exactly at their end |
| AvlEncode.DecodeFrameOfEncode | Codec12/codec12.py:441-676 | an encoded frame decodes to its records, and the cursor stops at their total size |
| AvlSample.FrameIsEncoded | Codec12/sp.py:25 | the demo frame is the encoding of one record with 71 bytes of content and CRC 0x2994 |
| AvlSample.SampleDecodes | Codec12/sp.py:25 | the demo frame (L = 0x4A) decodes to exactly that one record, with the cursor at 71 on exit |
| AvlView.IoPairs | Codec12/codec12.py:542-545 | each fixed-width element is assigned its big-endian value under its table name or `Unknown IO <hex key>` |
| AvlView.VarPairsAt | Codec12/codec12.py:654-661 | each variable-width element makes two assignments in order: under its number, its description with the value's hex; then under its name, the value read big-endian |
| AvlView.AssignLast | Codec12/codec12.py:545 | dictionary assignment in order: an entry whose key is not reassigned later holds its value |
| AvlView.AssignUntouched | Codec12/codec12.py:545 | a key that no assignment touches keeps its earlier presence and value |
| AvlView.AssignKeys | Codec12/codec12.py:545 | the keys after the assignments are the earlier keys plus every assigned key, so nothing is dropped |
| AvlView.FrameView | Codec12/codec12.py:431-676 | the frame yields dictionaries iff it decodes, one per decoded record |
| AvlView.FixedElementStored | Codec12/codec12.py:542-625 | every fixed-width element of every tier has an entry under its name |
| AvlView.FixedElementValue | Codec12/codec12.py:542-625 | an element whose name no later assignment reuses is stored as its big-endian value |
| AvlView.VarElementStored | Codec12/codec12.py:654-661 | every variable-width element has entries under both its number and its name |
| AvlView.VarElementValue | Codec12/codec12.py:654 | under its number, an element whose key is not repeated later holds its description and hex value |
| AvlView.VarElementNamed | Codec12/codec12.py:657-660 | under its name, an element whose name no later variable-width element reuses holds its value read big-endian |
| AvlView.KeyTextOfBytes | Codec12/codec12.py:543 | the unknown-key label's hex text is the hex of the key's two wire bytes |
| AvlView.UnknownLabel | Codec12/codec12.py:542-544 | keys 0x0011 and 0xABCD outside the table are named `Unknown IO 0011` and `Unknown IO abcd` |
| Coordinate.Decode | Codec12/codec12.py:705-712 | 32-bit two's complement: the result lies in [-2^31, 2^31), agrees with the input modulo 2^32, and is negative iff bit 31 is set |
| Coordinate.DecodeOfEncode | Codec12/codec12.py:705-712 | decoding the two's-complement encoding of a signed value gives it back |
| Coordinate.EncodeOfDecode | Codec12/codec12.py:705-712 | encoding a decoded word gives the word back |
| Coordinate.DecodeInjective | Codec12/codec12.py:705-712 | different 32-bit words decode to different coordinates |
| Coordinate.Samples | Codec12/codec12.py:705-712 | 0x00000000 is 0, 0xFFFFFFFF is -1, 0x7FFFFFFF is 2^31 - 1, and 0x80000000 is -2^31 |
| Rtp.Rtp | Codec12/codec12.py:474-478 | the flag is 0 or 1, and 1 iff the two times are at most 60 s apart |
| Rtp.RtpSymmetric | Codec12/codec12.py:474-478 | the flag does not depend on which time comes first |
| Rtp.RtpSamples | Codec12/codec12.py:478 | equal times give 1, a 60 s gap gives 1, a 61 s gap gives 0, and a 120 s gap gives 0 either way |
| Rtp.RtpAsWritten | Codec12/codec12.py:458-478 | the comparison as written shifts the device time by the server's zone offset |
| Rtp.AsWrittenFlagsFreshRecord | Codec12/codec12.py:458-478 | on a server one hour from UTC, a record received the instant it was taken is flagged 0 |
| Rtp.AsWrittenAgreesOnlyNearUtc | Codec12/codec12.py:458-478 | for such a record, the flag as written agrees with the intended one iff the zone offset is at most 60 s |
| Codec12.ParseResponse | Codec12/codec12.py:79-94 | `None` iff fewer than 15 bytes; otherwise the caller's device id is carried unchanged |
| Codec12.EncodedFields | Codec12/codec12.py:83-85 | in a built reply, the u32 at bytes 11..14 is the text length, and the payload slice is the text |
| Codec12.ParseOfEncode | Codec12/codec12.py:79-91 | parsing a built reply gives the `errors="ignore"` decoding of its text, under the caller's id |
| Codec12.ParseOfEncodeText | Codec12/codec12.py:86 | for UTF-8 text the parsed reply is exactly that text |
| Codec12.OversizeTruncates | Codec12/codec12.py:85 | a declared size past the end is truncated to the bytes present, not rejected |
| Codec12.TrailerIgnored | Codec12/codec12.py:85 | bytes after the declared payload do not change the result |
| Codec12.HeaderIgnored | Codec12/codec12.py:81-84 | bytes 0..10 (preamble, data size, codec id, count, type) do not change the result |
| Codec12.CutShort | Codec12/codec12.py:79-94 | a reply cut after `k` text bytes parses to those `k` bytes; cut below 15 bytes it gives `None` |
| Codec12.InfoSample | Codec12/sp.py:41 | the getinfo reply declares and carries a 0x88 = 136-byte payload |
| Codec12.IoSample | Codec12/sp.py:48 | the getio reply declares and carries a 0x2F = 47-byte payload |
| Gateway.Append | Codec12/codec12.py:206-208 | the IMEI's list is created when missing and the reply is appended to it; other IMEIs keep their lists |
| Gateway.HttpStep | Codec12/codec12.py:152-188 | without both an id and a command nothing changes; otherwise the loop's `device` becomes `connections.get(id)`; a `getinfo` or `getio` for a registered id writes that command frame to `devices[device.imei]`, and the loop ends only when that entry is missing; an unknown id or any other command writes nothing; the registry never changes |
| Gateway.InBandDispatch | Codec12/codec12.py:152-188 | on a consistent registry the loop goes on; `getinfo`/`getio` for a registered id sends exactly one command frame, to the target device's own writer, and otherwise nothing is written |
| Gateway.HttpRepointsFinally | Codec12/codec12.py:153-223 | after this connection's handshake for A, an HTTP-like chunk naming another registered IMEI B re-points `device`, so the `finally` block removes B from all three dictionaries and A stays registered with this writer |
| Gateway.LatestEntry | Codec12/codec12.py:249-252 | the last stored reply iff the IMEI's list exists and is non-empty, otherwise the no-response marker |
| Gateway.SendData | Codec12/codec12.py:237-273 | fails with 500 iff the id is not in `devices` or the command write or drain fails; writes nothing iff the id is unknown, and otherwise writes the command text to that writer; on success answers with id, command and the latest entry |
| Gateway.Disconnect | Codec12/codec12.py:218-228 | with no device, or a device already gone from `connections`, nothing is removed |
| Gateway.HandshakeRegisters | Codec12/codec12.py:127-132 | a handshake puts the IMEI in `connections` and `devices` with this connection's writer, acknowledges once, sets the loop's `device`, and changes no other IMEI or the store |
| Gateway.RepeatHandshakeOverwrites | Codec12/codec12.py:377-383 | a second registration of an IMEI replaces the first rather than merging |
| Gateway.DisconnectRemoves | Codec12/codec12.py:218-224 | disconnecting a registered device removes its IMEI from all three dictionaries and leaves every other IMEI as it was |
| Gateway.ReceiveConsistent | Codec12/codec12.py:127-214 | one chunk keeps `connections` and `devices` on the same IMEIs, with matching writers |
| Gateway.DisconnectConsistent | Codec12/codec12.py:218-228 | so does the `finally` block |
| Gateway.ServeConsistent | Codec12/codec12.py:119-214 | so does the whole read loop |
| Gateway.IgnoredChangesNothing | Codec12/codec12.py:201-214 | an unrecognised chunk changes no dictionary, emits nothing and keeps the loop reading |
| Gateway.AvlNeverStored | Codec12/codec12.py:191-198 | an AVL chunk stores and emits nothing; the loop ends only when a device is set and the frame is malformed |
| Gateway.ReplyIsLatest | Codec12/codec12.py:201-214 | after a reply arrives for a registered device, `send_data` for that IMEI answers with exactly that parsed reply |
| Gateway.UnknownIdWritesNothing | Codec12/codec12.py:237-261 | an id missing from `devices` gives status 500 and no write, whatever the write would have done |
| Gateway.FailedWriteIs500 | Codec12/codec12.py:264-273 | for a registered id, a command write or drain that fails makes the route answer 500 |
| Gateway.MalformedHandshakeCloses | Codec12/codec12.py:127-128 | a first chunk whose payload matches its length but holds a byte that is never UTF-8 ends the read loop without touching the registry or writing |
| Gateway.ConnectionLeavesNoTrace | Codec12/codec12.py:218-228 | after a connection closes, the device it last pointed at is in neither `connections` nor `devices`, and its store entry is gone once the loop ended with it registered |

## Left out

- Socket I/O, `writer.drain`, the `asyncio.sleep` grace periods, uvicorn and FastAPI routing. Writes are events and sleeps are the gap between the `before` and `after` registries of `Gateway.SendData`.
- A failing write of the handshake acknowledgement (lines 104-111) or of a forwarded reply (lines 58-65): the source logs it and carries on, so it changes nothing that is modelled. The command write of `send_data` is modelled by the `written` parameter of `Gateway.SendData`.
- `datetime` is used at lines 466, 469, 728 and 740 but never imported by name in `Codec12/codec12.py`; the model assumes that the star imports of `constants8e` or `parameters` supply it. Without it, an AVL frame from a registered device raises at line 728 (through the call at line 458) whenever its record loop runs, and that ends the connection; a frame declaring a data length of 3 or less never enters the loop at line 451. Those modules are not part of this model.
- Concurrency between connections: each read-loop step is one uninterrupted run of the event loop between two awaits, and the interleaving itself is not modelled.
- Gateway.SendData: the route is treated as atomic with respect to the read loops, although uvicorn runs it on a thread of its own (lines 754-758). A connection's `finally` block deleting `devices[id]` between the test at line 237 and the lookup at line 240 would raise a KeyError that the route turns into a 500 with nothing written; the contract's write for a known id does not cover that interleaving.
- `urlparse` and `parse_qs`: the id and command of an HTTP-like request come from a parameter of `Gateway.Receive`.
- `json.dumps` and the JSON rendering of dictionaries and replies.
- `TELTONIKA_IO_MAPPING`: the table is a parameter, since `constants8e` is not part of this model.
- `str.isnumeric`: the Unicode database is a parameter, required to agree with `'0'..'9'` only on ASCII.
- Time rendering, local time zones and the `strptime` round trip: times are integer seconds, and "t" is stored as device seconds rather than as a rendered string. Because of the swapped unpacking at line 458, the string stored under "t" at line 460 is the device time's UTC rendering.
- `astimezone` overflowing when the server's zone pushes a device time within a day of 10000-01-01 past that limit: only the UTC bound `AvlDecode.FirstBadSecond` is modelled.
- Float division by 1e7 in `coordinate_formater`: coordinates are signed integers in 1e-7 degrees.
- The CRC and the trailing record count: the decoder never reads them.
- `send_getinfo_command` and `send_getio_command`: only their command-frame write is modelled. The store only ever holds parsed dictionaries, so their `isinstance(..., str)` and re-parse paths always return `None`, and the loop writes no answer.
- The intermediate `connections[imei] = True` written by `Device.__init__`: line 130 overwrites it before the loop yields.
- `handle_device_commands`, `handle_device_registration`, `Device.handle_data`, `send_acknowledgment` as a method, and `codec_parser_trigger`: the read loop never calls them.
- The first definition of `codec_8e_checker` at line 369: the later one at line 417 replaces it.
- The `_raw_data__` entry and `io_dict_raw`: they are built and never used.
- The 1280-byte read bound is a constant of `Classify`; reading itself is not modelled.
- AvlView.FixedElementValue: states the stored value only for an element whose name no later assignment reuses; a repeated name holds the last value, which `AvlView.AssignLast` gives in general.
- AvlView.BasePairs: its rtp entry is the corrected flag `Rtp.Rtp` of both times in UTC. It equals the flag the code computes only on a server whose zone offset is 0, as `Rtp.RtpAsWritten` states for offset 0; the as-written flag on other servers is `Rtp.RtpAsWritten` itself (see Findings).
- Gateway.Disconnect: its contract states only the cases where nothing is removed; the removal itself is stated by `Gateway.DisconnectRemoves`, which assumes a consistent registry.

## Findings

| source | as written | input that shows it | evidently intended | confidence | as-written member | corrected member |
|---|---|---|---|---|---|---|
| Codec12/codec12.py:458-478 | `device_time_stamper` returns (local, utc) but the parser unpacks (utc, local), so the device's local time is compared with the UTC reception time | a server one hour from UTC receiving a record the instant it was taken: the difference is 3600 s and rtp is 0 | both times in UTC, so rtp is 1 iff they are at most 60 s apart | not executed | Rtp.AsWrittenFlagsFreshRecord | Rtp.RtpSamples |
