# RFID reader protocol — a verified Dafny model

This project models the wire protocol core of a UHF RFID reader
application, together with the tag-presence table that the application
keeps:

- **Outbound commands** (`command.py`). The bit-serial reflected CRC-16
  uses polynomial `0x8408`, preset `0xFFFF` and no final XOR, and emits the
  low byte first. A `Command` lays out `[frame_length, address, opcode] ++ data`
  and is serialised with its CRC appended.
- **Inbound framing** (`transport.py`). `read_frame` reads one byte at a
  time into a buffer capped at 200 bytes. After every byte it scans the
  buffer from the left for a window of plausible length (5..50) that
  passes `_validate_frame`. It returns that window, or nothing on an empty
  read or a full buffer.
- **Response decoding** (`response.py`). `Response(...)` slices a frame
  into its fields and derives the inventory work mode for a reply to
  opcode `0x36`. `hex_readable` renders bytes as text.
- **The reader API** (`reader.py`):
  - the request builders of `work_mode`, `set_power`, `read_memory`,
    `lock`, `set_reader_power`, `get_work_mode` and `set_work_mode`;
  - the `(count, (len, bytes)*)` walk of `inventory_answer_mode`, with its
    status-`0x01` fallback;
  - `inventory_active_mode`.
- **The tag-presence table** (`shared_data.py`). It holds:
  - the active tags with their counts and first/last-seen times;
  - the mirrored web table;
  - the most-recent-first activity list;
  - the counters.

  `add_tag_detection` and `cleanup_old_tags` update it in place.
- **EPC suggestion** (`test_epc_generation.py`). `generate_suggested_epc`
  pads a short tag behind `E2 00`, cuts a long one, and re-spaces the
  result into at most twelve two-digit groups.

Two properties of the source are modelled as written:

- The length byte of an outgoing command counts one byte fewer than is
  sent (command.py:20). The scanner and the decoder treat the length byte
  as the whole frame size. `Responses.EncodedLengthMismatch` states what
  follows from this.
- No received checksum is ever compared with anything. The decoder only
  slices it out.

Module layout, one file per source file:

| file | module | source |
|---|---|---|
| `wrappers.dfy` | `Wrappers` | `Option` and `Result` |
| `bytes.dfy` | `Bytes` | `byte`, the range of a Python `bytearray` element |
| `slices.dfy` | `Slices` | Python slicing `s[a:b]` with negative and out-of-range bounds |
| `command.dfy` | `Commands` | command.py |
| `transport.dfy` | `Framing` | transport.py |
| `response.dfy` | `Responses` | response.py |
| `inventory.dfy` | `Inventory` | the payload walk of reader.py |
| `reader.dfy` | `Readers` | reader.py |
| `shared_data.dfy` | `SharedData` | shared_data.py |
| `epc.dfy` | `Epc` | test_epc_generation.py |

The link is an abstract byte source. `read_bytes(1)` returns the next
element of a `seq<Option<byte>>`. `None`, or the end of the sequence, is
an empty read (a timeout). The clock of `shared_data.py` is a parameter
`now` in integer microseconds.

## Model

| member | source | states |
|---|---|---|
| Commands.BitStep | command.py:5-7 | one shift of the CRC register keeps a 16-bit register within 16 bits |
| Commands.Register | command.py:3-7 | the register of `calculate_checksum`, starting from `0xFFFF`, always fits in 16 bits |
| Commands.LowHighBytes | command.py:8 | the two bytes emitted are the register's little-endian encoding |
| Commands.Checksum | command.py:8 | the checksum is exactly two bytes, low byte then high byte of the final 16-bit register |
| Commands.CrcFromAppend | command.py:4-7 | the CRC is a left fold: the register over `a ++ b` continues from the register reached after `a` |
| Commands.CrcFromSnoc | command.py:4-7 | one more data byte moves the register by exactly one xor-then-eight-shifts byte step |
| Commands.CalculateChecksum | command.py:1-8 | the nested byte/bit loop returns the checksum of the recursive definition |
| Commands.NewCommand | command.py:12-22 | the address defaults to `0xFF`; `None` data is empty and integer data one byte; `frame_length == 4 + len(data)`; construction fails exactly when `bytearray` would raise |
| Commands.SerializedLayout | command.py:20-28 | the frame is the header, the data, then the CRC of everything before it; it is `5 + len(data)` bytes, one more than the length byte declares |
| Commands.Serialize | command.py:24-28 | `serialize` returns `base_data` extended by its checksum, leaving `base_data` as it was |
| Commands.DefaultCommand | command.py:12-22 | a command with no arguments but the opcode is a 4-byte header sent as 5 bytes |
| Commands.ByteStepTrace | command.py:4-7 | a byte step equals the register read off after each of its eight bit steps |
| Commands.RegisterOfThree | command.py:4-7 | the register over a three-byte header is three byte steps from the preset |
| Commands.BroadcastPrefixSteps | command.py:4-7 | the register after `04` is `0x49A3` and after `04 FF` is `0x98A0` |
| Commands.OpcodeStep | command.py:4-7 | the opcode step reaches `0xF127` for `0x36` and `0xB41B` for `0x01` |
| Commands.HeaderOnlyFrame | command.py:20-28 | a header-only frame is its three header bytes followed by the low and high register bytes |
| Commands.WorkModeQueryBytes | archive/analyze_command_checksum.py:11-13 | `Command(0x36).serialize()` is `04 FF 36 27 F1`, as captured from the device (also archive/analyze_response.py:23) |
| Commands.InventoryCommandBytes | archive/raw_test.py:17-18 | `Command(0x01).serialize()` is `04 FF 01 1B B4` |
| Framing.ValidateFrame | transport.py:65-91 | a frame is accepted exactly when it has at least 5 bytes, its first byte is its length, its address byte is `0x00` and its opcode is one of `0x01 0x36 0x02 0x03`; the status test never rejects |
| Framing.FirstFrameFrom | transport.py:30-45 | a reported offset is at or after the start and holds an accepted window |
| Framing.FirstFrameSkips | transport.py:30-45 | every offset the scan passes over holds no accepted window |
| Framing.FirstFrameIsLeftmost | transport.py:30-53 | the leftmost accepted offset is the one reported |
| Framing.NoFrameFound | transport.py:30-58 | a buffer with no accepted offset yields no frame |
| Framing.Values | transport.py:23-27 | the bytes that gap-free reads delivered, one per read |
| Framing.AsReads | transport.py:23-27 | the gap-free reads that deliver given bytes |
| Framing.FrameInPrefix | transport.py:37-45 | an accepted window stays accepted, and the same, in every prefix of the buffer that still holds it |
| Framing.FrameReachesLastByte | transport.py:22-45 | a window that appears only with the last byte ends at that byte |
| Framing.FirstFrameEndsAtLastByte | transport.py:22-53 | since the scan runs after every byte, the first frame to appear ends at the byte just appended |
| Framing.ScanFromSound | transport.py:19-58 | every returned frame passes `_validate_frame` and is 5..50 bytes long; one call makes at most 200 reads |
| Framing.ValuesCons | transport.py:23-27 | a delivered byte in front of delivered bytes |
| Framing.FoundAtFirstRead | transport.py:23-53 | the read that completes a frame returns it after exactly that read |
| Framing.FoundAfterLaterReads | transport.py:22-53 | a read that completes no frame, followed by reads that find one, is still a finding read |
| Framing.ScanFrameSound | transport.py:22-53 | a returned frame comes after gap-free reads, and no earlier prefix of the buffer held an accepted window |
| Framing.ReadFrameIsTail | transport.py:18-53 | a returned frame is the tail of the bytes read in that call: it ends at the last byte read, so nothing after it is consumed, and it starts at the leftmost accepted offset |
| Framing.ScanNoFrame | transport.py:22-58 | a call that returns no frame either met an empty read or filled the 200-byte buffer |
| Framing.ScanFindsFirstFrame | transport.py:22-53 | noise tolerance: gap-free bytes whose last byte first completes a window make the call return that window and consume exactly those bytes |
| Framing.CleanFrameIsRead | transport.py:15-53 | a valid frame with no accepted window in any proper prefix is read back whole |
| Framing.NoPlausibleWindow | transport.py:37-41 | a buffer with no plausible length that fits has no accepted window |
| Framing.NoisyPrefixesHoldNoFrame | archive/parse_inventory.py:11-12 | the captured stream holds no accepted window before its twelfth byte |
| Framing.NoisyFrameAtOne | archive/parse_inventory.py:11-12 | with its twelfth byte the scan accepts the window after the noise byte |
| Framing.NoisyReads | archive/parse_inventory.py:11-12 | the first twelve reads of the stream deliver its first twelve bytes |
| Framing.NoisyInventoryReply | archive/parse_inventory.py:11-12 | `read_frame` on `67 0B 00 01 01 01 04 00 00 00 02 84 95` returns `0B 00 ... 02 84` and leaves `95` unread |
| Framing.Transport.constructor | transport.py:6-13 | a link starts with its read cursor at the beginning and nothing written |
| Framing.Transport.ReadBytes | transport.py:23-25 | `read_bytes(1)` returns the next element of the source and advances the cursor |
| Framing.Transport.WriteBytes | transport.py:11-13 | `write_bytes` hands its bytes to the link |
| Framing.Transport.ReadFrame | transport.py:15-63 | the imperative loop returns the frame and leaves the cursor where the scan specification says |
| Responses.WorkModeOf | response.py:78-82 | the enum bound at runtime has exactly the values 0..3 |
| Responses.WorkModeValueRoundTrip | response.py:78-82 | every enum member is found again from its value |
| Responses.WorkModeFrom | response.py:56-58 | a work mode is set only for opcode `0x36` with non-empty data; it is `ANSWER_MODE` exactly when `len(data) > 4` and `data[4] == 1`, and `ACTIVE_MODE` otherwise |
| Responses.ParseResponse | response.py:35-58 | decoding fails on `None` or fewer than 6 bytes, and on fewer bytes than the length byte declares; otherwise the fields are bytes 1, 2 and 3, the data is `bytes[4:length-2]` (empty for `length <= 6`) and the checksum is `bytes[length-2:length]` |
| Responses.ValidatedFrameDecodes | response.py:35-53 | a frame the scanner accepts decodes exactly when it has at least 6 bytes; then its data lies between the status byte and its last two bytes, which are its checksum |
| Responses.ReadFrameThenDecode | response.py:36-43 | what one `read_frame` returns fails to decode exactly when it is nothing or a five-byte frame |
| Responses.EncodedLengthMismatch | command.py:20 | a serialised command is never accepted by the scanner; decoding one with data takes the last data byte and the low CRC byte as its checksum |
| Responses.WorkModeReplyDecodes | archive/checksum_test.py:8-9 | the captured reply `11 00 36 ... 05 60` decodes to length 17, command `0x36`, status 0, eleven data bytes, checksum `05 60` and `ACTIVE_MODE` |
| Responses.HexDigitValue | response.py:10-13 | a recognised digit has a value below 16 |
| Responses.HexDigitRoundTrip | response.py:10-13 | an uppercase hexadecimal digit reads back to its value |
| Responses.HexByteRoundTrip | response.py:10-13 | the two digits of `f"{b:02X}"` read back to the byte |
| Responses.HexReadable | response.py:6-15 | `hex_readable` of `n` bytes is `3n - 1` characters long, and empty for no bytes |
| Responses.HexReadableRoundTrip | response.py:6-15 | `hex_readable` loses nothing: its text parses back to the same bytes |
| Responses.HexReadableShape | response.py:10-13 | every third character is the separating space and every other one is a digit |
| Inventory.StructuredTags | reader.py:70-84 | the status-`0x00` walk yields at most the declared count of tags |
| Inventory.TagsWithFallback | reader.py:97-119 | the status-`0x01` walk yields at most the bound it is given |
| Inventory.StructuredTagsLaidOut | reader.py:70-84 | each status-`0x00` tag is exactly its declared bytes, the entries lie one after another from the start of the data, and the walk stops short of the count only at an entry that overruns |
| Inventory.NonEmptyEntries | reader.py:97-111 | the structured entries of the status-`0x01` walk number at most the bound |
| Inventory.TagsWithFallbackShape | reader.py:97-119 | the status-`0x01` walk yields its non-empty entries laid out in order, stopping short of the bound only at the end of the data or at an entry that is empty or overruns; it then adds one fallback tag, everything from that entry on, length byte included, exactly when that entry fails with at least two bytes left |
| Inventory.ParseStructuredTags | reader.py:67-84 | the loop with its running offset yields the status-`0x00` walk |
| Inventory.ParseTagsWithFallback | reader.py:97-119 | the loop over `min(tag_count, 10)` entries yields the status-`0x01` walk |
| Inventory.ReplyTags | reader.py:60-134 | only statuses `0x00` and `0x01` yield tags; status `0x00` yields at most `data[0]` and status `0x01` at most 10 |
| Inventory.ReplyTagsDispatch | reader.py:60-134 | status `0x00` to opcode `0x01` with a non-zero count gives the structured walk, any other status-`0x00` reply nothing; status `0x01` with at least two data bytes gives the fallback walk bounded by `min(count, 10)` for a non-zero count and all data after the count as one tag for a zero count; fewer data bytes or any other status give nothing |
| Inventory.AnswerModeTags | reader.py:48-53 | tags are yielded only for a frame of at least 6 bytes that decodes; a missing or undecodable frame yields nothing |
| Inventory.ZeroCountYieldsNothing | reader.py:60-66 | a status-`0x00` reply with a zero tag count yields nothing |
| Inventory.TagReplyYieldsFallback | reader.py:88-117 | the frame `0B 00 01 01 01 04 00 00 00 01 1F` yields the single fallback tag `04 00 00 00` |
| Inventory.ShortEntryYieldsFallback | reader.py:104-117 | the same frame yields the same tag whatever its two checksum bytes are |
| Readers.Decoded | reader.py:53 | a reader result is a decoded response exactly when `Response(...)` succeeds |
| Readers.WorkModeOutcome | reader.py:25-29 | `work_mode` fails for want of a reply exactly when no frame, or an empty one, came back |
| Readers.SetPowerOutcome | reader.py:35-38 | `set_power` returns `None` exactly when no frame, or an empty one, came back |
| Readers.WorkModeQueryFails | reader.py:21-29 | the work-mode query fails exactly when `read_frame` finds nothing or returns a five-byte frame |
| Readers.OneByte | reader.py:31-33 | a one-byte payload exists exactly when the value is a byte |
| Readers.RequestWith | reader.py:31-33 | a request to address `0xFF` with that opcode and payload exists exactly when its length byte fits |
| Readers.InventoryRequest | reader.py:42-45 | the inventory request carries `[start, len]` only when both TID arguments are given, and is a bare 4-byte header otherwise |
| Readers.ReadMemoryPayload | reader.py:157-161 | the payload is `[len(epc) // 2] ++ epc ++ [bank, start, length] ++ password`, present exactly when each of the single values is a byte |
| Readers.LockPayload | reader.py:169 | the payload is `[len(epc) // 2] ++ epc ++ [select, set_protect] ++ password`, present exactly when each of the single values is a byte |
| Readers.ReadMemoryFrame | reader.py:155-164 | the bytes `read_memory` sends place each payload field right after the opcode `0x02` |
| Readers.LockFrame | reader.py:168-172 | the bytes `lock` sends place each payload field right after the opcode `0x06` |
| Readers.ActiveModeResponsesSound | reader.py:141-153 | active mode yields at most one response per read; each is the decoding of a frame the scanner accepted that is at least 6 bytes long |
| Readers.ActiveModeResponsesStep | reader.py:141-153 | each poll yields the decoding of the frame it read exactly when that frame is at least 6 bytes long, and nothing otherwise, before the later polls' responses |
| Readers.NoisyStreamYieldsTag | reader.py:48-117 | the captured noisy inventory stream, read and decoded, yields the one tag `04 00 00 00` |
| Readers.Reader.constructor | reader.py:9-10 | a reader is bound to its transport |
| Readers.Reader.Exchange | reader.py:15-19 | a request writes the serialised command and then reads one frame |
| Readers.Reader.WorkMode | reader.py:21-29 | `work_mode` sends `04 FF 36` with its CRC and returns the outcome of the frame read |
| Readers.Reader.SetPower | reader.py:31-38 | `set_power` sends nothing and fails when the power is not a byte; otherwise it sends a one-byte payload and returns the outcome of the frame read |
| Readers.Reader.Request | reader.py:160-164 | a request is sent only if it could be built, and its reply is decoded unconditionally |
| Readers.Reader.ReadMemory | reader.py:155-164 | `read_memory` sends its payload under opcode `0x02` and decodes the reply |
| Readers.Reader.Lock | reader.py:168-172 | `lock` sends its payload under opcode `0x06` and decodes the reply |
| Readers.Reader.SetReaderPower | reader.py:174-178 | a power outside 0..30 fails before anything is sent |
| Readers.Reader.GetWorkMode | reader.py:180-183 | `get_work_mode` sends the work-mode query and decodes the reply |
| Readers.Reader.SetWorkMode | reader.py:185-188 | `set_work_mode` sends a one-byte payload under opcode `0x35` and decodes the reply |
| Readers.Reader.InventoryAnswerMode | reader.py:40-139 | the generator's loops yield exactly the tags `AnswerModeTags` specifies for the frame read |
| Readers.Reader.InventoryActiveMode | reader.py:141-153 | over a number of reads, the frames that decode are yielded in order |
| SharedData.DisplayId | shared_data.py:78 | an id of at most 20 characters is shown whole; a longer one as its first 20 characters followed by `...` |
| SharedData.SignalMonotone | shared_data.py:95-100 | over the same time span, more detections never give a weaker signal label |
| SharedData.Excluding | shared_data.py:137-141 | an id remains exactly when it was listed and not removed |
| SharedData.ExcludingDistinct | shared_data.py:137-141 | removing ids keeps the rest distinct |
| SharedData.ExcludingNothing | shared_data.py:137 | removing nothing keeps the list |
| SharedData.ExcludingOneMore | shared_data.py:137-141 | removing one id after others is removing all of them at once |
| SharedData.AppendNew | shared_data.py:70 | a new tag joins the insertion order once |
| SharedData.StaleTags | shared_data.py:121-124 | no more ids are collected than visited |
| SharedData.StaleTagsExact | shared_data.py:121-124 | a tag is collected exactly when it is listed and inactive for longer than the interval |
| SharedData.StaleTagsDistinct | shared_data.py:121-124 | collected ids are distinct |
| SharedData.RemovalActivities | shared_data.py:126-134 | one removal activity per removed tag |
| SharedData.RemovalActivityAt | shared_data.py:126-134 | the newest activity announces the last removed tag: the `i`-th names the `i`-th removed from the end |
| SharedData.Take | shared_data.py:89 | `lst[:n]` is a prefix of at most `n` elements, the whole list when it is short enough |
| SharedData.ConnectionText | shared_data.py:45-48 | a given status text is kept; otherwise the text is `Connected` exactly when connected |
| SharedData.DetectionKeepsConsistent | shared_data.py:63-110 | a detection keeps both tables on the same tags, each web entry mirroring its tag's count and times |
| SharedData.RemovalKeepsConsistent | shared_data.py:137-141 | removal from both tables and the order keeps them consistent |
| SharedData.SharedRfidData.constructor | shared_data.py:16-36 | the dataclass defaults: disconnected, not scanning, empty tables, zero counters |
| SharedData.SharedRfidData.UpdateConnectionStatus | shared_data.py:41-48 | sets the flag and the status text, nothing else |
| SharedData.SharedRfidData.UpdateScanningStatus | shared_data.py:50-55 | sets the flag; the start time is taken only the first time scanning turns on |
| SharedData.SharedRfidData.UpdateScanStatistics | shared_data.py:145-148 | records the scan count |
| SharedData.SharedRfidData.AddTagDetection | shared_data.py:57-112 | a known tag gains one detection at `now` with its first-seen kept and no activity; a new tag gets count 1 and one `new_tag` activity in front, capped at 50; the web entry mirrors the tag; the total grows by one |
| SharedData.SharedRfidData.CleanupOldTags | shared_data.py:114-143 | removes exactly the stale tags from both tables, keeps the others, returns the removed ids in insertion order, and puts one removal activity per tag in front with no cap |
| SharedData.SharedRfidData.CollectStaleTags | shared_data.py:121-134 | the collecting loop gathers the stale tags in insertion order, announcing each at the front |
| SharedData.SharedRfidData.DeleteTags | shared_data.py:136-141 | the deletion loop drops each collected id from both tables |
| SharedData.SharedRfidData.GetStatistics | shared_data.py:174-183 | the active-tag count is the size of the table; counters and flags are copied |
| SharedData.SharedRfidData.GetWebData | shared_data.py:157-172 | the scan and detection totals, the active-tag count, the connection text and the scanning flag, a copy of the web table, and the newest activities: the first 20, or all of them when there are fewer |
| Epc.RemoveSpaces | test_epc_generation.py:8 | `replace(' ', '')` leaves no space and never lengthens |
| Epc.Repeat | test_epc_generation.py:13-14 | string repetition by zero or a negative count is empty |
| Epc.ChunkPairs | test_epc_generation.py:21 | every group is one or two characters |
| Epc.RemoveSpacesAppend | test_epc_generation.py:8 | dropping spaces distributes over concatenation |
| Epc.RemoveSpacesNone | test_epc_generation.py:20 | a string with no spaces is unchanged |
| Epc.JoinThenRemoveSpaces | test_epc_generation.py:20-21 | joining space-free groups and dropping the spaces gives their characters in order |
| Epc.ChunksSpaceFree | test_epc_generation.py:21 | groups cut from space-free text have no spaces |
| Epc.ChunkPairsCover | test_epc_generation.py:21 | the groups cover the kept characters, none twice and none left out |
| Epc.ChunkPairsFull | test_epc_generation.py:21 | every group but the last has two characters |
| Epc.ChunkCharacter | test_epc_generation.py:21 | each character of a group is the character at its place in the cut text |
| Epc.EpcDigits | test_epc_generation.py:20-21 | the suggestion's digits are the first `min(24, n)` digits of the intermediate string |
| Epc.JoinShape | test_epc_generation.py:21 | in a join of two-character groups every third character is the space |
| Epc.EpcShape | test_epc_generation.py:21 | the suggestion is two-character groups joined by single spaces |
| Epc.RepeatDigits | test_epc_generation.py:14 | the padding `' 00' * k` contributes `'00' * k` digits |
| Epc.PrefixDigits | test_epc_generation.py:14 | the prefix `E2 00 ` contributes the digits `E200` |
| Epc.ShortDigits | test_epc_generation.py:11-14 | a short tag's digits are `E200`, the tag's digits, then the padding's |
| Epc.ShortTagIsPadded | test_epc_generation.py:11-21 | a tag of fewer than 24 digits gives exactly 24 digits starting `E200` |
| Epc.HexDigits | test_epc_generation.py:8 | two digits per byte |
| Epc.Zeros | test_epc_generation.py:13-14 | zero padding bytes; none for a zero or negative count |
| Epc.SuggestedBytes | test_epc_generation.py:11-17 | the suggestion for a byte tag is always twelve bytes |
| Epc.PaddedBytes | test_epc_generation.py:13-14 | `E2 00`, the tag, then as many zero bytes as it is short of ten |
| Epc.HexDigitsAppend | test_epc_generation.py:8 | digits of a concatenation are the concatenated digits |
| Epc.HexDigitsAt | test_epc_generation.py:8 | the digits of byte `j` sit at positions `2j` and `2j + 1` |
| Epc.HexReadableDigits | test_epc_generation.py:8 | dropping the spaces of `hex_readable` text leaves two digits per byte |
| Epc.RepeatZeros | test_epc_generation.py:14 | `'00' * k` are the digits of `k` zero bytes |
| Epc.HexReadablePrefix | test_epc_generation.py:17 | cutting `hex_readable` text after `k` groups is the text of the first `k` bytes |
| Epc.ChunkPairsOfDigits | test_epc_generation.py:21 | regrouping the digits of bytes gives back each byte's pair |
| Epc.HexGroups | test_epc_generation.py:21 | one group per byte |
| Epc.JoinHexGroups | test_epc_generation.py:21 | joining the byte pairs is `hex_readable` |
| Epc.RegroupDigits | test_epc_generation.py:15-21 | regrouping the digits of twelve or more bytes gives the text of the first twelve |
| Epc.ShortReadableDigits | test_epc_generation.py:11-14 | a short tag's suggested digits are those of its padded bytes |
| Epc.ShortReadableParts | test_epc_generation.py:11-14 | the suggested digits of a short tag, part by part |
| Epc.PaddedBytesDigits | test_epc_generation.py:13-14 | the digits of the padded bytes, part by part |
| Epc.EpcOfReadableTag | test_epc_generation.py:6-23 | for a tag shown as `hex_readable(bs)` the suggestion is `hex_readable` of twelve bytes: `E2 00`, the tag and zero padding cut to twelve for a short tag, otherwise the tag's first twelve, so a spaced twelve-byte tag comes back unchanged |
| Epc.FourByteTagSuggestion | test_epc_generation.py:27 | `04 00 00 00` is suggested as `E2 00 04 00 00 00 00 00 00 00 00 00` |
| Epc.FourByteTagText | test_epc_generation.py:27 | the text of the four bytes `04 00 00 00` |
| Epc.FourByteTagBytes | test_epc_generation.py:13-14 | the bytes suggested for `04 00 00 00` |
| Epc.SuggestionText | test_epc_generation.py:21 | the text of the suggested twelve bytes |
| Epc.HexReadableAppend | test_epc_generation.py:14 | the text of two byte strings one after the other is their texts joined by a space |

## Left out

- The serial and TCP transports and their I/O are not part of this model. A read is an element of an abstract byte source.
- Debug `print`s and the console output are not modelled.
- An exception raised inside `read_bytes` is folded into an empty read. Both make `read_frame` return nothing.
- Threads and the lock around the shared table are not modelled: every operation is one sequential step.
- Times are integer microseconds passed as `now`. The `strftime` texts of the table become the raw times, and the messages of activities are represented by their display id.
- The floating-point scan rate and uptime of `update_scan_statistics` and `get_web_data` are not modelled.
- SharedData.Signal: the detection rate is compared with 2 and 0.5 exactly on integer microseconds, rather than in floating point.
- Generators (`inventory_answer_mode`, `inventory_active_mode`) are modelled by the list of everything they yield.
- Readers.Reader.InventoryActiveMode: the endless `while True` loop is bounded by a number of reads, `polls`.
- Readers.Reader.InventoryAnswerMode: the try/except that swallows any other exception is modelled only for the decoder's `ValueError`, the one the code can raise.
- The `int` and `str` branches of `hex_readable` (response.py:7-9) are not modelled: the model renders byte strings only.
- The sum checksum `calculate_checksum` of response.py:18-21 is never called and is not modelled.
- The first `WorkMode`/`InventoryWorkMode` enums (response.py:24-31) are shadowed by the later definition and are not modelled.
- The database, the web interface, the launchers and the archive scripts are not part of this model. Archive files are cited only for their captured byte strings.
- The three-argument call of `add_tag_detection` in main.py is not part of this model.
- SharedData.SharedRfidData.CleanupOldTags: the `if tag_id in ...` guards of the deletion loop are not modelled as separate branches. Deleting a missing key from a map is a no-op in the model.
- Commands.CalculateChecksum: the inner loop calls `BitStep` for the shift-and-xor of one bit instead of spelling it out inline.
