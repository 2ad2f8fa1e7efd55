# ESP8266 firmware: codecs, file system and protocol machines

Dafny models of the stateful parts of an ESP8266 web server firmware, with proofs of what those
parts promise.

- **Heatshrink codec** (`Bits`, `Lzss`, `MatchSearch`, `Greedy`, `KnownStreams`,
  `HeatshrinkEncoder`, `HeatshrinkDecoder`, `RoundTrip`): the incremental LZSS encoder and decoder as classes whose
  methods are the C state functions. `Lzss` and `Greedy` say what the format and the greedy parse
  are, independently of both. The encoder's output depends on its input alone, the decoder's output
  is at all times a prefix of the batch decoding, and under every schedule of calls the bytes out
  are the bytes in.
- **Read-only file system** (`EspfsImage`, `Espfs`): the image tool and the reader on top of the
  codec, up to one end-to-end method.
- **FAT volume** (`FatTable`, `FatChains`, `FatClusters`, `FatAlloc`, `FatRun`, `FatFile`): the
  linked list of write-back sector buffers in front of a medium that may fail; the chains in the
  table as a heap, kept disjoint, acyclic and terminated over every run of creating, growing,
  appending to and removing files; and files, several at once, read and written through a dirty
  sector buffer and a remembered cluster lookup, up to a write, close, mount and read. Entries may be
  in use by no file, as those of bad clusters are. A volume has as many clusters as its layout says;
  the FAT may have more entries than that, and the medium need not hold them.
  `LongNames` is the round trip of long file names through directory entries.
- **MQTT** (`MqttQueue`, `MqttMessage`): the ring buffer with escaped frames as a FIFO of packets,
  the publishing loop that drops the oldest, and building, parsing and receiving PUBLISH packets.
- **Firmware upload** (`OtaUpload`) and **WebSocket receiver** (`WebSocket`): two machines fed with
  chunks of any size, whose results do not depend on the chunks.

A class keeps ghost fields for what has gone in and out since it was made (`sunk`, `emitted`,
`packets`, `logical`, `body`, `messages`), and its invariant ties them to the registers. Every
method keeps the invariant, so a lemma about a valid object speaks about every sequence of calls.

Findings along the way, each stated by a member below: with 15 window bits the encoder's index end
wraps to 0 on a full buffer (`HeatshrinkEncoder.IndexEndExact`); seeking gives up unwritten data in
the sector buffer (`FatFile.File.Seek`, `FatFile.WriteSeekRead`); a write on a full volume reports
success (`FatFile.WriteAndClose`); a forward seek and the limit of a read wrap at 32 bits
(`FatFile.SeekForward` and `FatFile.SeekWraps`, `FatFile.ReadLimitExact` and `FatFile.ReadRunsOver`);
the search for a free cluster starts at the FSInfo hint whatever that is, because of an empty
statement after the range check at `fat/fat_table.c:354` (`FatClusters.FindBlankCluster`,
`FatClusters.HintTooHigh`); the search does not stop at the last cluster of the volume
(`FatAlloc.AddFreeSpace`, `FatAlloc.StrayEntry`); the free count compares 32 bits where the allocator
compares 28 (`FatAlloc.CountExact`, `FatAlloc.StrayBits`); a frame of 65535 bytes reads as a failure
although it is in the ring (`MqttQueue.PutsFails`, `MqttQueue.LongFrame`); the two-byte MQTT length
form is used beyond what it can express (`MqttMessage.LengthFieldExact`); the identifier of a packet
without payload cannot be read when the buffer ends with it (`MqttMessage.IdBack`); an unmasked ping
is answered with its payload combined with the key of the frame before it (`WebSocket.UnmaskedFrame`,
`WebSocket.StaleKey`).

Functions that a model and its specification share are tied down on their own, in bytes, bits or
numbers: `KnownStreams.FiveCompressed`, `EspfsImage.HeaderBytes`, `MqttQueue.FrameBytes`,
`MqttMessage.WireFormat` and `MqttMessage.ReplyBytes`, `FatClusters.LinkBytes`,
`FatFile.BytesOnDisk`, `LongNames.EntryOfTwo`, `OtaUpload.PlanIs`, `WebSocket.WireReceived`.

## Model

| member | source | states |
|---|---|---|
| `Lzss.ParseOfTokens` | libesphttpd/lib/heatshrink/heatshrink_decoder.c:186-260 | reading tokens from the bits of any token list gives that list and then whatever the bits behind it hold: tokens are self-delimiting |
| `Lzss.TokensOfParse` | libesphttpd/lib/heatshrink/heatshrink_decoder.c:186-260 | conversely every bit string is the bits of the tokens read from it, followed by less than one token |
| `Lzss.PaddingIsSilent` | libesphttpd/lib/heatshrink/heatshrink_decoder.c:337-361 | the up to 7 zero bits that fill the last byte never read as a token |
| `Lzss.DecodeOfTokens` | libesphttpd/lib/heatshrink/heatshrink_decoder.c:135-184 | batch decoding of a packed token list is the expansion of that list over a zeroed window |
| `Lzss.ZeroStart` | libesphttpd/lib/heatshrink/heatshrink_decoder.c:80-84 | a back-reference at the start of a stream gives zeros, whatever its distance and length |
| `Lzss.CopyAt` | libesphttpd/lib/heatshrink/heatshrink_decoder.c:262-286 | byte `i` of a copied run is the byte one distance back, also when the run overlaps itself |
| `Lzss.CopyIsRepeat` | libesphttpd/lib/heatshrink/heatshrink_decoder.c:262-286 | bytes that repeat with a period are exactly what a back-reference of that distance copies |
| `MatchSearch.ScanIsLongestMostRecent` | libesphttpd/lib/heatshrink/heatshrink_encoder.c:489-507 | the linear scan's result repeats the input there, no candidate is longer, and of the longest it is the most recent |
| `MatchSearch.FindByScan` | libesphttpd/lib/heatshrink/heatshrink_encoder.c:489-507 | the linear search loop computes the scan |
| `MatchSearch.DoIndexing` | libesphttpd/lib/heatshrink/heatshrink_encoder.c:402-439 | entry `i` of the index is the last earlier position of the same byte, or -1 exactly when there is none |
| `MatchSearch.FindByIndex` | libesphttpd/lib/heatshrink/heatshrink_encoder.c:462-488 | the indexed search, following the strictly falling chain, returns position and length of the linear scan |
| `MatchSearch.ScanShift` | libesphttpd/lib/heatshrink/heatshrink_encoder.c:586-604 | the scan's result moves with the window: it depends on the bytes, not on where the buffer holds them |
| `MatchSearch.CommonLength` | libesphttpd/lib/heatshrink/heatshrink_encoder.c:478-480 | the inner comparison loop stops at the first difference or at the limit |
| `Greedy.ChooseStable` | libesphttpd/lib/heatshrink/heatshrink_encoder.c:260-301 | the token chosen at a position does not change when more input arrives, once a full lookahead is there |
| `Greedy.ChooseIsBest` | libesphttpd/lib/heatshrink/heatshrink_encoder.c:509-526 | a back-reference is chosen if and only if one takes fewer bits than the bytes it stands for; against every candidate it is then at least as long, and longer than any nearer one |
| `Greedy.FollowsExpands` | libesphttpd/lib/heatshrink/heatshrink_encoder.c:260-301 | tokens chosen greedily expand to the input they cover, every back-reference with a distance in the window and a length in the lookahead |
| `Greedy.FollowsIsGreedy` | libesphttpd/lib/heatshrink/heatshrink_encoder.c:260-301 | any run of the search that keeps the lookahead margin takes the tokens of the one greedy parse |
| `Greedy.DecodeCompress` | libesphttpd/lib/heatshrink/heatshrink_encoder.c:137-258 | decoding the compressed input gives the input, for all bytes, window bits and lookahead bits |
| `Greedy.ExpansionBound` | libesphttpd/lib/heatshrink/test_heatshrink_dynamic_theft.c:492-519 | compressed size is at most 9/8 of the input, rounded up to a byte |
| `KnownStreams.FiveCompressed` | libesphttpd/lib/heatshrink/test_heatshrink_dynamic.c:147-180 | five letters a with 8 window and 7 lookahead bits are the stream B0 80 01 80, compressed and decompressed: field order, bit order, and both fields one less than their value |
| `HeatshrinkEncoder.IndexEndExact` | libesphttpd/lib/heatshrink/heatshrink_encoder.c:427-430 | the 16-bit end of the index is exact if and only if the window has at most 14 bits or the buffer is not full; with 15 bits and a full buffer it is 0 |
| `HeatshrinkEncoder.Encoder.constructor` | libesphttpd/lib/heatshrink/heatshrink_encoder.c:70-135 | an encoder starts empty over a zeroed window |
| `HeatshrinkEncoder.Encoder.Sink` | libesphttpd/lib/heatshrink/heatshrink_encoder.c:137-166 | misuse exactly while finishing or not accepting input; else takes what fits, in order, and is filled exactly when the buffer is |
| `HeatshrinkEncoder.Encoder.Finish` | libesphttpd/lib/heatshrink/heatshrink_encoder.c:252-258 | DONE exactly in the done state; a partly filled buffer goes on to the search |
| `HeatshrinkEncoder.Encoder.Poll` | libesphttpd/lib/heatshrink/heatshrink_encoder.c:190-250 | appends its output to what was emitted and keeps the invariant; MORE only with a full output buffer; EMPTY from the flush state only when the last byte had no room |
| `HeatshrinkEncoder.Encoder.Step` | libesphttpd/lib/heatshrink/heatshrink_encoder.c:200-248 | each turn of the poll loop keeps the account of tokens, bits and bytes, and lowers the rank that ends the loop |
| `HeatshrinkEncoder.Encoder.StStepSearch` | libesphttpd/lib/heatshrink/heatshrink_encoder.c:260-301 | searches only with a whole lookahead left unless finishing, and takes the greedy token |
| `HeatshrinkEncoder.Encoder.FindLongestMatch` | libesphttpd/lib/heatshrink/heatshrink_encoder.c:451-526 | gives the longest most recent match if and only if it saves bits over literals |
| `HeatshrinkEncoder.Encoder.PushBits` | libesphttpd/lib/heatshrink/heatshrink_encoder.c:549-575 | puts exactly the asked bits behind those sent, and at most one byte goes out |
| `HeatshrinkEncoder.Encoder.PushOutgoingBits` | libesphttpd/lib/heatshrink/heatshrink_encoder.c:528-545 | sends the high bits of a field first, at most 8 at a time |
| `HeatshrinkEncoder.Encoder.StYieldTagBit` | libesphttpd/lib/heatshrink/heatshrink_encoder.c:303-318 | sends the tag of the token owed and goes on to its fields |
| `HeatshrinkEncoder.Encoder.StYieldLiteral` | libesphttpd/lib/heatshrink/heatshrink_encoder.c:320-328 | sends the literal owed |
| `HeatshrinkEncoder.Encoder.StYieldBrIndex` | libesphttpd/lib/heatshrink/heatshrink_encoder.c:330-344 | sends the distance field, then owes the length field |
| `HeatshrinkEncoder.Encoder.StYieldBrLength` | libesphttpd/lib/heatshrink/heatshrink_encoder.c:346-360 | sends the length field and moves past the match |
| `HeatshrinkEncoder.Encoder.StFlushBitBuffer` | libesphttpd/lib/heatshrink/heatshrink_encoder.c:368-381 | done exactly when the padded last byte is out: then the output is the compressed input |
| `HeatshrinkEncoder.Encoder.StSaveBacklog` | libesphttpd/lib/heatshrink/heatshrink_encoder.c:362-366 | after the move the buffer again holds the last window of processed bytes and then the unprocessed ones |
| `HeatshrinkEncoder.Encoder.ShiftBuffer` | libesphttpd/lib/heatshrink/heatshrink_encoder.c:586-604 | the memmove keeps the tail of the zero-padded input |
| `HeatshrinkEncoder.Encoder.StFilled` | libesphttpd/lib/heatshrink/heatshrink_encoder.c:190-206 | builds the index of the whole buffer before the search |
| `HeatshrinkEncoder.EmittedIsCompressed` | libesphttpd/lib/heatshrink/heatshrink_encoder.c:137-258 | whatever the sink and poll calls were, a done encoder has emitted the compression of its input: decodable, and within the bound |
| `HeatshrinkEncoder.EmittedAtMost` | libesphttpd/lib/heatshrink/test_heatshrink_dynamic_theft.c:492-519 | at every moment of every run the output is at most 9/8 of the input so far, rounded up to a byte |
| `HeatshrinkDecoder.Decoder.Alloc` | libesphttpd/lib/heatshrink/heatshrink_decoder.c:49-70 | no decoder for parameters out of range or an empty input buffer; else one in its start state |
| `HeatshrinkDecoder.Decoder.Sink` | libesphttpd/lib/heatshrink/heatshrink_decoder.c:95-114 | takes what fits, in order, and says FULL exactly when there is no room |
| `HeatshrinkDecoder.Decoder.GetBits` | libesphttpd/lib/heatshrink/heatshrink_decoder.c:290-335 | all or nothing: the next bits as a number, or nothing consumed when too few are buffered |
| `HeatshrinkDecoder.Decoder.TakeBit` | libesphttpd/lib/heatshrink/heatshrink_decoder.c:301-330 | takes the next bit of the input, pulling in the next byte when one is used up |
| `HeatshrinkDecoder.WindowPush` | libesphttpd/lib/heatshrink/heatshrink_decoder.c:200-218 | writing at the masked 16-bit head keeps the window equal to the end of the history |
| `HeatshrinkDecoder.HeadStep` | libesphttpd/lib/heatshrink/heatshrink_decoder.c:200-218 | the wrapping 16-bit head stays exact because the window size divides 65536 |
| `HeatshrinkDecoder.Decoder.StTagBit` | libesphttpd/lib/heatshrink/heatshrink_decoder.c:186-198 | the tag decides between a literal and a back-reference |
| `HeatshrinkDecoder.Decoder.StBackrefIndexMsb` | libesphttpd/lib/heatshrink/heatshrink_decoder.c:220-228 | reads the bits of the distance above the low byte |
| `HeatshrinkDecoder.Decoder.StBackrefIndexLsb` | libesphttpd/lib/heatshrink/heatshrink_decoder.c:230-240 | completes the distance |
| `HeatshrinkDecoder.Decoder.StBackrefCountMsb` | libesphttpd/lib/heatshrink/heatshrink_decoder.c:242-250 | reads the bits of the length above the low byte |
| `HeatshrinkDecoder.Decoder.StBackrefCountLsb` | libesphttpd/lib/heatshrink/heatshrink_decoder.c:252-260 | completes the length |
| `HeatshrinkDecoder.Decoder.StYieldLiteral` | libesphttpd/lib/heatshrink/heatshrink_decoder.c:200-218 | puts the literal into the output and the window |
| `HeatshrinkDecoder.Decoder.StYieldBackref` | libesphttpd/lib/heatshrink/heatshrink_decoder.c:262-286 | copies as much of the run as there is room for, and keeps the rest pending |
| `HeatshrinkDecoder.AccountField` | libesphttpd/lib/heatshrink/heatshrink_decoder.c:186-260 | reading one field keeps the account: the input is the tokens done, the part of one read, and the bits left |
| `HeatshrinkDecoder.Decoder.Poll` | libesphttpd/lib/heatshrink/heatshrink_decoder.c:135-184 | output is appended in order; MORE exactly when the output buffer is full; EMPTY means the input is drained and everything decodable is out |
| `HeatshrinkDecoder.Decoder.Finish` | libesphttpd/lib/heatshrink/heatshrink_decoder.c:337-361 | DONE exactly with no input left and no copy pending |
| `HeatshrinkDecoder.EmittedIsPrefix` | libesphttpd/lib/heatshrink/heatshrink_decoder.c:135-286 | whatever the calls were, the output is a prefix of the batch decoding of the input, and all of it once drained |
| `RoundTrip.DecodePrefix` | libesphttpd/lib/heatshrink/heatshrink_decoder.c:135-286 | decoding a prefix gives a prefix |
| `RoundTrip.EmittedDecodes` | libesphttpd/lib/heatshrink/heatshrink_encoder.c:190-250 | at every moment what the encoder has emitted decodes to a prefix of its input |
| `RoundTrip.StreamSafety` | libesphttpd/lib/heatshrink/heatshrink_encoder.c:137-258 | at every moment of any interleaving, the bytes out of the decoder are a prefix of the bytes into the encoder |
| `RoundTrip.RoundTrip` | libesphttpd/lib/heatshrink/heatshrink_decoder.c:95-361 | a done encoder and a drained decoder that got its output: the bytes out are exactly the bytes in |
| `RoundTrip.DrainEncoder` | libesphttpd/lib/heatshrink/heatshrink.c:245-303 | polling, and calling `finish` when nothing comes, ends in DONE from any state and with any buffer size, and then all of the compressed input is out |
| `RoundTrip.DrainDecoder` | libesphttpd/lib/heatshrink/heatshrink.c:332-340 | polling until EMPTY ends, with any buffer size, and then `finish` says DONE |
| `EspfsImage.CompressHeatshrink` | libesphttpd/espfs/mkespfsimage/main.c:52-95 | the sink and poll loop produces the parameter byte and the compressed stream, or more bytes than the file has |
| `EspfsImage.PackedParams` | libesphttpd/espfs/mkespfsimage/main.c:68-70 | a compressed payload is one byte, window bits in the upper half and lookahead bits in the lower, and the compressed stream |
| `EspfsImage.ChooseStorage` | libesphttpd/espfs/mkespfsimage/main.c:206-225 | a file is stored unless compressing does not make it larger |
| `EspfsImage.HandleFile` | libesphttpd/espfs/mkespfsimage/main.c:183-265 | appends a header, the padded name and the padded payload; an unknown compression is refused |
| `EspfsImage.HeaderBytes` | libesphttpd/espfs/espfsformat.h:24-31 | the 16 header bytes: "ESfs", flags, compression, and the three lengths low byte first |
| `EspfsImage.EntryLayout` | libesphttpd/espfs/mkespfsimage/main.c:237-248 | an entry byte by byte: header, name, at least one zero up to a multiple of four, payload, zeros likewise |
| `EspfsImage.BuildImage` | libesphttpd/espfs/mkespfsimage/main.c:183-277 | the image is the entries in order and a closing header |
| `EspfsImage.EntryAt` | libesphttpd/espfs/mkespfsimage/main.c:237-248 | entry `k` lies in the image where the sizes of those before it say, and every entry starts 4-aligned |
| `EspfsImage.LevelParams` | libesphttpd/espfs/mkespfsimage/main.c:61-63 | every level gives valid encoder parameters with at most 13 window bits |
| `EspfsImage.LevelTable` | libesphttpd/espfs/mkespfsimage/main.c:56-62 | the parameters of each level, and of the default, as numbers |
| `Espfs.Init` | libesphttpd/espfs/espfs.c:77-96 | misaligned addresses are refused; else an image is recognised exactly by its first word, and every image the tool writes is |
| `Espfs.StripSlashes` | libesphttpd/espfs/espfs.c:138-139 | what is searched for is the one name that is left behind the slashes the request begins with |
| `Espfs.Open` | libesphttpd/espfs/espfs.c:128-195 | nothing exactly when no entry has the name behind the slashes of the request, any number of them; else the first entry that has it, at its start |
| `Espfs.Visit` | libesphttpd/espfs/espfs.c:141-193 | one turn of the walk: stops at the closing header, opens a match, else steps to the next entry |
| `Espfs.StrEqualIs` | libesphttpd/espfs/espfs.c:156-159 | comparing the 256 bytes read for a name is comparing names |
| `Espfs.WalkStep` | libesphttpd/espfs/espfs.c:191-193 | the walk's next address is that of the next entry |
| `Espfs.ParseOfHeader` | libesphttpd/espfs/mkespfsimage/main.c:227-237 | the header written is the header read |
| `Espfs.ParseBytes` | libesphttpd/espfs/espfs.c:141-144 | the header fields as the bytes they are read from, low byte first |
| `Espfs.EspFsFile.Read` | libesphttpd/espfs/espfs.c:198-263 | returns the next bytes of the original file, as many as asked or left, stored or compressed |
| `Espfs.EspFsFile.ReadStored` | libesphttpd/espfs/espfs.c:208-217 | the same for stored files |
| `Espfs.EspFsFile.ReadHeatshrink` | libesphttpd/espfs/espfs.c:219-259 | the same for compressed files: input fed in pieces of at most 16 bytes, decoder drained in between |
| `Espfs.Fetch` | libesphttpd/espfs/espfs.c:128-263 | opening by name, behind any slashes, and reading in any sizes gives the file's bytes up to their sum |
| `Espfs.StoreAndFetch` | libesphttpd/espfs/mkespfsimage/main.c:183-277 | an image of any files, any compression and level, flashed at any aligned address, gives back the first file of the name behind the slashes of a request |
| `MqttQueue.RingBuf.Put` | mqtt/ringbuf.c:32-46 | appends unless full, in which case nothing changes |
| `MqttQueue.RingBuf.Get` | mqtt/ringbuf.c:53-67 | removes the oldest byte; fails exactly when empty |
| `MqttQueue.RingBuf.Restore` | mqtt/queue.c:47-63 | putting pointers and count back undoes the bytes put since |
| `MqttQueue.AddRb` | mqtt/proto.c:106-128 | puts the frame of a packet of any 16-bit length into the ring, byte by byte; without room a prefix of it is in and -1 comes back, else its length as a signed 16-bit number |
| `MqttQueue.EscapeBytes` | mqtt/proto.c:111-123 | 7D, 7E and 7F go as 7D and the byte with bit 5 turned over, every other byte as it is |
| `MqttQueue.FrameBytes` | mqtt/proto.c:106-128 | a frame is 7E, the escaped bytes in order, and 7F; one frame given byte by byte |
| `MqttQueue.Parser.ParseByte` | mqtt/proto.c:13-47 | one step of the parser's state, done exactly at the end mark |
| `MqttQueue.RunFrame` | mqtt/proto.c:13-47 | parsing the frame of any bytes gives those bytes, cut to the buffer, whatever the parser held before |
| `MqttQueue.EscapedHasNoEnd` | mqtt/proto.c:106-128 | no end mark occurs inside a frame |
| `MqttQueue.ParseRb` | mqtt/proto.c:56-69 | takes exactly the first frame out of the ring and undoes it |
| `MqttQueue.Queue.constructor` | mqtt/queue.c:42-46 | starts empty |
| `MqttQueue.Queue.Puts` | mqtt/queue.c:47-63 | appends a packet, or leaves the queue as it was when -1 comes back: without room for the frame, or when its length reads as -1 |
| `MqttQueue.PutsFails` | mqtt/queue.c:47-63 | putting fails if and only if the frame does not fit or its length, as a signed 16-bit result, reads as the failure mark: 65535 beyond whole turns of 65536 |
| `MqttQueue.LongFrame` | mqtt/proto.c:106-128 | a packet of 32766 bytes that are escaped and one that is not has a frame of 65535 bytes |
| `MqttQueue.Queue.Gets` | mqtt/queue.c:64-68 | removes the oldest packet, cut to the buffer; fails exactly when empty, for either start of the parser's flag |
| `MqttQueue.Queue.IsEmpty` | mqtt/queue.c:70-75 | true exactly with no packet queued |
| `MqttQueue.Queue.Publish` | mqtt/mqtt.c:600-606 | drops as few of the oldest packets as make room; fails exactly for a frame larger than the ring, or one whose length reads as the failure mark, and then the queue is empty |
| `MqttMessage.ReadLength` | mqtt/mqtt_msg.c:135-152 | the loop over the length field finds its end and the length of the packet |
| `MqttMessage.ScanLength` | mqtt/mqtt_msg.c:105-126 | both length forms are read back exactly up to 16383 |
| `MqttMessage.LengthFieldExact` | mqtt/mqtt_msg.c:109-116 | the two-byte form expresses a remaining length if and only if it is at most 16383 |
| `MqttMessage.HeadBits` | mqtt/mqtt_msg.c:109-121 | the first byte bit by bit: kind in the upper half, duplicate flag in bit 3, quality of service in bits 2 and 1, retain flag in bit 0 |
| `MqttMessage.WireFormat` | mqtt/mqtt_msg.c:377-401 | every byte of a PUBLISH packet: first byte, length, topic length high byte first, topic, identifier just when there is a quality of service, payload |
| `MqttMessage.ParsesBack` | mqtt/mqtt_msg.c:135-227 | total length, quality of service, topic and payload of a packet come back, whatever follows it |
| `MqttMessage.IdBack` | mqtt/mqtt_msg.c:229-268 | the identifier comes back if and only if the buffer goes on for a byte behind it; 0 otherwise |
| `MqttMessage.Connection.Append` | mqtt/mqtt_msg.c:395-398 | appends in place, or nothing when it does not fit |
| `MqttMessage.Connection.AppendString` | mqtt/mqtt_msg.c:63-74 | length and bytes appended exactly when both fit |
| `MqttMessage.Connection.AppendMessageId` | mqtt/mqtt_msg.c:76-90 | uses the identifier given, or the next of a 16-bit counter that skips 0; 0 when it does not fit |
| `MqttMessage.NextIds` | mqtt/mqtt_msg.c:79-82 | the identifier after 65535 is 1 |
| `MqttMessage.Connection.Finish` | mqtt/mqtt_msg.c:105-126 | header in front of the body, in two or three bytes |
| `MqttMessage.Connection.Publish` | mqtt/mqtt_msg.c:377-401 | builds the encoding of the packet; empty exactly without a topic or when it does not fit |
| `MqttMessage.Connection.Acknowledge` | mqtt/mqtt_msg.c:403-433 | builds the packets that carry only an identifier, the next one of the counter when 0 is given; an empty message exactly without room |
| `MqttMessage.AckBytes` | mqtt/mqtt_msg.c:403-433 | the four packets that carry only an identifier, byte by byte, and that their kind and identifier are read back |
| `MqttMessage.Client.Publish` | mqtt/mqtt.c:587-609 | what can be built is queued behind as few drops as needed; only a frame larger than the ring fails, and that empties the queue; what cannot be built changes nothing |
| `MqttMessage.Client.AnswerOther` | mqtt/mqtt.c:372-403 | PUBREC, PUBREL and PINGREQ get their answer, with the identifier they bring; other kinds get none |
| `MqttMessage.ReplyBytes` | mqtt/mqtt.c:372-412 | the reply to a packet in bytes, for every kind, quality of service and identifier: 40 or 50 for a PUBLISH, 62 for a PUBREC, 70 for a PUBREL, D0 00 for a PINGREQ, none for the rest |
| `MqttMessage.Handshake` | mqtt/mqtt.c:372-412 | the replies given back to where they came from: quality of service 1 ends with one packet of kind 4, 2 with kinds 5, 6 and 7, each with the identifier of the packet, and nothing follows |
| `MqttMessage.OfferedAll` | mqtt/mqtt.c:393-403 | when all messages fit, all are queued, in order |
| `MqttMessage.Client.ReceiveOne` | mqtt/mqtt.c:303-419 | one PUBLISH is delivered with its topic and payload and answered by its quality of service; another packet gets the answer for its kind, with the identifier read from it, or, when it is too short to bring one, from what the packets before left behind it in the buffer |
| `MqttMessage.Client.Receive` | mqtt/mqtt.c:289-445 | a chunk of PUBLISH packets and at most one other packet: each PUBLISH delivered once, in order; the queue is offered exactly their answers and then that to the last packet, with the identifier the buffer then shows; the chunk length ends the loop |
| `MqttMessage.Exchange` | mqtt/mqtt.c:289-445 | two clients, one PUBLISH and all replies carried to and fro: it is delivered once, and exactly these bytes pass for quality of service 0, 1 and 2 before both fall silent |
| `FatTable.Fatfs.constructor` | fat/fat_table.c:65-84 | starts with a list of empty buffers over what the medium holds |
| `FatTable.Fatfs.Lookup` | fat/fat_table.c:120-164 | finds the buffer of a sector, else moves the last one to the front; every buffer stays in the list once |
| `FatTable.Fatfs.Unlink` | fat/fat_table.c:137-146 | takes the last buffer off the list |
| `FatTable.Fatfs.PutFirst` | fat/fat_table.c:159-164 | links it in at the front |
| `FatTable.Fatfs.Writeback` | fat/fat_table.c:88-116 | a buffer is clean exactly when its write worked; what callers see is unchanged |
| `FatTable.Fatfs.Fill` | fat/fat_table.c:171-192 | points a clean buffer at a sector; a failed read leaves it pointing at none |
| `FatTable.Fatfs.ReadSector` | fat/fat_table.c:120-193 | the sector callers last set, through evictions and failures; failures change nothing callers can see |
| `FatTable.Fatfs.Purge` | fat/fat_table.c:197-213 | after a success the medium is what callers see, and nothing is dirty |
| `FatTable.Fatfs.SetWord` | fat/fat_table.c:58-58 | sets one word of one sector and nothing else |
| `FatTable.Fatfs.SetNextFreeCluster` | fat/fat_table.c:287-332 | the FSInfo word is written through or, when that fails, stays; no other sector changes |
| `FatTable.Fatfs.WriteThrough` | fat/fat_table.c:306-330 | changes the sector on the medium or not at all, and gives the buffer up |
| `FatTable.Fatfs.ReadData` | fat/fat_access.c:298-302 | data sectors read as callers last wrote them |
| `FatTable.Fatfs.WriteData` | fat/fat_access.c:306-311 | writes a run of data sectors and leaves the FAT and the FSInfo sector alone |
| `FatTable.TableOfSet` | fat/fat_table.c:462-469 | setting a word of a sector sets one entry of the table |
| `FatTable.TableEntry` | fat/include/fat_misc.h:16-16 | an entry is four bytes of a sector, low byte first, 128 entries a sector |
| `FatChains.ReachesChain` | fat/fat_table.c:478-496 | what the first cluster of a chain reaches is the chain |
| `FatChains.FreeKeepsHeap` | fat/fat_table.c:478-496 | freeing one chain keeps the others disjoint, acyclic and terminated, and returns exactly its clusters |
| `FatChains.ExtendKeepsHeap` | fat/fat_table.c:503-529 | linking a free cluster behind a chain keeps all chains sound and takes just that cluster |
| `FatChains.AllocateKeepsHeap` | fat/fat_write.c:120-133 | starting a chain on a free cluster keeps all chains sound and takes just that cluster |
| `FatChains.HeapInRange` | fat/fat_table.c:223-283 | following links from the first cluster of a sound chain never leads out of the table, which is what freeing it needs |
| `FatChains.FreeInTake` | fat/fat_write.c:67-90 | taking the first free cluster the search finds leaves the rest of the free ones, in order |
| `FatChains.FreeInHas` | fat/fat_table.c:337-431 | the clusters a search from a place on can find are exactly the free ones from there on |
| `FatChains.FreeInSorted` | fat/fat_table.c:337-431 | and they come lowest first, each once |
| `FatChains.CountIs` | fat/fat_table.c:534-569 | the count is the number of entries of the kind |
| `FatClusters.LinkBytes` | fat/fat_table.c:223-283 | the link of a cluster from four bytes of its FAT sector: low byte first, the upper half of the last byte ignored, from 0FFFFFF8 on the end of the chain |
| `FatClusters.FindNextCluster` | fat/fat_table.c:223-283 | the 28-bit link, given by the four bytes of the FAT sector; cluster 0 meaning the root, end marks and failed reads reading as the end |
| `FatClusters.SetCluster` | fat/fat_table.c:438-472 | sets the four bytes of one entry, low byte first, and no other byte of any sector, or nothing on failure |
| `FatClusters.HintBytes` | fat/fat_table.c:345-353 | the hint is bytes 492 to 495 of the FSInfo sector |
| `FatClusters.FindBlankCluster` | fat/fat_table.c:337-431 | an entry with a zero link, all between the start and it in use, for any hint; on a working medium found exactly when there is one from there on |
| `FatClusters.HintTooHigh` | fat/fat_table.c:345-358 | a table whose only free cluster is 2: a search from a hint of 3 finds nothing, one from 2 finds it |
| `FatClusters.CountFreeClusters` | fat/fat_table.c:534-569 | the number of words zero in all 32 bits, over the sectors up to the first unreadable one |
| `FatClusters.FreeClusterChain` | fat/fat_table.c:478-496 | ends whenever the links met are in range, cyclic or merged too, and zeroes exactly what the start reaches |
| `FatClusters.FreeChain` | fat/fat_table.c:478-496 | from the first cluster of a chain: the chain is gone, the rest sound, the count up by its length |
| `FatClusters.AddClusterToChain` | fat/fat_table.c:503-529 | appends at the end of the links followed; fails exactly at a zero link or an end mark for a start, changing nothing |
| `FatAlloc.AddFreeSpace` | fat/fat_write.c:47-92 | takes exactly the first free clusters from the search start on; other chains and entries stay; the free count falls by the words that were zero; the first ones are clusters of the volume as long as it has any left, all behind those are entries past its end; fails only when no more are found |
| `FatAlloc.AllZero` | fat/fat_table.c:534-569 | the free count falls by exactly the clusters taken if and only if none of their entries has a bit set outside the link |
| `FatAlloc.CountExact` | fat/fat_table.c:534-569 | it does so for every number of clusters asked for if and only if no free entry from the search start on has one of the bits 28 to 31 set |
| `FatAlloc.StrayBits` | fat/fat_table.c:534-569 | a sound table whose first free entry holds 0x10000000: that cluster is taken and the free count stays |
| `FatAlloc.StrayEntry` | fat/fat_table.c:366-419 | the same table on a volume of one cluster: what is taken is an entry past the last cluster |
| `FatAlloc.TakenInVolume` | fat/fat_write.c:67-90 | of the entries a search takes, the first are clusters of the volume, as many as it has left, and the others are not |
| `FatAlloc.MoveHint` | fat/fat_write.c:85-85 | moves the hint and keeps the table |
| `FatAlloc.AllocateFreeSpace` | fat/fat_write.c:98-143 | a one-cluster file gets exactly the first free cluster from the root directory's on as a new chain, and fails just when there is none; otherwise the chain grows by the first free clusters, as many as the size needs; only growing moves the hint; size 0 is refused |
| `FatAlloc.ClustersFor` | fat/fat_write.c:111-117 | the least number of clusters that hold the size |
| `FatRun.Run` | fat/fat_table.c:478-530 | any sequence of creating, growing, appending to and removing files: after each operation all chains are disjoint, acyclic and terminated, only the chain of the file it names has changed, exactly the first free entries from the search start on were taken, as many as asked for or as there are, the hint is the last entry taken by growing, and the free count has moved by the words taken or given back |
| `FatRun.RunSound` | fat/fat_table.c:478-530 | so in every state of every run |
| `FatRun.RunSpares` | fat/fat_table.c:478-530 | a chain no operation of a run changed is there at its end, entry by entry |
| `FatRun.RunKeepsForeign` | fat/fat_table.c:478-530 | in every run, the entries in use by no file are the same ones with the same values all the time: no cluster is lost, and bad clusters stay marked |
| `FatRun.RunConserves` | fat/fat_table.c:534-569 | without stray bits at the start there are none later, and the free count is the one at the start plus clusters given back less clusters taken |
| `FatRun.StepGrown` | fat/fat_write.c:47-92 | adding free space is such a step |
| `FatRun.StepStarted` | fat/fat_write.c:119-133 | starting a file is such a step, and its first cluster is no other file's |
| `FatRun.StepFreed` | fat/fat_table.c:478-496 | freeing a file is such a step: its clusters are zero, the other files stay |
| `FatRun.Do` | fat/fat_write.c:245-257 | one operation: the C calls for it, from the list of first clusters alone |
| `FatFile.LbaInjective` | fat/fat_access.c:287-294 | different sectors of different clusters have different addresses |
| `FatFile.WrittenDisk` | fat/fat_filelib.c:943-950 | writing a run of sectors of one cluster changes those sectors of the file and no others |
| `FatFile.WrittenSpares` | fat/fat_filelib.c:943-950 | and no sector of any chain that shares no cluster with it |
| `FatFile.NotInvalid` | fat/fat_filelib.c:1151-1164 | the numbers of the sectors a file has, and of the one behind them, never equal the mark for no sector |
| `FatFile.NoSuchCluster` | fat/fat_access.c:287-294 | an entry behind the last cluster stands for no sector of the volume |
| `FatFile.ClusterCount` | fat/fat_access.c:287-294 | the clusters of a volume are those whose sectors end before as many clusters as it has |
| `FatFile.BytesOnDisk` | fat/fat_access.c:287-294 | contents are on the medium if and only if each byte is where it belongs: sector `i / 512` of the chain's clusters, cluster 2 first, at byte `i % 512` |
| `FatFile.File.Walk` | fat/fat_filelib.c:902-926 | the cluster a full walk of the chain gives, also when started at the remembered one |
| `FatFile.File.FindCluster` | fat/fat_filelib.c:598-651 | the remembered lookup always is what walking the chain would give |
| `FatFile.File.ReadSectors` | fat/fat_filelib.c:581-662 | sectors of one cluster as they are on the medium; none behind the last cluster, or where the entry in the chain is past the end of the volume |
| `FatFile.File.Grow` | fat/fat_filelib.c:928-936 | adds what the search finds behind the last cluster: clusters of the volume as long as it has any; no sector of this or any other file changes, and what the file has and can get is conserved even when it runs out |
| `FatFile.File.WriteSectors` | fat/fat_filelib.c:858-950 | writes the sectors of one cluster and nothing else of this or any other file, growing it first when it ends there; writes all of them when there is room, and otherwise none |
| `FatFile.File.WritableIs` | fat/fat_filelib.c:858-950 | of the sectors in or right behind the chain exactly those can be written that lie before the end of the clusters the file has and can get |
| `FatFile.File.Flush` | fat/fat_filelib.c:955-980 | the buffer reaches the medium if there is room; the contents, and those of all other files, stay |
| `FatFile.File.NextSector` | fat/fat_filelib.c:1367-1371 | with nothing dirty, the position is in a sector the file has, in the first behind its chain, or at the start of one past the end of the volume |
| `FatFile.File.WritePart` | fat/fat_filelib.c:1413-1460 | less than a sector put at the position through the buffer, where it waits in vain if there is no cluster for it |
| `FatFile.File.WriteWhole` | fat/fat_filelib.c:1376-1411 | whole sectors put at the position, straight to the medium; none when there is no room |
| `FatFile.File.Write` | fat/fat_filelib.c:1336-1483 | the contents become the old ones with the data put over them from the position on, or behind them in append mode; without room for all of it, with as much of the data as there was room for, the result saying all the same; no sector of another file changes; a few bytes in one sector stay in the buffer |
| `FatFile.File.WriteAt` | fat/fat_filelib.c:1367-1461 | the loop: at each turn the contents are the old ones with the bytes written so far put over them; it stops when a write puts nothing |
| `FatFile.SpliceAt` | fat/fat_filelib.c:1336-1483 | data put over contents: its bytes there, the old ones elsewhere, longer only when it reaches beyond |
| `FatFile.File.ReadWhole` | fat/fat_filelib.c:1131-1147 | whole sectors from the medium are the contents there: a dirty buffer is never among them |
| `FatFile.File.ReadPart` | fat/fat_filelib.c:1148-1179 | part of a sector through the buffer is the contents there |
| `FatFile.File.Read` | fat/fat_filelib.c:1087-1189 | the next bytes of the contents, as many as asked or left; -1 at the end or without permission |
| `FatFile.File.Seek` | fat/fat_filelib.c:1193-1260 | the position never leaves the file, and wraps at 32 bits before it is limited; the contents survive if and only if the buffer was clean or held what the medium holds |
| `FatFile.SeekPlaces` | fat/fat_filelib.c:1213-1256 | from the start to the offset or the end, a negative offset counting as 2^32 more; backwards by the offset or to the start; to the end |
| `FatFile.SeekForward` | fat/fat_filelib.c:1224-1231 | a forward seek lands where it should if and only if position plus offset stays below 2^32 |
| `FatFile.SeekWraps` | fat/fat_filelib.c:1224-1231 | from 0xC0000000 of a file of 0xD0000000 bytes, 0x60000000 forward lands at 0x20000000 |
| `FatFile.ReadLimitExact` | fat/fat_filelib.c:1118-1120 | a read is limited to the file if and only if position plus count stays below 2^32 |
| `FatFile.ReadRunsOver` | fat/fat_filelib.c:1118-1120 | 16 bytes before the end of a file of 0xFFFFFFFF bytes, a read of 32 is not limited |
| `FatFile.WriteSeekRead` | fat/fat_filelib.c:1193-1260 | a byte written to a new file, a seek to its start and a read: what comes is what the medium had there, and the file holds the byte afterwards only if that is the same |
| `FatFile.File.Close` | fat/fat_filelib.c:984-1034 | afterwards the medium alone holds the contents, unless their end was waiting for a cluster there is none of; the length handed to the directory counts that end too; the other files are as they were |
| `FatFile.OnDiskFits` | fat/fat_filelib.c:858-950 | contents on the medium never reach beyond the clusters the chain has and can get |
| `FatFile.WriteAndClose` | fat/fat_filelib.c:984-1483 | on a medium that ends with the volume, after a write and a close the new contents are on the medium if and only if they fit the clusters the file has and can get; the result is the number of bytes asked for either way |
| `FatFile.Both.Beside` | fat/fat_filelib.c:1336-1483 | whatever one file did, another open beside it holds what it held: unless, and only unless, its buffer waits for a cluster and none is left for it |
| `FatFile.WriteBeside` | fat/fat_filelib.c:1336-1483 | a write to one of two open files: both hold what they should, with that one exception |
| `FatFile.Store` | fat/fat_filelib.c:1336-1483 | a new file written in any blocks and closed is on the medium; all other chains and their sectors are as they were |
| `FatFile.Fetch` | fat/fat_filelib.c:1087-1189 | a file opened and read in any sizes gives its bytes up to their sum |
| `FatFile.FetchTwice` | fat/fat_filelib.c:1087-1260 | a seek from the start, a read, a seek backwards and a read give the bytes of the file there |
| `FatFile.StoreAndFetch` | fat/fat_filelib.c:984-1189 | written in any blocks, closed, mounted anew and read in any sizes: the bytes come back |
| `FatFile.Mount` | fat/fat_access.c:48-71 | a fresh view of the medium sees the same table and the same file |
| `LongNames.EntriesRequired` | fat/fat_misc.c:194-202 | the least number of 13-character entries |
| `LongNames.FilenameToLfn` | fat/fat_misc.c:208-245 | all 32 bytes of the entry: number with the last mark, attribute, checksum, characters, terminator, filler in both bytes, and zeros |
| `LongNames.EntryOfTwo` | fat/fat_misc.c:208-245 | a buffer is the entry of a name of two characters if and only if its 32 bytes are these |
| `LongNames.LfnCache.CacheEntry` | fat/fat_misc.c:59-92 | puts the fragment where its number says, fillers as spaces; the first entry sets the count; bad numbers are ignored |
| `LongNames.LfnCache.Get` | fat/fat_misc.c:98-109 | terminates the name behind the last fragment |
| `LongNames.StoreAndRead` | fat/fat_write.c:361-370 | entries written last fragment first and read back give every name of 1 to 260 bytes without 0x00 and 0xFF |
| `OtaUpload.AndErased` | libesphttpd/util/cgiflash.c:251-256 | programming erased flash stores the byte: writes can only clear bits, so the erase is needed |
| `OtaUpload.Clears` | libesphttpd/util/cgiflash.c:256-259 | a bit is set after programming just when it was set before and is set in the data |
| `OtaUpload.PageHolds` | libesphttpd/util/cgiflash.c:250-263 | erasing on the first page of a sector and programming extends the written prefix and touches nothing else |
| `OtaUpload.SectorsNeeded` | libesphttpd/util/cgiflash.c:250-253 | sectors are the least number of 4096 bytes that hold the part |
| `OtaUpload.Upload.constructor` | libesphttpd/util/cgiflash.c:128-141 | starts waiting for the header |
| `OtaUpload.Upload.Begin` | libesphttpd/util/cgiflash.c:147-217 | the header decides what is skipped and where the part goes; wrong tag, size or type is an error |
| `OtaUpload.PlanIs` | libesphttpd/util/cgiflash.c:147-217 | every branch by the bytes of the header: refused just for a wrong tag without force, a size over the limit or a wrong type; a plain image goes whole to the slot not in use, a file system to the first |
| `OtaUpload.Upload.SkipBytes` | libesphttpd/util/cgiflash.c:218-230 | skips up to the part or behind it |
| `OtaUpload.Upload.WriteBytes` | libesphttpd/util/cgiflash.c:231-268 | fills the page and puts it into flash when it is full or the part ends |
| `OtaUpload.Upload.FlushPage` | libesphttpd/util/cgiflash.c:250-263 | flash then holds the part so far; the sector was erased exactly if this was its first page |
| `OtaUpload.Upload.Receive` | libesphttpd/util/cgiflash.c:143-277 | state, page and flash depend on the bytes received so far, not on the chunks |
| `OtaUpload.Finished` | libesphttpd/util/cgiflash.c:264-267 | with the whole body in, the machine is done, the part is in flash and its sectors were erased once each, in order |
| `OtaUpload.ImageHeader` | libesphttpd/mkupgimg/mkupgimg.c:15-20 | the header written by the image tool reads back: magic, tag and both lengths |
| `OtaUpload.ImageBytes` | libesphttpd/mkupgimg/mkupgimg.c:15-20 | the 40 header bytes of a combined image, and the two parts behind it |
| `OtaUpload.UploadImage` | libesphttpd/util/cgiflash.c:116-303 | any chunks of a combined image: flash holds the selected part, each of its sectors erased once, nothing else touched |
| `OtaUpload.UploadPlain` | libesphttpd/util/cgiflash.c:116-303 | any chunks of a plain image: flash holds the whole body at the first slot when `user1` and at the second otherwise, of a file system at the first; nothing else touched |
| `OtaUpload.UploadRefused` | libesphttpd/util/cgiflash.c:116-303 | any chunks with a header that is refused: the machine ends in its error state and flash is as it was |
| `WebSocket.MaskedTwice` | libesphttpd/util/cgiwebsocket.c:214-214 | unmasking undoes masking |
| `WebSocket.MaskedUnmasks` | libesphttpd/util/cgiwebsocket.c:214-214 | unmasking bit by bit: a bit of byte `i` is turned over just when it is set in byte `i % 4` of the key |
| `WebSocket.MaskedJoin` | libesphttpd/util/cgiwebsocket.c:214-214 | masking in pieces with the wrapping 8-bit counter is masking at once |
| `WebSocket.RunAppend` | libesphttpd/util/cgiwebsocket.c:163-264 | running over two chunks is running over both together |
| `WebSocket.RunPayload` | libesphttpd/util/cgiwebsocket.c:207-263 | payload bytes one at a time or all at once come to the same |
| `WebSocket.RunWidth` | libesphttpd/util/cgiwebsocket.c:185-191 | the 2 or 8 extra length bytes add up, high byte first |
| `WebSocket.FrameReceived` | libesphttpd/util/cgiwebsocket.c:163-264 | a masked frame with a 7-, 16- or 64-bit length: a data frame is handed on whole and unmasked, a ping of at most 125 bytes is answered with a pong of its payload, other kinds leave nothing, and the next one can come |
| `WebSocket.FrameCloses` | libesphttpd/util/cgiwebsocket.c:220-262 | a close frame and a longer ping end the connection, with nothing handed on or sent |
| `WebSocket.WireReceived` | libesphttpd/util/cgiwebsocket.c:163-264 | the same for a frame given by its wire bytes, length high byte first: which kinds close, which are handed on and which are answered, each payload byte bit by bit from the wire and the key |
| `WebSocket.UnmaskedFrame` | libesphttpd/util/cgiwebsocket.c:185-262 | an unmasked frame: a data frame closes, and a ping is answered with its payload combined with the key of the frame before |
| `WebSocket.StaleKey` | libesphttpd/util/cgiwebsocket.c:214-214 | which is the payload it brought if and only if that key is zero where it is used |
| `WebSocket.FramesReceived` | libesphttpd/util/cgiwebsocket.c:163-264 | so is a sequence of frames: messages and pongs in order |
| `WebSocket.Websock.HeaderByte` | libesphttpd/util/cgiwebsocket.c:170-194 | one header byte is one step |
| `WebSocket.Websock.Unmask` | libesphttpd/util/cgiwebsocket.c:214-214 | unmasks in place |
| `WebSocket.Websock.Payload` | libesphttpd/util/cgiwebsocket.c:207-263 | the payload there is taken at once; the frame goes on in the next chunk |
| `WebSocket.Websock.Handle` | libesphttpd/util/cgiwebsocket.c:220-262 | pongs, callbacks and closing as the frame's opcode says |
| `WebSocket.Websock.Recv` | libesphttpd/util/cgiwebsocket.c:163-273 | a chunk leaves the receiver where running over its bytes one by one would |
| `WebSocket.ReceiveChunks` | libesphttpd/util/cgiwebsocket.c:163-273 | frames cut anywhere: the callbacks add up to each data frame's unmasked payload, and every ping gets its pong |

## Left out

- HeatshrinkEncoder.Encoder.constructor: window bits 4 to 14 only; with 15 the index of a full buffer is never built, as HeatshrinkEncoder.IndexEndExact states, and searching such an index is not modelled.
- MatchSearch.DoIndexing: buffers of at most 32768 bytes, those of up to 14 window bits, whose positions fit the 16-bit index.
- HeatshrinkEncoder.Encoder.Poll: the output buffer is a returned sequence with a size limit, not memory written through a pointer; null arguments are not modelled.
- EspfsImage.CompressHeatshrink: files below 0x40000000 bytes, so that the tool's doubled sizes stay in an `int`.
- EspfsImage.ChooseStorage: the same files.
- EspfsImage.HandleFile: names whose padded length fits the 16-bit field; gzip and the list of extensions for it are not modelled.
- EspfsImage.BuildImage: the same names and files.
- Espfs.Open: proved for images the tool wrote, with names of at most 255 bytes, which is what the reader's name buffer holds with the terminator; for other flash contents nothing is said. Flash is one byte sequence read at any address.
- Espfs.Visit: the same flash contents.
- Espfs.StoreAndFetch: names of at most 255 bytes and files below 0x40000000 bytes, for the same reasons.
- MqttMessage.Client.Receive: a chunk is whole PUBLISH packets and then any one other packet; packets cut by the end of a chunk, the 16-bit overflow of the total length of malformed ones, and the connection states before MQTT_DATA are not modelled.
- MqttMessage.Exchange: starts with empty queues, and hands every reply over whole; the packet has an identifier other than 0.
- MqttMessage.Connection.Publish: the topic is given as its bytes, not as a zero-terminated string.
- FatClusters.FindBlankCluster: asked to start at cluster 2 it needs a readable FSInfo sector, because the code uses the buffer without looking whether the read worked.
- FatClusters.FreeClusterChain: on a working medium; when reads fail the code takes the chain for ended.
- FatClusters.AddClusterToChain: on a working medium and links that end; on a cycle the code does not return.
- FatRun.Run: on a working medium; the files' data and their directory entries are not part of a run, and appending does not erase the new cluster.
- FatRun.Do: on a working medium, too.
- FatAlloc.AddFreeSpace: on a working medium; when a FAT sector cannot be read the code goes on without the link.
- FatAlloc.AllocateFreeSpace: on a working medium; a new file gets one cluster, which is all its callers ask for; for more the code does not report the first cluster.
- FatFile.File.Write: on a working medium; where the data do not fit, only on a medium that ends with the volume, since on a larger one the code goes on into what lies behind it. Files stay below 2^32 bytes, the range of the length field; sizes of one call are C `int`s.
- FatFile.File.Read: the end of the read, before it is limited to the file, is below 2^32; otherwise the code reads on past the end, as FatFile.ReadLimitExact states.
- FatFile.FetchTwice: offsets below 2^31, which is what a `long` holds.
- FatFile.File.Close: returns the start and the length the directory entry is to hold instead of writing the entry.
- FatTable.Fatfs.Writeback: one sector a buffer, the configured size; a failed write is taken to leave the sector as it was.
- LongNames.StoreAndRead: the entries pass through a 32-byte buffer each, not through directory sectors.
- OtaUpload.Upload.Begin: the first chunk holds as much of the header as is looked at: 40 bytes of a combined image, 12 of a plain one, 4 of a file system; the selected part is not empty, starts on a sector and fits the flash, none of which the code checks; lengths are below 2^31.
- OtaUpload.Upload.Receive: the same headers and parts.
- OtaUpload.UploadImage: the same parts.
- OtaUpload.UploadPlain: a first chunk of at least 12 bytes, or 4 of a file system; the place it goes to starts on a sector and the part fits the flash.
- OtaUpload.UploadRefused: the same first chunks.
- WebSocket.Websock.Recv: what is sent when a connection is closed, and the list of connections, are not modelled; the callback only records what it is given.
- FAT16, the root directory of FAT16, short names and their tails, time stamps, path parsing, and the cluster cache that is compiled out.
- Device drivers, network callbacks, timers, the HTTP server and its pages, captive DNS, the display, SHA-1 and base64.
- Memory allocation failure and log output.
