# A verified model of CDTAPI's streaming code

The library sends and receives video and audio over IP (SMPTE ST 2110) and MPEG-2 transport
streams over ASI through DekTec cards. These Dafny files model the parts where bytes, offsets and
times have to come out exactly, and prove what the code promises of them.

Two results run through the whole ST 2110-20 path. `EndToEnd.FramesComeOut`: when the transmit
thread has sent the frames of its FIFO through an empty pipe, and a receive FIFO has read the
pipe's bytes, in whatever passes, every frame but the first (from which the receiver learns the
size) waits in it as it went in, and is read so. `VideoStream.PacketizedFramesAreSafe`: whatever packets are lost
on the way, fewer than 2^32 in a row, and whatever the frame pool and the sink refuse, every frame
delivered is one whole frame that was sent, and they come in the order they were sent. Meanwhile
each frame of the receive FIFO's pool is at all times free, being filled, waiting to be read or
the application's (`RxFrames.Frames`).

## Files

| file | what it models |
|---|---|
| `PixelSpec`, `PixConv`, `PixConvSsse3`, `PixConvAvx2`, `Simd` | the pixel conversions: a specification on samples, and the portable, SSSE3 and AVX2 loops against it |
| `MediaTime` | 128-bit multiply-add-divide, the frame grid, RTP timestamps |
| `EthIp`, `NetPackets`, `TxStreams`, `Headers`, `NetReceiver` | the headers of a packet, from the card's own to ST 2110-20's row headers, and a receiver of them written from the standards |
| `VideoCut`, `VideoStream`, `VideoDatagrams`, `VideoTx`, `VideoPacketizer`, `VideoStart` | how frames are cut into packets, what the packets are, when they leave, and the loops that write them |
| `VideoParser`, `VideoReceiver`, `VideoPackets` | the parser, as functions of its state and as the methods that update it |
| `FramePool`, `RxFrames`, `RxFifo` | the frame pool and FIFO; who has which frame; the receive FIFO: reader, parser and frames together |
| `VideoSafety`, `VideoLossless`, `VideoRoundTrip`, `VideoJumps` | what the parser delivers of packetized frames, with packets lost and without; when it tells 4:2:0 video |
| `SharedRing`, `PipeWriter`, `PipeReader`, `Transmitter`, `EndToEnd` | the buffer shared with the card, both its users, the transmit thread, and the whole path |
| `AsiStream`, `AsiRx`, `AsiPackets` | scanning and delivering ASI input, and what is delivered of the packets that a card writes |
| `Audio`, `AudioPacketizer`, `AudioTimes` | audio re-packetizing with left-over samples, and when the packets leave |
| `TsVideo`, `TsEncoder`, `TsPicture` | the examples' MPEG-2 pictures: bits, blocks, headers and PES packets, and a decoder of them |
| `TsPackets`, `TsStream` | the examples' transport stream, and a demultiplexer of it |
| `PatternImage`, `Pattern`, `PatternSource`, `PatternReader`, `PatternReception` | the examples' test pattern: its images, drawing what changes, packing it, reading its number, and reading it from what was sent and received |
| `Mailbox` | the examples' ask/answer mailbox |
| `Arithmetic`, `Bits`, `Bytes` | products and quotients; numbers as bits; bytes and memory copies |

The card is a step that advances its offset when it likes: `PipeWriter.Writer.CardTakes` and
`PipeReader.Reader.CardWrites` between the calls of a thread, and in `SharedRing.RunIsSafe` between
any two stored bytes. The application writes, reads and returns frames between the steps of a
thread. The driver's answers, allocation failures and stop requests are parameters.

Hypotheses that the code needs, and that the contracts state: payloads and rows are whole pixel
groups (`Valid`); row numbers, pixel offsets and lengths fit their header fields (`FitsHeaders`);
the size that is learned fits an int (`SizeFits`); packets fit the card's header (`FitsNet`); a
pipe's buffer is a whole number of data words (`PipeWriter.Writer.Valid`), which whole pages are for
data widths that divide 4096 bytes, and not for 96 bits.

Where the code does less than its description says, the exact condition is proved:

- `VideoStart.PayloadIsWholeGroups`: the default payload size in block packing is whole pixel
  groups only for groups that divide 1260 bytes, or are of 360, 540, 720, 900 or 1080 bytes;
  `VideoStart.BlocksCutGroups` shows groups of eight bytes, which `ConfigureRaw` accepts, being cut.
- `NetPackets.RoomNeedsAlignment`: packet sizes have room for every payload only when the pipe's
  data width is at most 64 bits or a multiple of 64 bits; opening a pipe accepts any multiple of
  32 bits. At 96 bits a packet of the default payload size is four bytes longer than its size
  (`VideoStart.DefaultPacketFallsShort`).
- `VideoRoundTrip.RowsAreDelivered`: a delivered frame's row count is its rows only for fields, for
  video that is not 4:2:0, and for single rows, and the lines of the frame, as
  `Include/cdtapi_avfifo.h:266` has it, only for video that is not 4:2:0; a progressive 4:2:0 frame
  of two rows and four lines comes as three (`VideoRoundTrip.FourLinesComeAsThree`).
- `VideoJumps.FlagIsClear`: a delivered frame's flag of 4:2:0 video is right only when the last
  packet of the first frame that goes on to further rows does so by one, or, for other video, not by
  two; `VideoJumps.JumpOf` tells by how many from the row size, the payload size and the number of
  rows. `VideoRoundTrip.TwoRowsSeem420` is 4:2:2 video that is taken for 4:2:0.
- `MediaTime.ChosenTimeIsNearest`: the time chosen for a timestamp is the nearest only when the
  rounded and the truncated tick counts of the approximate time lie in the same wrap, or that time
  is at the end of the first wrap and the timestamp in its upper half;
  `MediaTime.NotNearestAtTheEdge` is an input for which it is not.
- `MediaTime.RtpRoundTripAtAnyRate`: above 500 MHz a timestamp survives the round trip exactly when
  what the truncation cuts off of the ticks chosen is within the rounding;
  `MediaTime.RtpIsLostAtTwoGigahertz` is one that does not.
- `AudioTimes.LeftOversGoOn`: the time of samples left over does not drift
  (`Source/AvFifo/DtSt2110Audio.c:120-121`) only where a packet's samples take whole thousandths of a
  nanosecond and those of a frame's packets whole nanoseconds, since it is kept in nanoseconds
  between frames; at 44.1 kHz every frame adds to it (`AudioTimes.LeftOversDrift`).
  `AudioTimes.RunKeepsTods` bounds what is lost by a nanosecond a frame and a
  thousandth a packet.
- `PatternImage.SizeIsSupported`: an image of 320 by 240 pixels or more has a test pattern only when
  its digits are not too wide for it; `PatternImage.TallHasNoPattern` is one that has none, though
  `ExamplePattern.h` asks for no more than that size.
- `RxFrames.ReturnIsSafe`: a pool takes back any of its frames that is not free, which leaves no
  frame free and in use only when neither the parser nor the FIFO has it; in `RxFrames.ReturnTwice` a
  frame is returned twice, and the second time the parser has it again.
- `PatternReception.NumberArrives`: the examples pack groups of ten bits most significant bit first
  (`Examples/Common/ExampleAvFifo.c:223-259`), and read them so, where the library's ten-bit format
  is packed least significant bit first (`Include/cdtapi_avfifo.h:106`). The number of a frame
  delivered is read back exactly when its lines have at most 8192 pixels, the video is not taken for
  4:2:0 (`VideoJumps.IsClear`, by its size and payloads) and, of ten bits received in eight, its
  width is 576 pixels or more and holds 192 an odd number of times, such as 720 and not 1920.
  `PatternReception.SmallTellsNone`: of video of 320 by 240, which has a pattern, no number is found
  in any format, as the library flags it 4:2:0. `PatternReception.LumaComesAsSent` tells which samples of a group come as they were sent.
- `Mailbox.AnswersMatch`: every Ask gets the answer to its own item, in every interleaving, only when
  the owner answers what it took before it takes again; `Mailbox.MixedUp` is a run of one that does
  not.
- `VideoStart.PacingFillsThePeriod`: packets fill the frame period only for frame rates with a
  denominator of at most 18446744, since the period's picoseconds are counted in 64 bits;
  `VideoStart.WideRateFallsShort` is a rate of 50 frames a second that `Configure` accepts, with
  which they take less than a tenth of it.

## Model

| member | source | states |
|---|---|---|
| EndToEnd.FramesComeOut | Source/AvFifo/DtAvTxFifo.c:113-151 | All frames of a transmit FIFO, through pipe, reader, parser and frame pool: every frame but the first is delivered, and those not yet read wait, with bytes, field, rows and timestamp, the second PsF field with that of the first |
| EndToEnd.ReadAsSent | Source/AvFifo/DtAvRxFifo.c:596-602 | What the application then reads are those frames, one after the other, each as it was sent, and nothing more |
| EndToEnd.DeliveredAsParsed | Source/AvFifo/DtAvRxFifo.c:126-145 | However a stream was read in passes, what the receive FIFO has delivered is what the packets of the whole stream parse to |
| EndToEnd.StaysInSync | Source/AvFifo/DtAvPipe.c:232-273 | A receive FIFO that reads a stream of packets from its start never loses sync, wherever the card is when it looks |
| EndToEnd.FramesArrive | Source/AvFifo/DtSt2110Video.c:604-709 | The bytes that a stream's packets are in a pipe, read and parsed by a fresh parser, give every frame but the first, in each format, and no error is counted |
| EndToEnd.PostedAreFound | Source/AvFifo/DtAvPipe.c:232-273 | The reader finds exactly the packets written one after the other, and nothing is left over |
| EndToEnd.PostedArrive | Source/AvFifo/DtAvPacket.c:147-171 | What the parser gets of those packets is the UDP payloads that were sent, in order |
| VideoRoundTrip.RoundTrip | Source/AvFifo/DtSt2110Video.c:604-709 | Frames, or fields of alternating parity, packetized and fed in order to a fresh parser: all but the first delivered with bytes, field, rows, timestamp and the time the first packet came, and the flag learned of the first frame; statistics show no error |
| VideoRoundTrip.RowsAreDelivered | Source/AvFifo/DtSt2110Video.c:583-593 | When a delivered frame has its number of rows, and of lines, exactly |
| VideoRoundTrip.FourLinesComeAsThree | Source/AvFifo/DtSt2110Video.c:504 | A progressive 4:2:0 frame of two rows is delivered as three: a counterexample |
| VideoRoundTrip.FlagIsDelivered | Source/AvFifo/DtSt2110Video.c:505-511 | When a delivered frame has the 4:2:0 flag of its stream, exactly, by the rows that the first frame's packets reach |
| VideoJumps.FlagIsClear | Source/AvFifo/DtSt2110Video.c:505-511 | The same by row size, payload size and number of rows alone |
| VideoJumps.JumpIs | Source/AvFifo/DtSt2110Video.c:157-204 | By how many rows the last packet of a frame that does so goes on, in closed form, for any rows and payloads |
| VideoJumps.PacketEnds | Source/AvFifo/DtSt2110Video.c:157-173 | Where a packet of up to three row segments ends: it is full, or holds all that three can |
| VideoRoundTrip.OneRowAtATime | Source/AvFifo/DtSt2110Video.c:505-511 | The flag is right for frames of two rows or more when payloads are no longer than rows, or are of one line |
| VideoRoundTrip.TwoRowsSeem420 | Source/AvFifo/DtSt2110Video.c:505-511 | 4:2:2 video of two rows a packet is taken for 4:2:0: a counterexample |
| VideoRoundTrip.ReceivedAsSent | Source/AvFifo/DtSt2110Video.c:547-577 | A frame received in the format it was sent in holds the very bytes of the frame sent, also 10-bit ones that were converted on the way |
| VideoRoundTrip.RunSplits | Source/AvFifo/DtSt2110Video.c:604-709 | Parsing packets is parsing the first ones and then the others |
| VideoLossless.LearningStep | Source/AvFifo/DtSt2110Video.c:480-524 | Each packet of a first frame leaves the parser with the bytes counted so far, the row size, the last row number and the step between rows, and its last packet with all of them |
| VideoLossless.SizeIsLearned | Source/AvFifo/DtSt2110Video.c:530-541 | The size worked out after a first frame or field is its rows, and one more for a field, times the row size, whichever count it is taken from |
| VideoLossless.SizeHasRoom | Source/AvFifo/DtSt2110Video.c:530-541 | The size learned from either field has room for both |
| VideoLossless.PacketGoesOn | Source/AvFifo/DtSt2110Video.c:650-708 | A packet in sequence extends the frame by exactly its data, the first gives it its time, and the last one delivers the whole frame |
| VideoLossless.LinesOfRows | Source/AvFifo/DtSt2110Video.c:583-593 | The rows counted from a field's bytes are the rows it has, in each output format |
| VideoStream.PacketizedFramesAreSafe | Source/AvFifo/DtSt2110Video.c:604-709 | Any packets of packetized frames may be lost: each frame delivered is one whole frame sent, in order |
| VideoSafety.LossSafety | Source/AvFifo/DtSt2110Video.c:629-708 | The same for any stream of packets that are successive parts of frames |
| VideoSafety.StepIsSafe | Source/AvFifo/DtSt2110Video.c:629-708 | One packet, whatever was lost before it: the parser waits, or holds exactly what was sent of the frame so far; what it delivers is the frame the packet ends |
| VideoSafety.SequenceTellsGaps | Source/AvFifo/DtSt2110Video.c:648-662 | Sequence numbers modulo 2^32 tell the next packet from every other that is less than a wrap away |
| VideoSafety.WriteHolds | Source/AvFifo/DtSt2110Video.c:547-577 | A segment converted behind what is held extends it by that segment, planes included, whatever the format |
| VideoSafety.AppendAll | Source/AvFifo/DtSt2110Video.c:696-706 | The segments of a packet extend the frame by its data if the size has room, and else forget the frame having delivered nothing |
| VideoSafety.FramesAreInOrder | Source/AvFifo/DtSt2110Video.c:604-709 | Later packets are of the same or later frames |
| VideoPackets.PacketIsRead | Source/AvFifo/DtSt2110Video.c:604-645 | Parsing the bytes of a packet is handling the packet they were made of: headers, sequence number, row segments and data |
| VideoParser.Step | Source/AvFifo/DtSt2110Video.c:604-709 | For any bytes at all: never more is received than the frame has room for, nor more put out than received, and the frame has the size learned |
| VideoParser.LearnKeepsInv | Source/AvFifo/DtSt2110Video.c:629-646 | Learning from any row headers keeps that invariant |
| VideoReceiver.VideoRx.Parse | Source/AvFifo/DtSt2110Video.c:604-709 | The method that updates the parser's fields and fills a frame of the pool does what the step on values does, for any packet; with memory it gets a frame, the frame is taken exactly while the FIFO has room, and frames that wait stay as they were delivered |
| VideoReceiver.StepKeepsDelivered | Source/AvFifo/DtSt2110Video.c:604-709 | No packet changes what was delivered before |
| RxFifo.VideoRxFifo.ThreadPass | Source/AvFifo/DtAvRxFifo.c:126-145 | A pass of the receive thread parses each packet it finds once and in order, also those of a pass that loses sync; the application keeps what it has, and what waits stays as it was delivered |
| RxFifo.VideoRxFifo.CardWrites | Source/AvFifo/DtAvPipe.h:30-33 | The card may write on between any calls, and writes into no frame |
| RxFifo.VideoRxFifo.Read | Source/AvFifo/DtAvRxFifo.c:596-602 | The application gets the oldest frame that waits, which it did not have, with what was delivered in it |
| RxFifo.VideoRxFifo.ReturnToMemPool | Source/AvFifo/DtAvRxFifo.c:606-622 | A frame the application has is taken back, and so is one being filled or waiting; a free or foreign one is refused; what waits stays as it is |
| RxFifo.RunMore | Source/AvFifo/DtSt2110Video.c:604-709 | Parsing one packet more is a step of the parser behind the run so far |
| RxFrames.Frames.Get | Source/AvFifo/DtAvFrame.c:69-114 | A free or new frame is taken to be filled, and who has the others does not change |
| RxFrames.Frames.Deliver | Source/AvFifo/DtAvStream.h:71-80 | The frame filled goes behind those that wait, as it is, or with the FIFO full back to the pool; nothing else changes hands |
| RxFrames.Frames.Forget | Source/AvFifo/DtSt2110Video.c:368-372 | The frame being filled is free again, and nothing else changes hands |
| RxFrames.Frames.Read | Source/AvFifo/DtAvFrame.c:220-233 | The oldest frame that waits becomes the application's, and holds what was delivered behind the frames read before |
| RxFrames.Frames.Return | Source/AvFifo/DtAvFrame.c:118-136 | A frame that the application has becomes free; one being filled or waiting is then free and in use; any other is refused |
| RxFrames.Frames.OthersAreKept | Source/AvFifo/DtAvFrame.h:48-53 | What waits or is the application's is not among what the parser's calls may change, data included |
| RxFrames.Frames.WaitsAsDelivered | Source/AvFifo/DtAvFrame.c:203-233 | Each frame that waits holds the frame delivered behind those that were read |
| RxFrames.ReturnIsSafe | Source/AvFifo/DtAvFrame.c:118-149 | When taking a frame back leaves no frame free and in use, exactly, for every frame |
| RxFrames.ReturnTwice | Source/AvFifo/DtAvFrame.c:69-136 | A run on a pool and a FIFO: a frame returned twice is free while the parser fills it |
| VideoReceiver.VideoRx.ReadRowHeaders | Source/AvFifo/DtSt2110Video.c:415-472 | Reads at most three row headers; each way they can be wrong leaves the state the source leaves |
| VideoReceiver.VideoRx.CountFrameSize | Source/AvFifo/DtSt2110Video.c:480-524 | The two counting loops leave the bytes, rows and row size of the counting function |
| VideoReceiver.VideoRx.CalculateFrameSize | Source/AvFifo/DtSt2110Video.c:530-541 | The size worked out, in place |
| VideoReceiver.VideoRx.AppendSegments | Source/AvFifo/DtSt2110Video.c:696-706 | The loop over segments fills the buffer as the function on values does, or starts over |
| VideoReceiver.VideoRx.AppendSegment | Source/AvFifo/DtSt2110Video.c:547-577 | One segment, converted into the frame's buffer and nowhere else |
| VideoReceiver.VideoRx.BeginFrame | Source/AvFifo/DtSt2110Video.c:664-689 | A frame of the size learned from the pool, or none, with the state the source then leaves |
| VideoReceiver.VideoRx.CheckSequence | Source/AvFifo/DtSt2110Video.c:648-662 | A gap inside a frame skips it; one between frames is counted |
| VideoReceiver.VideoRx.DeliverFrame | Source/AvFifo/DtSt2110Video.c:583-599 | Hands over the frame with its bytes, field and rows |
| VideoReceiver.VideoRx.ToSink | Source/AvFifo/DtAvStream.h:71-80 | A frame counts as received; refused by the full FIFO it counts as dropped and is free again |
| VideoReceiver.VideoRx.ForgetStreamAndFrame | Source/AvFifo/DtSt2110Video.c:368-384 | Forgets everything learned, and the frame being received is free again |
| VideoReceiver.WriteSegment | Source/AvFifo/DtSt2110Video.c:547-577 | Each format's conversion into a buffer in place equals the conversion on values; nothing outside its range is written |
| VideoReceiver.PlanesArePut | Source/AvFifo/DtSt2110Video.c:562-570 | The planes written in place are those of the specification |
| VideoCut.PacketsForRows | Source/AvFifo/DtSt2110Video.c:181-204 | The separate counting walk terminates, and counts the packets that the cutting makes |
| VideoCut.PacketIsSound | Source/AvFifo/DtSt2110Video.c:157-173 | A packet has one to three segments, none empty, each whole pixel groups of one row, one behind the other, within the payload |
| VideoCut.PacketIsFull | Source/AvFifo/DtSt2110Video.c:149-173 | It is full, or of one line as asked for, or ends the frame, or holds three segments of which the last two are whole rows |
| VideoCut.HeadersHaveRoom | Source/AvFifo/DtSt2110Video.c:157-162 | Every row header a packet is given has bytes to describe |
| VideoCut.FieldsShareRows | Source/AvFifo/DtSt2110Video.c:138-147 | The two fields have all rows of a frame, the first the one more of an odd number |
| VideoCut.PacketsHoldAll | Source/AvFifo/DtSt2110Video.c:303-358 | The packets hold every byte of the rows, once |
| VideoStream.FramesAreAStream | Source/AvFifo/DtSt2110Video.c:279-360 | The packets of any frames are successive parts of them, numbered one after the other, the last of each marked, with headers that fit |
| VideoStream.PacketIsSent | Source/AvFifo/DtSt2110Video.c:315-346 | One packet's headers and data are those of the part of the frame it is |
| VideoStream.HeaderFits | Source/AvFifo/DtSt2110Video.c:318-324 | The row number and pixel offset fit 15 bits, and are both zero at the start of a frame alone |
| VideoStream.SegmentsAreInPlace | Source/AvFifo/DtSt2110Video.c:316-341 | SMPTE ST 2110-20: a receiver that puts each segment at the row and pixel its header gives has the frame's bytes where they are in the frame, 4:2:0 and fields included |
| VideoTx.WriteSegments | Source/AvFifo/DtSt2110Video.c:316-345 | The inner loop writes the row headers and, behind them, exactly the converted bytes of the rows they describe, and stops where the cutting does |
| VideoTx.PartOfWire | Source/AvFifo/DtSt2110Video.c:326-331 | Converting a frame segment by segment is converting it at once |
| VideoPacketizer.Packetizer.Packetize | Source/AvFifo/DtSt2110Video.c:279-359 | A frame of the right size becomes the packets it is cut into, whatever the card reads meanwhile; a reader of the pipe finds that they leave one spacing after the other, the first at the time of day of the frame, plus the transmit offset, less the delay, modulo 2^64 nanoseconds and 2^32 seconds, numbered one by one; else nothing changes |
| VideoPacketizer.Packetizer.SendPacket | Source/AvFifo/DtSt2110Video.c:307-356 | One packet, in place or around the end of the buffer, leaves every unread byte as it was |
| VideoPacketizer.Packetizer.WritePacket | Source/AvFifo/DtSt2110Video.c:307-356 | The bytes of one packet, all headers included, in the room reserved and nowhere else |
| VideoPacketizer.Packetizer.WritePayload | Source/AvFifo/DtSt2110Video.c:308-353 | Its payload: RTP header, upper sequence number, row headers, data |
| VideoPacketizer.CountIsPackets | Source/AvFifo/DtSt2110Video.c:210-216 | As many packets are made as were counted |
| VideoDatagrams.DatagramsLeave | Source/AvFifo/DtSt2110Video.c:353-357 | Of any packets put into a pipe so, the reader finds each, and its header and IP packet tell when it leaves and its number |
| VideoStart.PayloadIsWholeGroups | Source/AvFifo/DtSt2110Video.c:220-243 | When the payload size chosen is whole pixel groups, exactly, by the size of the groups |
| VideoStart.BlocksAreWholeGroups | Source/AvFifo/DtSt2110Video.c:237-243 | Pixel groups that divide a block of 180 bytes are never cut |
| VideoStart.BlocksCutGroups | Source/AvFifo/DtSt2110Video.c:237-243 | Groups of eight bytes in block mode are cut: a counterexample |
| VideoStart.DefaultPacketFallsShort | Source/AvFifo/DtAvPacket.c:51-55 | At a data width of 96 bits a packet of the default payload size is longer than its size: a counterexample |
| VideoStart.StartedIsValid | Source/AvFifo/DtSt2110Video.c:37-104 | What Configure and Start accept is a configuration of whole pixel groups |
| VideoStart.RawStartedIsValid | Source/AvFifo/DtSt2110Video.c:108-136 | What ConfigureRaw and Start accept is one exactly when the payload size chosen is whole groups |
| VideoStart.ConfigureIsRefused | Source/AvFifo/DtSt2110Video.c:37-104 | What Configure refuses, of rates that are, exactly: also rates at which packets start more than an int of nanoseconds into the period |
| VideoStart.TimingIs | Source/AvFifo/DtSt2110Video.c:68-104 | Frames at the rate configured, or one for two fields, and the default offsets of SMPTE ST 2110-21 in lines of the period |
| VideoStart.MaxPacketFits | Source/AvFifo/DtAvPipe.h:39-41 | The largest packet fits a pipe |
| VideoStart.PacingFillsThePeriod | Source/AvFifo/DtSt2110Video.c:247-257 | Packets end within the frame period, or with a gap within its active part, and fill it but for less than a picosecond a packet exactly when its picoseconds are within 64 bits |
| VideoStart.WideRateFallsShort | Source/AvFifo/DtSt2110Video.c:247-255 | At a rate of 1000000000 frames in 20000000 seconds, which Configure accepts, packets take less than a tenth of the period: a counterexample |
| VideoStart.DivisorFits | Source/AvFifo/DtSt2110Video.c:249-255 | What the period is divided by is within 64 bits for any rate and number of packets that are ints; with a gap up to 7.6 million packets |
| VideoStart.GapEndsInThePeriod | Source/AvFifo/DtSt2110Video.c:73-104 | With a gap, the packets of a frame go out before its period is over, transmit offset included, for every format and scanning |
| Transmitter.VideoTxFifo.Thread | Source/AvFifo/DtAvTxFifo.c:113-151 | The packets of the FIFO's frames, and of those the application writes meanwhile, go into the pipe in the frames' order, none over an unread byte; stopped, one frame taken may stay unsent; a buffer too small sends none; while no flush fails the card is told of all and every frame sent is counted, and while the card keeps up each pass sends a frame |
| Transmitter.VideoTxFifo.SendFrame | Source/AvFifo/DtAvTxFifo.c:142-149 | One frame with room for it: its packets, and it is counted exactly when it could be sent and no flush of its packets or of its own failed |
| Transmitter.VideoTxFifo.WaitForRoom | Source/AvFifo/DtAvTxFifo.c:128-140 | The wait ends with room for the whole frame, or with the stop, and at once when the card keeps up; failed reads of the offset are retried |
| Transmitter.FrameBytesAreEnough | Source/AvFifo/DtSt2110Video.c:262-267 | The room waited for is enough for the packets of either field |
| Transmitter.EveryFrameFits | Source/AvFifo/DtAvTxFifo.c:160-200 | The buffer that is set up holds the packets of any frame at once, with the data word that stays free |
| Transmitter.BufferIsEnough | Source/AvFifo/DtAvTxFifo.c:160-200 | It is a page more than holds 80 ms of rows, two frames, a frame's packets and 64 kibibytes, and less than two pages more than the largest of these |
| Transmitter.StreamIsAllPackets | Source/AvFifo/DtSt2110Video.c:279-360 | The payloads of frames sent one by one, with a sequence number that wraps, are those of all frames' packets |
| Transmitter.SentJoins | Source/AvFifo/DtAvTxFifo.c:113-151 | What was sent before and what was sent then add up, whatever the FIFO still holds |
| SharedRing.RunIsSafe | Source/AvFifo/DtAvPipe.c:119-203 | In every interleaving of single stores, commits, flushes and free-byte reads with the card's reads, the card reads exactly what was committed, in order |
| SharedRing.StepIsSafe | Source/AvFifo/DtAvPipe.c:119-203 | Each such step keeps unread bytes intact and the host's budget within the room there is |
| SharedRing.FreeBytesIsRoom | Source/AvFifo/DtAvPipe.c:167-187 | The two offsets tell the free bytes exactly: a full buffer and an empty one differ |
| SharedRing.WritingAhead | Source/AvFifo/DtAvPipe.c:119-154 | Storing in the room ahead of the write offset leaves every unread byte |
| SharedRing.StoreAround | Source/AvFifo/DtAvPipe.c:136-144 | The copy in two parts stores the packet around the end of the buffer and nothing else |
| SharedRing.LoadBytesIsLoad | Source/AvFifo/DtAvPipe.c:247-248 | The load worked out from two offsets is the distance of the positions |
| PipeWriter.Writer.CommitPacket | Source/AvFifo/DtAvPipe.c:131-152 | Adds the packet in the room to the stream, keeps all offsets whole data words, and flushes every hundredth packet |
| PipeWriter.Writer.ReserveRoom | Source/AvFifo/DtAvPipe.c:119-127 | The room is in the buffer, or in the wrap packet when it would reach the end |
| PipeWriter.Writer.GetFreeBytes | Source/AvFifo/DtAvPipe.c:172-187 | The free bytes are the room there is; a read offset beyond the buffer is an error |
| PipeWriter.Writer.Flush | Source/AvFifo/DtAvPipe.c:191-203 | Tells the card of everything written, and returns the first failure since the last call |
| PipeWriter.Writer.CardTakes | Source/AvFifo/DtAvPipe.h:30-33 | What the card reads, at any time, is what was committed |
| PipeReader.Reader.Pass | Source/AvFifo/DtAvPipe.c:232-273 | Hands over exactly the packets between the offsets and moves past them, so that over all passes since sync was taken up those of the bytes read are handed over; out of sync it takes it up at the write offset; errors change nothing |
| PipeReader.Reader.PacketInOnePiece | Source/AvFifo/DtAvPipe.c:218-228 | A packet around the end of the buffer is handed over in one piece |
| PipeReader.PacketsOfMore | Source/AvFifo/DtAvPipe.c:249-269 | Packets are found alike wherever the stream is cut into passes |
| PipeReader.PassesAddUp | Source/AvFifo/DtAvPipe.c:232-273 | A pass that reads on from where the last one left off finds what one pass over all would have |
| PipeReader.MoreHanded | Source/AvFifo/DtAvPipe.c:232-273 | The packets of a pass go on where those of all passes before ended |
| PipeReader.StaysInSync | Source/AvFifo/DtAvPipe.c:254-261 | A stream of packets read from its start is never lost |
| PipeReader.LostIsLost | Source/AvFifo/DtAvPipe.c:254-261 | More bytes do not change what was found before sync was lost |
| NetPackets.PacketRoundTrip | Source/AvFifo/DtAvPacket.c:59-141 | Parsing a packet gives back the UDP payload and the time it was made of, over IPv4 and IPv6, with a VLAN tag or without, for either header version |
| NetReceiver.FrameIsRead | Source/AvFifo/DtAvPacket.c:59-120 | IEEE 802.3 and 802.1Q, RFC 791, RFC 8200, RFC 768: a receiver of the Ethernet frame in a packet reads back MACs, VLAN tag, type, version, lengths, identification, time to live, protocol, addresses, ports and payload, in both versions of IP |
| NetReceiver.HeaderPointsAtFrame | Source/AvFifo/DtAvPacket.c:122-136 | The card's header is valid, has the time, and its offsets are those of the addresses and the ports |
| NetReceiver.PaddingIsZero | Source/AvFifo/DtAvPacket.c:137-140 | Behind the frame a packet has zeros |
| NetPackets.SizeHasRoom | Source/AvFifo/DtAvPacket.c:51-55 | A packet's size has room for headers and payload, is whole units, and pads with less than one |
| NetPackets.SizeGrows | Source/AvFifo/DtAvPacket.c:51-55 | A larger payload never makes a smaller packet |
| NetPackets.RoomNeedsAlignment | Source/DtPcie/DtEthIp.c:64-70 | There is room for every payload exactly when the alignment is at most a word or whole words |
| TxStreams.TxStream.WriteHeaders | Source/AvFifo/DtAvPacket.c:59-141 | Written in place around a payload, the headers and the padding make the packet; the identification counts on |
| EthIp.HeaderRoundTrip | Source/DtPcie/DtEthIp.c:82-162 | Reading a header gives back every field written, for both versions |
| EthIp.FieldIsRead | Source/DtPcie/DtEthIp.c:46-58 | A field inserted among others is extracted again, as far as it fits |
| EthIp.LeRoundTrip | Source/DtPcie/DtEthIp.c:25-40 | Little-endian bytes read back |
| Headers.RtpRoundTrip | Source/AvFifo/DtAvPacket.c:178-200 | RFC 3550 section 5.1: reading an RTP header gives back its fields |
| Headers.SrdRoundTrip | Source/AvFifo/DtAvPacket.c:206-227 | RFC 4175 section 4.2: reading a row header gives back its fields, cut to what they hold |
| PixelSpec.ConversionsAreInverse | Source/AvFifo/DtAvPixConv.c:93-147 | The two 10-bit conversions undo each other on any number of groups |
| PixelSpec.ToUyvy10KeepsSamples | Source/AvFifo/DtAvPixConv.c:85-89 | Each sample of a group is the same after the conversion |
| PixelSpec.ToPg10KeepsSamples | Source/AvFifo/DtAvPixConv.c:85-89 | And the other way |
| PixelSpec.ConvertConcat | Source/AvFifo/DtAvPixConv.c:93-147 | Converting piece by piece is converting at once |
| PixConv.Pg10ToUyvy10 | Source/AvFifo/DtAvPixConv.c:93-105 | The overlapping eight-byte stores and the byte tail leave the converted groups, and nothing else |
| PixConv.Pg10ToUyvy8 | Source/AvFifo/DtAvPixConv.c:109-127 | The same to eight bits, two groups a step |
| PixConv.Uyvy10ToPg10 | Source/AvFifo/DtAvPixConv.c:131-147 | The same the other way |
| PixConv.Uyvy8ToYuv422p | Source/AvFifo/DtAvPixConv.c:151-161 | Luma and colour go to their planes, and nothing else is written |
| PixConv.WordStepToUyvy10 | Source/AvFifo/DtAvPixConv.c:74-105 | Swapping, reversing samples and shifting a word converts the group at its start |
| PixConv.WordStepToPg10 | Source/AvFifo/DtAvPixConv.c:131-147 | So it does the other way |
| PixConvSsse3.Pg10ToUyvy10 | Source/AvFifo/DtAvPixConvSsse3.c:51-71 | The shuffle, multiply and shift steps with their tail write the same bytes as the portable loop |
| PixConvSsse3.Pg10ToUyvy8 | Source/AvFifo/DtAvPixConvSsse3.c:75-89 | The same to eight bits |
| PixConvSsse3.Uyvy10ToPg10 | Source/AvFifo/DtAvPixConvSsse3.c:93-121 | The same the other way |
| PixConvSsse3.Uyvy8ToYuv422p | Source/AvFifo/DtAvPixConvSsse3.c:125-147 | The same to planes |
| PixConvAvx2.Pg10ToUyvy10 | Source/AvFifo/DtAvPixConvAvx2.c:81-103 | Two lanes a step: the same bytes again |
| PixConvAvx2.Pg10ToUyvy8 | Source/AvFifo/DtAvPixConvAvx2.c:107-121 | To eight bits |
| PixConvAvx2.Uyvy10ToPg10 | Source/AvFifo/DtAvPixConvAvx2.c:125-147 | The other way |
| PixConvAvx2.Uyvy8ToYuv422p | Source/AvFifo/DtAvPixConvAvx2.c:151-155 | To planes |
| MediaTime.ComputeMulAddDiv | Source/AvFifo/DtAvTime.c:47-73 | (A * B + Add) / Div modulo 2^64 for all 64-bit inputs, also where the shifted remainder carries out of the word |
| MediaTime.Multiply128 | Source/AvFifo/DtAvTime.c:25-40 | The two words are the 128-bit product |
| MediaTime.ToGridIsNear | Source/AvFifo/DtAvTime.c:99-107 | A grid time lies within half a period and half a nanosecond of the time it is for |
| MediaTime.ToGridIsOnGrid | Source/AvFifo/DtAvTime.c:95-107 | The time is that of the grid point nearest to the one given, rounded to a nanosecond |
| MediaTime.ToGridIsIdempotent | Source/AvFifo/DtAvTime.c:99-107 | A time on the grid stays where it is |
| MediaTime.GridTimestampIsExact | Source/AvFifo/DtAvTime.c:109-124 | At rates that divide 360000 by a whole number, the video timestamp of grid point n is the exact one, cut to 32 bits, for every n |
| MediaTime.TimestampIsNearest | Source/AvFifo/DtAvTime.c:111-124 | A timestamp is the count of ticks nearest to its time, modulo 2^32, at every rate; at 90 kHz the last one reached, or reached in an eighth of a tick |
| MediaTime.RtpRoundTrip | Source/AvFifo/DtAvTime.c:132-147 | A timestamp survives being made a time near any other and back, at rates up to 500 MHz |
| MediaTime.RtpRoundTripAtAnyRate | Source/AvFifo/DtAvTime.c:132-147 | At any rate, for any timestamp and approximate time: it survives exactly when the truncation cuts off no more than the rounding adds |
| MediaTime.RtpIsLostAtTwoGigahertz | Source/AvFifo/DtAvTime.c:132-147 | A rate and a timestamp at which it does not |
| MediaTime.ChosenTimeIsNearest | Source/AvFifo/DtAvTime.c:126-147 | When the time chosen is the nearest with its timestamp, exactly |
| MediaTime.NotNearestAtTheEdge | Source/AvFifo/DtAvTime.c:136-142 | A time at the edge of a wrap for which it is not |
| MediaTime.ChosenTimeIsWithinHalfAWrap | Source/AvFifo/DtAvTime.c:132-147 | Away from the edges, it lies within half a wrap of the approximate time, and rounding |
| MediaTime.TimeOfDayRoundTrip | Source/AvFifo/DtAvTime.c:77-91 | A time of day survives the conversions exactly when its nanoseconds are less than a second |
| AsiRx.AsiRx.DeliverBytes | Source/Channel/DtAsiRx.c:474-525 | A read gives the first bytes of what was counted, in order; its internal error is for asking more than was counted, and for nothing else |
| AsiRx.AsiRx.ScanBuffer | Source/Channel/DtAsiRx.c:184-249 | A scan counts every packet in sync that there is room for, and none else, behind what was to be delivered, and leaves the sync and overflow flags so; it stops only when too little is left |
| AsiRx.AsiRx.ScanPacket | Source/Channel/DtAsiRx.c:202-228 | A packet in sync adds its output, or is dropped when it would not fit, or loses sync |
| AsiRx.AsiRx.ScanSearch | Source/Channel/DtAsiRx.c:229-242 | The search passes over what is before the stream, and makes progress when there is none |
| AsiRx.AsiRx.SkipBytes | Source/Channel/DtAsiRx.c:135-154 | Passing over bytes changes nothing of what is to be delivered |
| AsiRx.AsiRx.AdvanceReadOffset | Source/Channel/DtAsiRx.c:114-129 | The read offset moves past what was scanned, and the card is told |
| AsiRx.AsiRx.ReleaseScanned | Source/Channel/DtAsiRx.c:243-248 | With nothing to deliver, all that was scanned is given back |
| AsiRx.AsiRx.Peek | Source/Core/DtRing.c:119-154 | Bytes past the read offset are those the card wrote there, also around the end |
| AsiRx.AsiRx.ResetScan | Source/Channel/DtAsiRx.c:82-92 | Starting again, nothing is left to deliver |
| AsiStream.WalkPacket | Source/Channel/DtAsiRx.c:224-228 | A packet scanned adds its output at the end of what delivery will give |
| AsiStream.WalkSkip | Source/Channel/DtAsiRx.c:135-154 | A skip noted, joined to the last one or new, adds nothing |
| AsiStream.InSyncIsCounted | Source/Channel/DtAsiRx.c:184-249 | Of packets one behind the other that all decode and for which there is room, every one is counted |
| AsiStream.FirstRunIsFound | Source/Ts/DtTsTrp.c:138-163 | The search stops at the first place that starts enough packets, and at none before |
| AsiPackets.PacketIsDecoded | Source/Ts/DtTsTrp.c:66-124 | For each mode and stamp, what is delivered of a transparent packet that a card writes: 188 bytes, 204 bytes with zeros behind 188, the valid ones, or all with the trailer, behind nothing, the 54 MHz count or the time of day; and when it is out of sync |
| AsiPackets.StreamIsDelivered | Source/Ts/DtTsTrp.c:66-124 | Of any packets in sync, one behind the other, that of each, in order |
| AsiPackets.RunIsOfPackets | Source/Ts/DtTsTrp.c:126-156 | Where three packets' trailers are, the search stops exactly when they are in sync, in turn, and of counts that the mode takes |
| AsiStream.PacketGoesOn | Source/Channel/DtAsiRx.c:202-228 | After one packet, accepted, dropped or refused, the scan left comes to the same |
| AsiStream.SearchGoesOn | Source/Channel/DtAsiRx.c:229-242 | So it does after a search, whether it found a packet or not |
| Audio.RunKeepsSamples | Source/AvFifo/DtSt2110Audio.c:123-171 | However samples are divided over frames, those in packets and then those waiting are those of the frames, and every packet is full |
| Audio.RunKeepsTimes | Source/AvFifo/DtSt2110Audio.c:141-171 | Of frames stamped one after the other, packet i is stamped i packets of samples after the first |
| Audio.CutKeepsSamples | Source/AvFifo/DtSt2110Audio.c:144-157 | One frame's packets and what is left are its samples and those that waited |
| AudioTimes.FrameTods | Source/AvFifo/DtSt2110Audio.c:135-168 | Packet i of a frame leaves i packets of samples after the time of the first sample, less the delay, within a thousandth of a nanosecond a packet and the cut to nanoseconds; what is left over has the time behind them |
| AudioTimes.RunKeepsTods | Source/AvFifo/DtSt2110Audio.c:118-171 | Of frames timed one after the other, packet i of a run leaves i packets of samples after the base, left-overs included, never later, and earlier by a nanosecond a frame and a thousandth a packet at most |
| AudioTimes.LeftOversGoOn | Source/AvFifo/DtSt2110Audio.c:118-168 | When the time of samples left over, behind others left over, is exact |
| AudioTimes.LeftOversDrift | Source/AvFifo/DtSt2110Audio.c:118-168 | At 44.1 kHz it never is: a counterexample |
| AudioTimes.IntsAreShort | Source/AvFifo/DtSt2110Audio.c:153-154 | Frames of sizes that are ints, at 1000 samples a second or more, are short enough for the times to hold |
| AudioTimes.EncodedIsReceived | Source/AvFifo/DtSt2110Audio.c:93-116 | A receiver reads from each packet sent the time it leaves, its numbers, its timestamp and its samples |
| AudioPacketizer.AudioTx.Packetize | Source/AvFifo/DtSt2110Audio.c:123-171 | The loops in place make those packets, byte for byte, leave those samples, and count sequence number and identification on; a frame refused changes nothing |
| AudioPacketizer.AudioTx.PacketizeAll | Source/AvFifo/DtSt2110Audio.c:123-171 | Frames one after the other: the samples in their packets, and then those that wait, are all samples in order, and every packet is full |
| AudioPacketizer.AudioTx.PacketsForFrame | Source/AvFifo/DtSt2110Audio.c:65-74 | As many packets as the samples fill, or -1 when the frame cannot be sent |
| AudioPacketizer.AudioTx.KeepRest | Source/AvFifo/DtSt2110Audio.c:159-169 | What is left waits behind what waited already, with the times of the first of it |
| FramePool.Pool.Get | Source/AvFifo/DtAvFrame.c:44-114 | A frame got is one nobody has, free before or new, cleared, on its boundary and with room; without memory nothing changes hands |
| FramePool.Pool.Return | Source/AvFifo/DtAvFrame.c:118-136 | A frame is returned once: one that is free, or of another pool, is refused |
| FramePool.Pool.Owns | Source/AvFifo/DtAvFrame.c:140-149 | Whether the frame is one of the pool that is out |
| FramePool.Fifo.Push | Source/AvFifo/DtAvFrame.c:203-216 | Adds a frame behind the others, or counts an overflow |
| FramePool.Fifo.Pop | Source/AvFifo/DtAvFrame.c:220-233 | Takes the oldest |
| FramePool.Fifo.SetMaxSize | Source/AvFifo/DtAvFrame.c:259-285 | The frames stay, in order, whether the ring grows or not |
| TsStream.Stream.Next | Examples/Common/ExampleTsStream.c:552-567 | Demultiplexed by ISO/IEC 13818-1 section 2.4.3, the packets give back every frame's PES packet, from which a decoder gets its time, headers and colours; counters are continuous modulo 16 per PID; packets are null just when nothing is left to send, and from 5.076 Mbit/s on every frame starts at the packet of its time |
| TsStream.Stream.NextFrame | Examples/Common/ExampleTsStream.c:451-474 | A frame is taken up only when the last is all sent; its PES packet shows the picture |
| TsStream.Stream.PutVideo | Examples/Common/ExampleTsStream.c:481-520 | Sends as many of the next bytes of the PES packet as there is room for; a receiver finds the exact clock in the first packet of a frame, and none in the others |
| TsStream.Stream.PutTable | Examples/Common/ExampleTsStream.c:382-435 | Sends the three tables in turn, each with its own counter, and adds nothing to the video |
| TsStream.PeriodHasRoom | Examples/Common/ExampleTsStream.c:441-454 | At that rate the tables and the largest picture fit the period of any frame |
| TsStream.FirstPacketIs | Examples/Common/ExampleTsStream.c:437-447 | A frame's first packet is the one that is sent at the frame's time |
| TsStream.ClockIsRead | Examples/Common/ExampleTsStream.c:499-512 | ISO/IEC 13818-1 section 2.4.3.5: a receiver reads from a clock reference the time of its last byte, to the tick, modulo the clock's wrap |
| TsStream.ClockIsFound | Examples/Common/ExampleTsStream.c:486-517 | ISO/IEC 13818-1 section 2.4.3.4: the clock reference is where a receiver looks for it in a packet, and none where there is none |
| TsStream.RestIsStuffing | Examples/Common/ExampleTsStream.c:486-517 | The field has no other flag, and behind the clock reference only stuffing |
| TsStream.ClockIsExact | Examples/Common/ExampleTsStream.c:502-505 | The clock worked out in two parts is that of all bits sent, rounded down |
| TsStream.OneMorePacket | Examples/Common/ExampleTsStream.c:552-567 | What one more packet does to the units demultiplexed, the counts and their continuity |
| TsStream.SectionIsValid | Examples/Common/ExampleTsStream.c:361-376 | A section's CRC comes out zero and its length is what follows |
| TsStream.TablesLeadToVideo | Examples/Common/ExampleTsStream.c:386-415 | The PAT leads to the PMT, and that to the video and the clock |
| TsStream.ServiceIsRead | Examples/Common/ExampleTsStream.c:416-433 | ETSI EN 300 468 sections 5.2.3 and 6.2.33: the description is of service 1, digital television, with its provider and name |
| TsStream.TablesAreOfOneProgram | Examples/Common/ExampleTsStream.c:384-415 | The three tables are of one transport stream, and PAT and PMT of that program |
| TsStream.ProgramHasNoDescriptors | Examples/Common/ExampleTsStream.c:396-414 | The PMT has no descriptors and no other stream |
| TsStream.UnitsShowFrames | Examples/Common/ExampleTsStream.c:552-567 | As many units as are complete show their pictures |
| TsPackets.VideoIsParsed | Examples/Common/ExampleTsStream.c:481-520 | A packet of any payload up to its room is parsed to just that payload, with or without a clock reference, also with one byte of stuffing |
| TsPackets.HeaderIsParsed | Examples/Common/ExampleTsStream.c:347-353 | PID, start flag, control and counter are read back |
| TsPackets.SectionChecks | Examples/Common/ExampleTsStream.c:331-341 | ISO/IEC 13818-1 annex A: any bytes and their CRC have a CRC of zero |
| TsPackets.GeneratorIs | Examples/Common/ExampleTsStream.c:331-341 | ISO/IEC 13818-1 annex A: the generator's terms, and the division starts from ones |
| TsPackets.CrcOfMore | Examples/Common/ExampleTsStream.c:331-341 | The CRC of bytes is that of the first ones carried on over the others |
| TsPicture.PictureRoundTrip | Examples/Common/ExampleTsStream.c:250-323 | ISO/IEC 13818-2 section 6.2: any picture coded is decoded to its colours, block by block, and its headers' fields |
| TsPicture.CodeFrame | Examples/Common/ExampleTsStream.c:457-471 | A frame's PES packet fits the capacity given for it, and a decoder gets time, headers and colours from its bytes |
| TsPicture.PesRoundTrip | Examples/Common/ExampleTsStream.c:457-470 | ISO/IEC 13818-1 section 2.4.3.7: the 33 bits of the time are read back, and the payload |
| TsPicture.TimesGoOn | Examples/Common/ExampleTsStream.c:457-460 | Frames are presented half a second after they are sent, 40 ms apart |
| TsPicture.HeadersAreRead | Examples/Common/ExampleTsStream.c:256-303 | Headers are found at their start codes and every field read back |
| TsPicture.HeadersFit | Examples/Common/ExampleTsStream.c:256-303 | No header field is too large for its bits, whatever the frame's number |
| TsPicture.TimeCodeIsFrame | Examples/Common/ExampleTsStream.c:277-285 | The time code tells the frame of the day |
| TsPicture.HeadersTell | Examples/Common/ExampleTsStream.c:256-303 | The values that a decoder reads from the headers: size, rates, profile, and a whole progressive I picture |
| TsPicture.SlicesAreRead | Examples/Common/ExampleTsStream.c:305-321 | Slices are found and decoded one after the other |
| TsEncoder.EncodePicture | Examples/Common/ExampleTsStream.c:250-323 | Writes headers and slices, each from a whole byte on, and never more than the capacity |
| TsEncoder.PutSlice | Examples/Common/ExampleTsStream.c:305-321 | A slice's bits, and how many at most |
| TsEncoder.PutBlock | Examples/Common/ExampleTsStream.c:231-243 | Writes the bits of one difference and remembers the value |
| TsEncoder.PutHeader | Examples/Common/ExampleTsStream.c:256-264 | A start code on a whole byte and the fields behind it |
| TsVideo.SliceRoundTrip | Examples/Common/ExampleTsStream.c:310-320 | Decoding a slice of any colours gives them back, whatever follows |
| TsVideo.BlocksRoundTrip | Examples/Common/ExampleTsStream.c:316-319 | Any sequence of DC blocks is decoded to its differences |
| TsVideo.BlockRoundTrip | Examples/Common/ExampleTsStream.c:231-243 | ISO/IEC 13818-2 section 7.2.1: a block is decoded to its difference, negative ones too, whatever follows |
| TsVideo.SizeIsDecoded | Examples/Common/ExampleTsStream.c:217-225 | The two tables are the prefix codes of Tables B.12 and B.13: no code starts another |
| TsVideo.MacroblockIsSmall | Examples/Common/ExampleTsStream.c:533-534 | No macroblock takes more than 106 bits; 118 are given to it |
| TsVideo.BitWriter.Put | Examples/Common/ExampleTsStream.c:196-204 | Adds the lowest bits of a value behind those written and changes no others |
| TsVideo.BitWriter.PutStartCode | Examples/Common/ExampleTsStream.c:210-215 | Fills the byte with zeros and adds the start code |
| PatternSource.VideoSource.Frame | Examples/Common/ExampleAvFifo.c:315-342 | A copy of the packed first image with the two changed parts packed again is the whole image of the frame, whatever frames came before |
| PatternReader.NumberComesBack | Examples/Common/ExampleAvFifo.c:350-395 | The number of a packed frame is read back modulo 2^32, from 10-bit groups, from 8-bit ones and from planes |
| PatternReader.ReadFrameNumber | Examples/Common/ExampleAvFifo.c:350-395 | Finds a number exactly when the code's line holds one, of a frame neither 4:2:0 nor too wide, in each format |
| PatternReception.NumberArrives | Examples/Common/ExampleAvFifo.c:350-395 | From a packed frame or field that is sent to one that the library delivers: in each format for its video its number is read back, modulo 2^32, exactly when size and payloads do not make the video seem 4:2:0 and, of ten bits received in eight, the width is one of those named; else, or for more than 8192 pixels a line, none is found |
| PatternReception.NumbersArrive | Examples/DtTransmit2110.c:66-94 | The same over a whole run: of the frames that the transmit example numbers and sends, each but the first is delivered and tells its number, or none tells any |
| PatternReception.ExampleIsStarted | Examples/DtTransmit2110.c:127-146 | What it configures is accepted for any size and whole rate, with payloads of 1420 bytes |
| PatternReception.WideIsClear | Source/AvFifo/DtSt2110Video.c:505-511 | From 710 pixels a line in eight bits and 568 in ten, its video is not taken for 4:2:0 |
| PatternReception.ReadableIsTold | Examples/Common/ExampleAvFifo.c:371-380 | Received in eight bits, its ten-bit video tells numbers exactly at the widths named, up to 8192 pixels, whatever its height |
| PatternReception.SmallTellsNone | Examples/Common/ExampleAvFifo.c:358-359 | Of its video of 320 by 240 no number is found: a counterexample |
| PatternReception.NumberInEightBits | Examples/Common/ExampleAvFifo.c:371-389 | The same for ten-bit frames received in eight bits, as groups or as planes of them |
| PatternReception.LumaComesAsSent | Examples/Common/ExampleAvFifo.c:249-256 | Which luma samples of a ten-bit group come as they were sent once received in eight bits, exactly |
| PatternReception.LumaBytes | Source/AvFifo/DtAvPixConv.c:74-127 | The luma bytes of any ten-bit group that is sent and received in eight bits |
| PatternReception.BlackComesAsGrey | Examples/Common/ExampleAvFifo.c:249-256 | A black group of ten bits, for one, comes with a first pixel that is neither light nor dark |
| PatternSource.PackArea | Examples/Common/ExampleAvFifo.c:223-259 | Packs the groups that the part is widened to, and changes no other |
| PatternSource.GroupRoundTrip | Examples/Common/ExampleAvFifo.c:242-256 | A group's luma is read back, in 8 bits without its two lowest |
| PatternSource.ColourRoundTrip | Examples/Common/ExampleAvFifo.c:242-256 | So are its colours, blue in front of the first luma and red behind it |
| PatternSource.VideoSource.constructor | Examples/Common/ExampleAvFifo.c:295-296 | The first image packed |
| Pattern.TestPattern.Draw | Examples/Common/ExamplePattern.c:267-288 | The image after drawing depends on the frame's number alone |
| Pattern.TestPattern.Changes | Examples/Common/ExamplePattern.c:292-309 | Outside the parts named the image is the first one |
| Pattern.DrawBox | Examples/Common/ExamplePattern.c:153-185 | The loops over blocks and digits fill the box's rectangles in order |
| Pattern.FillLuma | Examples/Common/ExamplePattern.c:136-145 | Sets a rectangle and nothing else |
| Pattern.Init | Examples/Common/ExamplePattern.c:195-249 | The first image, or none for a size that has no room for the box, or without memory |
| Pattern.ReadNumber | Examples/Common/ExamplePattern.c:323-350 | Finds a number exactly when all blocks are light or dark and the marks are there, and gives it |
| PatternImage.DrawingIsIncremental | Examples/Common/ExamplePattern.c:267-288 | From any frame's image, or the first, restoring the bar and drawing bar and box gives the image of the new frame |
| PatternImage.BoxCovers | Examples/Common/ExamplePattern.c:153-185 | What the box covers does not depend on what was there, and nothing outside changes |
| PatternImage.BarMoves | Examples/Common/ExamplePattern.c:272 | The bar goes on by 16 pixels a frame, modulo the width |
| PatternImage.BarIsShown | Examples/Common/ExamplePattern.c:267-288 | In the grey part, outside the box, pixels are white just in the bar of the frame's number |
| PatternImage.NumberIsShown | Examples/Common/ExamplePattern.c:323-350 | For every size that has a pattern the number is in the code's line, also when samples were cut to 8 bits |
| PatternImage.CodeIsFound | Examples/Common/ExamplePattern.c:63-69 | Images of one width have the code in the same columns, and images of one height on the same lines |
| PatternImage.SizeIsSupported | Examples/Common/ExamplePattern.c:198-202 | Which sizes have a pattern, exactly |
| PatternImage.TallHasNoPattern | Examples/Common/ExamplePattern.h:69-72 | A size of at least 320 by 240 that has none |
| Mailbox.AnswersMatch | Examples/Common/ExampleMailbox.c:137-234 | In every interleaving of askers, whose waits may end at any time, an Ask gets the answer given to its own item exactly when the owner answers what it took before it takes again |
| Mailbox.MixedUp | Examples/Common/ExampleMailbox.c:137-234 | A run in which an owner that takes twice gives one Ask the answer to another item |
| Mailbox.StepKeepsInv | Examples/Common/ExampleMailbox.c:137-234 | One Ask waits exactly while the mailbox is in use, and what is in it is its own |
| Mailbox.TakingTwiceMismatches | Examples/Common/ExampleMailbox.c:137-148 | An owner that takes again before it answers mixes them up |
| Mailbox.AnsweredIsCollected | Examples/Common/ExampleMailbox.c:165-177 | An answer given in time stays until it is collected |
| Mailbox.ExampleMailbox.AskBegins | Examples/Common/ExampleMailbox.c:152-165 | Posts an item unless one is there |
| Mailbox.ExampleMailbox.AskEnds | Examples/Common/ExampleMailbox.c:165-177 | Collects the answer, or withdraws the item |
| Mailbox.ExampleMailbox.TakeItem | Examples/Common/ExampleMailbox.c:223-234 | Takes the item that waits, if it fits |
| Mailbox.ExampleMailbox.AnswerItem | Examples/Common/ExampleMailbox.c:137-148 | Answers an item that is taken; else the answer is dropped |

## Left out

- Integer overflow of sums that stay within their types for the sizes the library accepts: the counts of the parser, the sizes of buffers and offsets (below half of 2^31) are unbounded integers here; wrap-around is modelled where the source relies on it (sequence numbers, timestamps, 64-bit times).
- A source buffer is a value in the conversions and packetizers, so that source and destination never overlap; the callers never make them.
- The planes of interlaced planar frames: their distance follows from a learned size of one row more; what is proved is that they are apart and filled in order.
- VideoStart.PacingFillsThePeriod: is about divisors within 64 bits. Without a gap all are (`VideoStart.DivisorFits`); with one, those of the parts that Configure chooses are up to 7.6 million packets a frame.
- AsiRx.AsiRx.ScanBuffer: keeps one overflow flag, not its latched copy, nor the decoder's flag for packets without sync.
- AudioPacketizer.AudioTx.Packetize: writes packets into plain memory, where the source commits them to a pipe; the pipe's writer is modelled with video.
- PatternReception.NumberArrives: is about video that is not sent as 4:2:0, as the examples' is not, and about the receive formats that the library has for a video's bit depth; what a format for the other depth makes of it is not modelled.
- The application's calls fall between two packets of a pass or outside it, since the pool and the FIFO lock theirs.
- AsiStream.FirstRunIsFound: that the packets found are the stream's is more than a check of trailers can promise.
- The transmit thread for audio and raw streams.
- Waiting and locking of the mailbox: each call's section under the lock is one step.
- Receiving audio, raw streams, driver commands, sockets, addresses, error texts: single-branch facts or foreign calls.
- The test tone and the numbered packets of the ASI examples.
- The picture that the transport stream shows, colours, text and time code in blocks, is any picture of 36 by 45 colours here.
- Pattern.TestPattern.Draw: an image's lines are rows of an array of two dimensions here, and so are a packed frame's; the colours of the bars, computed in floating point, are parameters.
- Processor detection and big-endian hosts: the tables are proved equal on little-endian ones.
