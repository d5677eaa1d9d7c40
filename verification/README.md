# Verification of onwards' codec, framing and middle tier

A Dafny model of four parts of the repository and proofs about them:

- the QuickLZ level 3 streaming codec with a history of 100000 bytes (`src/quicklz.h`),
- frames, variable-length integers and the compressed buffer (`src/cmwBuffer.hh`),
- the middle tier's event loop and its file reader (`src/tiers/cmwAmb.cc`),
- the submission and completion rings (`src/tiers/ring_setup.hh`).

Check everything with `dafny verify dfyconfig.toml`.

## How it is built

Code that updates arrays and fields in place is modelled by methods over arrays and classes. Each method is
proved equal to a specification function on values, and the theorems are about those functions.

| file | content |
|---|---|
| `Bytes.dfy` | bytes, little-endian words, powers of two |
| `Tokens.dfy` | tokens (literal or match), what they expand to, the five match formats |
| `ControlWord.dfy` | flag bits, 31 tokens to a word, the writer's accumulator, `Emit`: a token list as bytes |
| `Reader.dfy` | the reference decoder: one token at a time |
| `HashTable.dfy` | 4096 buckets of 16 positions with counters that wrap at 256 |
| `Matcher.dfy` | the search, `Run`: the exact tokens a run emits or that it gives up, and its length |
| `Compress.dfy` | the compressor in place, equal to `Run` followed by `Emit` |
| `Decompress.dfy` | the fast decompressor in place, equal to the reference decoder |
| `Packet.dfy` | headers, the state both ends carry, the streaming round trip |
| `Stream.dfy` | the two entry points on arrays, the state between calls |
| `Varint.dfy` | variable-length integers |
| `Framing.dfy` | frames, the send buffer with rollback, the receive buffer and its walk |
| `Compressed.dfy` | the compressed buffer: queue, receiving in place, end-to-end delivery |
| `Overlap.dfy` | real messages whose packets are let through and cannot be decompressed in place |
| `Lines.dfy` | the chunked line reader against splitting |
| `EventLoop.dfy` | the completion loop as a state machine: entries, reply slots, receive buffer, output queue, connection |
| `MiddleTier.dfy` | the loop as code |
| `Refusals.dfy` | refusals passed on, and runs in which the loop's guarantees end |
| `Cleared.dfy` | replies that leave an entry cleared, and who is turned away for it |
| `Replies.dfy` | what front tiers are told, on the bytes of the replies, and when the program ends |
| `Rings.dfy` | ring queues over 32-bit counters, memory layout of the rings |

Conventions: pointers are array indices. Control words and match words are naturals below 2^32; where the code
ORs fields together they do not overlap, so the model adds them, and a shift is a multiplication or division by
a power of two. A table of 4096 structs of 16 pointers is one array of 65536 positions. A four-byte load past
the end of an array yields zeros for the missing bytes; nothing depends on them. The configuration is the one
the repository compiles: level 3, streaming buffer 100000, an x86-64 build, so wide loads and stores and the
three-byte store that writes four. Exceptions are `None`, `false` or `Full`; `Overrun` is a copy past the end of
a buffer, after which nothing is promised. In the event loop a receive belongs to the kernel from the moment its
entry is submitted, and an entry that names the registered socket uses the one registered when it is submitted.

## What holds only under a condition

- A packet is decompressed onto the front of the buffer whose end it is parked in. The size test in `gotHdr`
  does not ensure that this is safe. `FitsInPlace` says for every packet from the compressor that passes the test
  whether there is room: always through the history; for a stored packet that bypasses it up to half the buffer
  (exactly, as the copied regions overlap otherwise); for a compressed one when at every token boundary the reader is
  three bytes in front of the writer. That is enough; where the reader is behind the writer, message and unread packet
  cannot both be in memory unless they agree there (`BothInMemory`). Within `Margin` only the stored ones lack room.
  Inputs without room are `StoredInput` and, outside `Margin`, the compressed sample of `SampleLetThrough`, which
  `SampleInPlace` decompresses store by store to something else.
- A size is converted to the index type before it is compared with the room. `GrantSound` says for which sizes the
  test can be relied on, `OverrunExactly` which marshal calls copy past the end of their buffer. A refusal does so
  for the lengths in `RefusalFateExactly`, and `SmashedRun` reaches it.
- `AdjustFrame` forgets how much was handed out. The queue stays a FIFO exactly when the acknowledged bytes are
  those handed out so far; with fewer, bytes still in flight are handed out again (`AcknowledgedEarly`). The event
  loop acknowledges too little exactly when a send is on its way at the head of the loop (`HandleTally`); in
  `SentTwice` this happens with three requests.
- `Flush` leaves `bytesSent` alone: exactly when nothing had been handed out before, each byte goes out once.
- The text of a refusal is copied after the receive of the next header may have been submitted. `TornExactly` says
  when it arrives whatever that receive writes; `TornRun` reaches a state in which it does not.
- A relogin leaves queued entries queued. One receive is outstanding afterwards exactly when none was queued
  (`ReloginInStep`); `TwoReceives` reaches two.
- A reply whose file cannot be read or opened, or whose text the reply slot refuses, leaves an entry cleared
  (`HandleIdle`). The entry's own completion passes for a lost connection. Over runs in which none is lost the
  connection is given up exactly once for each such reply (`GivenUpExactly`), and someone is about to be turned away if
  and only if there was one (`TurnedAwayExactly`). `ClearedRun` is such a run.
- The program ends on other failures, on headers larger than the buffer and on refusals that run past their slot, and
  on nothing else (`EndsExactly`).
- A reader stays in its frame or packet exactly when lengths, read as signed numbers, are not negative (`Give`,
  `GiveFixedString`, `GiveFile`, `GiveStringView`) and the packet is made of frames (`NextMessage`).
- The output bound size + size/8 + 400 does not follow from token sizes alone (a control word per 31 tokens is
  more than an eighth); `RunLength` needs the ratio test of the second half.

## Model

| member | source | states |
|---|---|---|
| Tokens.CopyMatchUnique | src/quicklz.h:278-298 | the byte-wise overlapping copy is the only continuation of the window with the match's period, so any copy that achieves the period is right |
| Tokens.TailIsLiteral | src/quicklz.h:584-617 | less than 11 bytes before the end no match can stand, so the remaining tokens are all literals, one per byte |
| Tokens.LastFourAreLiteral | src/quicklz.h:447-447 | in every legal token list the last four message bytes are literals |
| Tokens.ReadMatchInverts | src/quicklz.h:706-738 | offset, length and width of all five match formats read back exactly, whatever bytes follow the match word |
| Tokens.ShortestFormat | src/quicklz.h:515-544 | of all match words a reader takes for an offset and length, the one written is the shortest and of equally short ones has the lowest tag |
| Tokens.MatchBytes | src/quicklz.h:515-544 | the five formats byte by byte, with the offsets and lengths each is used for |
| ControlWord.AccFull | src/quicklz.h:349-349 | the accumulator's low bit is set exactly when 31 flags have been shifted in |
| ControlWord.AccPush | src/quicklz.h:512-512 | one shift plus top bit takes the accumulator of a group to that of the group with one more token |
| ControlWord.BitIsToken | src/quicklz.h:355-355 | bit k of a full control word is set exactly when token k is a match, and bit 31 always |
| ControlWord.EmitClosed | src/quicklz.h:355-360 | full groups of 31 tokens can be written before anything is known about later tokens |
| ControlWord.EmitLength | src/quicklz.h:515-551 | an encoding is no longer than what it stands for plus four bytes per 31 tokens |
| Reader.ParseEmit | src/quicklz.h:644-802 | the reference decoder reads back any encoded token list from any place inside a control word, with any bytes behind it |
| HashTable.InsertBefore | src/quicklz.h:494-497 | inserting a position keeps every trusted slot below the next position, counter wrap included |
| HashTable.SlotsAreMostRecent | src/quicklz.h:495-497 | after any history of insertions each of the last 16 positions put into a bucket sits in the slot its number gives, and the counter is their number modulo 256 |
| HashTable.TrustedSlots | src/quicklz.h:470-472 | every slot the search may look at holds one of the last min(counter,16) insertions since the reset, even after the counter wrapped |
| HashTable.TrustedAreRecent | src/quicklz.h:443-510 | the slots the search may look at hold exactly the most recent insertions into the bucket, as many as the wrapped counter says |
| HashTable.HashBits | src/quicklz.h:166-173 | bit k of a bucket number is bit k of the three bytes XORed with bit k + 12, for the twelve bits there are |
| HashTable.EntriesAt | src/quicklz.h:494-510 | the entries of a range are its positions one by one in order, each under the hash of its own three bytes |
| Matcher.SearchIsBest | src/quicklz.h:457-493 | the search returns a slot's position whose match is at least as long as every usable slot's, and the nearest of equally long ones |
| Matcher.NextTokenExpands | src/quicklz.h:499-551 | the token chosen at a position is legal there and expands to exactly the bytes standing there |
| Matcher.MatchEnds | src/quicklz.h:447-481 | an emitted match copies equal bytes and ends because it has 255 bytes, or four are left to the end, or the next bytes differ |
| Matcher.RunSound | src/quicklz.h:347-617 | whatever a completed run emits is legal and expands to the rest of the message, for every table |
| Matcher.RunBefore | src/quicklz.h:494-510 | a run keeps every trusted slot inside the window |
| Matcher.BestIsRecent | src/quicklz.h:443-510 | with the table left by any insertions since a reset, the search finds the most bytes, up to 255 and four before the end, that stand at one of the most recent ones at least three back, the nearest of equals, or nothing when there is none |
| Matcher.ChoosesOne | src/quicklz.h:443-510 | that choice is unique |
| Matcher.RunChooses | src/quicklz.h:424-562 | all a run does to the table is to enter the positions it passes, in order, all of them up to the last 10 bytes when it completes, and every match it emits is the longest and nearest copy from the recent insertions at that point |
| Matcher.GivesUpExactly | src/quicklz.h:349-353 | a run gives up if and only if the tokens chosen from the start of the message come to closed groups past the middle that save less than a 32nd |
| Matcher.RunLength | src/quicklz.h:351-353 | an encoding exceeds the message by at most an eighth plus 8, and by at most 8 for messages over 15830 bytes, because of the ratio test |
| Compress.CompressState.constructor | src/quicklz.h:89-97 | the zeroed state has an empty history and trusts no slot |
| Compress.CompressState.ResetTable | src/quicklz.h:142-153 | clears all counters, keeps the slots |
| Compress.CompressState.InsertAt | src/quicklz.h:494-497 | one insertion into bucket and slot by the wrapping counter |
| Compress.CompressState.InsertFrom | src/quicklz.h:505-510 | continues a range of insertions position by position |
| Compress.CompressState.ExtendMatch | src/quicklz.h:479-481 | the length of the common run, capped |
| Compress.CompressState.FirstSlot | src/quicklz.h:457-469 | slot 0's special case is the same improvement step as for every other slot |
| Compress.CompressState.LaterSlot | src/quicklz.h:472-492 | a slot replaces the best so far when it is longer, or as long and nearer |
| Compress.CompressState.FindMatch | src/quicklz.h:447-494 | the loop over slots finds the best of the trusted slots and reads no other; what it finds cannot be longer: 255 bytes, four before the end, or the next bytes differ |
| Compress.FastWrite | src/quicklz.h:216-250 | stores the low bytes in order; three bytes touch one more and nothing else |
| Compress.WriteMatch | src/quicklz.h:515-544 | writes the match in the format of the specification, which is the shortest there is, and touches at most four bytes |
| Compress.Choose | src/quicklz.h:443-510 | yields the specified token and inserts every position it covers |
| Compress.AtBoundary | src/quicklz.h:351-353 | the specification stops exactly at a full group past the middle with more written than consumed less a 32nd, in the numbers the loop has |
| Compress.NextGroup | src/quicklz.h:349-361 | closes a full group in its reserved word and reserves the next |
| Compress.MainLoop | src/quicklz.h:347-583 | reaches the state the specified run is in when no match may start any more, or gives up exactly when it does |
| Compress.TailLoop | src/quicklz.h:584-617 | completes the specified run with literals |
| Compress.ShiftOut | src/quicklz.h:619-622 | shifting the sentinel out of a partly filled accumulator gives the group's control word |
| Compress.CompressCore | src/quicklz.h:331-626 | the output is the encoding of the specified run's tokens, the table is the run's table, zero means it gave up, and nothing is written outside size + size/8 + 12 bytes, abandoned attempts included |
| Decompress.MemcpyUp | src/quicklz.h:278-298 | four-byte copies in steps of three equal the byte-wise overlapping copy for every distance of at least three and overshoot by at most three bytes |
| Decompress.BitlutIsTrailingZeros | src/quicklz.h:637-637 | the lookup table counts the clear flags below the lowest set one, up to four |
| Decompress.BatchSize | src/quicklz.h:763-771 | a batch takes between one and four tokens that are all literals and all in the current control word |
| Decompress.StoreMatch | src/quicklz.h:701-752 | whatever is in memory: a match is read where the source stands and copied byte by byte behind the destination, at most three bytes too far |
| Decompress.StoreBatch | src/quicklz.h:761-771 | whatever is in memory: four bytes are copied and as many count as the lookup table says |
| Decompress.WriteStaysBehind | src/cmwBuffer.hh:460-471 | with room for the control words behind the message, a write three bytes too far stays before every unread packet byte |
| Decompress.SizeIsRoom | src/cmwBuffer.hh:460-471 | with that much room the reader is three bytes in front of the writer at every token boundary, for every token list |
| Decompress.BothInMemory | src/cmwBuffer.hh:460-471 | where the reader is behind the writer no memory holds both the message so far and the unread packet, unless they agree there |
| Decompress.Tail | src/quicklz.h:778-793 | the literal-only loop delivers the rest of the message, skipping control words unread |
| Decompress.TakeMatch | src/quicklz.h:701-752 | one match advances the expansion, in place or not |
| Decompress.TakeLiterals | src/quicklz.h:761-771 | one batch advances the expansion by its literals although four bytes are copied |
| Decompress.Loop | src/quicklz.h:644-802 | the three branches together produce the final window |
| Decompress.DecompressCore | src/quicklz.h:628-803 | for every well-formed body the result is the reference decoder's and no byte outside the message is changed, in another array or, when at every token boundary the reader is three bytes in front, in the same one |
| Packet.HeaderReadsBack | src/quicklz.h:862-877 | both size fields, the header size and the flag read back for either header form |
| Packet.HeaderBits | src/quicklz.h:862-881 | every bit of the flag byte, and the fields of one byte below 216 and of four, low byte first, otherwise |
| Packet.NineBytesSuffice | src/quicklz.h:253-275 | the first nine bytes of any packet determine all its header fields |
| Packet.AfterOk | src/quicklz.h:819-861 | between messages the table trusts only positions inside the history, through resets and stored packets |
| Packet.AfterKnows | src/quicklz.h:819-861 | one message adds its insertions to those since the last reset, or all is forgotten; the table is always what these insertions make it |
| Packet.AlwaysKnows | src/quicklz.h:819-861 | the same after any number of messages: no slot the search may look at is stale |
| Packet.EmittedAreBest | src/quicklz.h:443-510 | every match in a packet is the longest copy within the limits, and of those the nearest, among the most recent insertions since the last reset, of this message or earlier ones |
| Packet.StoredExactly | src/quicklz.h:349-353 | a message is stored if and only if its tokens, chosen from the start among all insertions since the last reset, come to full groups of 31 past its middle and at least 11 bytes from its end that save less than a 32nd |
| Packet.PackedPays | src/quicklz.h:349-353 | in a compressed packet no full groups are such |
| Packet.HistoryExactly | src/quicklz.h:819-861 | both ends append a message to the history exactly when both together have at most 100000 bytes, and start over otherwise |
| Packet.GivingUpTakesData | src/quicklz.h:351-353 | a run gives up only on messages of at least 31 bytes |
| Packet.HeaderFaithful | src/quicklz.h:805-883 | for every accepted size a packet has at least 9 bytes, at most size + size/8 + 400, its length fits its field without truncation and both sizes read back exactly; a stored body is the message, a compressed one its encoding padded to nine bytes |
| Packet.CoreInverse | src/quicklz.h:331-803 | for every input, history and table, a completed run's output is a body that decodes to the input |
| Packet.PacketRoundTrip | src/quicklz.h:805-923 | a receiver with the same history accepts the packet, gets the message and ends with the sender's history |
| Packet.StreamRoundTrip | src/quicklz.h:805-923 | every sequence of messages of accepted sizes arrives unchanged from any state with equal histories |
| Stream.FreshBody | src/quicklz.h:822-839 | a message that no longer fits behind the history is compressed alone and history and table are dropped |
| Stream.StreamBody | src/quicklz.h:842-860 | any other message is appended to the history and compressed against it; a stored one resets the table |
| Stream.WriteHeader | src/quicklz.h:862-877 | writes the header of either form and nothing else |
| Stream.QlzCompress | src/quicklz.h:805-883 | writes the specified packet, moves to the specified state, rejects size 0 and sizes over the limit without effect, stays within size + size/8 + 400 |
| Stream.DecodeFresh | src/quicklz.h:892-904 | decodes without history, directly to the destination |
| Stream.DecodeStream | src/quicklz.h:906-920 | decodes onto the history and copies the message out |
| Stream.QlzDecompress | src/quicklz.h:885-923 | delivers the specified message and history, also when packet and destination share a buffer and the packet is read ahead of the writer |
| Varint.DecodeEncode | src/cmwBuffer.hh:78-105 | decoding an encoding gives the value and leaves what follows |
| Varint.EncodeDecode | src/cmwBuffer.hh:78-105 | re-encoding a decoded string gives the same bytes, so no value has two encodings |
| Varint.LengthMonotone | src/cmwBuffer.hh:95-105 | larger values never have shorter encodings |
| Varint.Int32RoundTrip | src/cmwBuffer.hh:71-106 | every 32-bit value, negative ones through wraparound, comes back from at most five bytes |
| Varint.ReadOn | src/cmwBuffer.hh:82-88 | the reader's wrapping 32-bit steps agree with unbounded decoding modulo 2^32 |
| Framing.SplitConcat | src/cmwBuffer.hh:219-234 | the walk over a concatenation of frames finds exactly those frames |
| Framing.ConcatSplit | src/cmwBuffer.hh:219-234 | the frames found make up the whole packet |
| Framing.FrameIsFrame | src/cmwBuffer.hh:326-336 | a completed frame's length field is its own length |
| Framing.StringReadsBack | src/cmwBuffer.hh:374-377 | a string sent length first is read back whatever follows it |
| Framing.SendBuffer.ReserveBytes | src/cmwBuffer.hh:307-312 | reserves exactly when the size in the index type is within the room; the buffer stays sound exactly when that does not move the index in front of the open frame |
| Framing.SendBuffer.Receive | src/cmwBuffer.hh:314-316 | appends the bytes, or raises, or copies past the end, each exactly as the size and its conversion to the index type decide |
| Framing.SendBuffer.PutVarint | src/cmwBuffer.hh:95-105 | appends the encoding exactly when it fits |
| Framing.SendBuffer.ReceiveAt | src/cmwBuffer.hh:318-324 | overwrites in place and disturbs no completed frame |
| Framing.SendBuffer.FillInSize | src/cmwBuffer.hh:326-331 | completes the open frame exactly when it is within the limit |
| Framing.SendBuffer.FillInHdr | src/cmwBuffer.hh:333-336 | id and length go in front of the payload |
| Framing.SendBuffer.Marshal | src/tiers/cmwAmb.mdl.hh:28-33 | unless a piece runs past the end, a frame is added whole or not at all and the saved bytes are the successful frames |
| Framing.GrantSound | src/cmwBuffer.hh:307-316 | the room test can be relied on for a size if and only if the size survives the conversion to the index type |
| Framing.NarrowIs | src/cmwBuffer.hh:307-316 | the conversion to the index type keeps the low 16 or 32 bits and reads them as a signed number |
| Framing.FortyThousand | src/cmwBuffer.hh:307-316 | 40000 bytes become -25536 in a 16-bit index and are granted whatever the room |
| Framing.SmallPieces | src/cmwBuffer.hh:307-316 | pieces that survive the conversion are written exactly when together they fit, and otherwise raise |
| Framing.OverrunExactly | src/cmwBuffer.hh:307-316 | a marshal call copies past the end if and only if one of its pieces is larger than what is left and its converted size is not |
| Framing.MarshalExactly | src/tiers/cmwAmb.mdl.hh:28-48 | without such pieces a frame is refused exactly when too long for the room or the limit |
| Framing.ReceiveBuffer.Give | src/cmwBuffer.hh:202-210 | for every int: the next bytes of the frame, or the exception exactly when it has fewer; what is copied lies in the frame if and only if the length is not negative |
| Framing.ReceiveBuffer.GiveFixedString | src/cmwBuffer.hh:511-516 | a string of fewer than N bytes, or the exception, or for a negative decoded length a copy out of the frame |
| Framing.ReceiveBuffer.GiveVarint | src/cmwBuffer.hh:80-89 | the decoded value modulo 2^32, or the exception when the frame ends first |
| Framing.ReceiveBuffer.GiveFile | src/cmwBuffer.hh:245-251 | on any bytes: a span, or the exception when the signed length is more than what is left; the span lies in the frame, and holds exactly the file, if and only if the length is not negative |
| Framing.ReceiveBuffer.GiveStringView | src/cmwBuffer.hh:263-269 | the same for a string and its decoded length |
| Framing.ReceiveBuffer.GiveBool | src/cmwBuffer.hh:272-278 | 0 and 1 are booleans, everything else raises |
| Framing.ReceiveBuffer.NextMessage | src/cmwBuffer.hh:219-228 | on any bytes and from any place in the buffer: the next frame is open if and only if what is left of the packet is made of frames; in a packet made of frames it goes through them one by one in order and ends after the last |
| Framing.ReceiveBuffer.Update | src/cmwBuffer.hh:230-234 | starts the walk, which stays in the packet if and only if it is made of frames |
| Framing.ReceiveBuffer.TakeFrames | src/cmwBuffer.hh:219-228 | walking a packet made of frames yields exactly its frames |
| Compressed.BufferCompressed.constructor | src/cmwBuffer.hh:423-434 | starts with empty queue, no frames and empty histories |
| Compressed.BufferCompressed.Enqueue | src/cmwBuffer.hh:441-441 | the packet is appended behind the queue without leaving the buffer |
| Compressed.BufferCompressed.CompressFrames | src/cmwBuffer.hh:436-443 | queues one packet of all collected frames, or refuses and drops them exactly when the worst case does not fit |
| Compressed.BufferCompressed.OutDuo | src/cmwBuffer.hh:445-449 | hands out exactly what was produced and not yet handed out |
| Compressed.BufferCompressed.AdjustFrame | src/cmwBuffer.hh:451-456 | drops acknowledged bytes; the queue stays a FIFO if and only if they are the bytes handed out |
| Compressed.AcknowledgeExactly | src/cmwBuffer.hh:451-456 | on the queue as a value: an acknowledgement keeps the order if and only if it is for the bytes handed out |
| Compressed.BufferCompressed.Flush | src/cmwBuffer.hh:480-483 | sends the whole buffer; if and only if nothing of it had been handed out each byte goes out once and the queue is empty and in order |
| Compressed.BufferCompressed.GotHdr | src/cmwBuffer.hh:460-466 | parks the packet at the end of the buffer, or raises exactly when its signed size or its message is larger than the buffer; the rest fits if and only if the size is at least nine |
| Compressed.BufferCompressed.Decompress | src/cmwBuffer.hh:468-471 | the parked packet's message ends up at the front of the same buffer; the walk over it stays inside exactly when it is made of frames |
| Compressed.BufferCompressed.GotPacket | src/cmwBuffer.hh:473-478 | a packet from the wire becomes its message and frames, or raises exactly when it does not fit |
| Compressed.BufferCompressed.CompressedReset | src/cmwBuffer.hh:485-490 | codec states, table slots and counters, queue and frames are those of a new buffer |
| Compressed.FitsInPlace | src/cmwBuffer.hh:460-471 | for every packet the size test lets through: its sizes, and when there is room where it is parked: always through the history; stored ones exactly up to half the buffer; compressed ones when their tokens keep the reader three bytes in front, which is enough |
| Compressed.MarginSuffices | src/cmwBuffer.hh:460-471 | with room for the control words every packet is let through and only a stored one over half the buffer that bypasses the history lacks room |
| Compressed.StoredOverlap | src/cmwBuffer.hh:460-471 | every stored packet over half the buffer that bypasses the history is let through although source and destination of the copy overlap |
| Overlap.StoredInput | src/quicklz.h:885-904 | a real one: history of 99960 bytes, buffer of 100, message 0 to 60 |
| Overlap.AllDifferentGivesUp | src/quicklz.h:341-362 | every message of 42 to 61 bytes that are all different is stored |
| Overlap.ReaderOutrun | src/quicklz.h:644-802 | with literals left after a closed group the reader is behind the writer exactly when the packet ends too close behind the message for their control words |
| Overlap.SampleRun | src/quicklz.h:331-626 | what the compressor makes of 21 zeros and the bytes 1 to 47: a group of 31 tokens and 20 literals |
| Overlap.SampleLetThrough | src/cmwBuffer.hh:460-471 | a buffer of just the message's size takes that packet although there is no room |
| Overlap.SampleFallsBehind | src/quicklz.h:644-752 | after the sample's match the reader is behind the writer |
| Overlap.SampleInPlace | src/quicklz.h:644-802 | decompressed in that buffer with the code's own stores, byte 21 of the result is not the message's |
| Compressed.EndToEnd | src/cmwBuffer.hh:436-490 | any number of batches of frames that fit the buffers are delivered as the same frames in the same order, from any state with equal histories |
| Compressed.BytesAsPackets | src/cmwBuffer.hh:460-478 | cutting the byte stream by nine bytes and the size they give finds exactly the packets sent |
| Compressed.EndToEndBytes | src/cmwBuffer.hh:436-490 | the same over the wire: the packets' bytes in one string become the frames of all batches in order |
| Compressed.SendBatch | src/cmwBuffer.hh:436-449 | frames are marshalled, packed and handed out: exactly the specified packet joins what was produced and handed out |
| Compressed.SendBatches | src/cmwBuffer.hh:436-456 | the bytes handed out over a run of batches are ones a receiver with the same history turns into the same frames |
| Compressed.ReceiveBatches | src/cmwBuffer.hh:460-478 | receiving packet after packet from the wire and walking each message yields exactly the frames the bytes deliver |
| Compressed.Session | src/cmwBuffer.hh:436-478 | both ends as they run: what was marshalled at one comes out at the other, batch by batch and frame by frame |
| Compressed.AcknowledgedEarly | src/cmwBuffer.hh:445-456 | a run that breaks the order: with a second packet out, acknowledging the first puts the second in the queue again |
| Lines.LineFound | src/tiers/cmwAmb.cc:35-43 | a short text without carriage return in front of a delimiter is returned as the line |
| Lines.LineExact | src/tiers/cmwAmb.cc:35-43 | each outcome happens exactly when the stream starts the matching way: line, carriage return, 120 characters without delimiter, or end |
| Lines.ReadsWhatWasJoined | src/tiers/cmwAmb.cc:35-43 | successive calls return exactly the lines the stream was joined from |
| Lines.JoinedLinesStartStream | src/tiers/cmwAmb.cc:35-43 | the lines returned, joined again, are how the stream starts |
| Lines.FileBuffer.Getc | src/tiers/cmwAmb.cc:27-33 | takes one character off the stream, however it is cut into chunks |
| Lines.FileBuffer.Getline | src/tiers/cmwAmb.cc:35-43 | result and remaining stream are those of the specification on the whole stream |
| EventLoop.HandleAlways | src/tiers/cmwAmb.cc:374-432 | every completion whatever keeps accepted requests equal to those answered, in order, followed by those waiting, and every queued reply intact in its slot |
| EventLoop.StartAlways | src/tiers/cmwAmb.cc:371-433 | the same over every run from the start |
| EventLoop.HandleInStep | src/tiers/cmwAmb.cc:374-432 | the assertion holds; and the loop stays in step with the back tier (deque, counts, each reply for its request, one alternating receive outstanding) if and only if no relogin finds a receive queued |
| EventLoop.ReloginInStep | src/tiers/cmwAmb.cc:381-387 | after a relogin one receive is outstanding if and only if none was queued before it |
| EventLoop.StartInStep | src/tiers/cmwAmb.cc:371-433 | over every run without such a relogin: the assertion holds, no request is answered with another's reply, headers and bodies alternate |
| EventLoop.HandleTally | src/tiers/cmwAmb.cc:127-137 | the bytes handed to the kernel stay those of the packets, each once and in order, if and only if acknowledgements and relogins find nothing on its way |
| EventLoop.StartTally | src/tiers/cmwAmb.cc:127-137 | over every run in which they do not: what was sent on this connection is the packets of its requests |
| Refusals.RefusalFateExactly | src/tiers/cmwAmb.cc:295-305 | a refusal is sent on exactly when its text has at most 1490 bytes; longer ones raise, or are copied past the slot exactly for the lengths whose low 16 bits are small or negative |
| Refusals.SmashedExactly | src/tiers/cmwAmb.cc:413-429 | a refusal destroys memory if and only if its length is one of these |
| Refusals.SmashedRun | src/tiers/cmwAmb.cc:371-433 | a run that gets there for every text of 32768 to 65535 bytes |
| Refusals.RefusalReadsBack | src/tiers/cmwAmb.cc:419-422 | what a refusing back tier sends is read as that text, behind the length in the frame |
| Refusals.SentText | src/tiers/cmwAmb.cc:295-305 | the text sent is what the receive buffer holds when it is copied, after the slot was taken |
| Refusals.TornExactly | src/tiers/cmwAmb.cc:413-429 | whatever the next header's receive writes, the text sent is the back tier's if and only if the slot does not wrap, or the text is empty or lies behind the header's bytes |
| Refusals.TornRun | src/tiers/cmwAmb.cc:371-433 | a run that sends another text: five datagrams refused and a refusal in one batch |
| Refusals.TwoReceives | src/tiers/cmwAmb.cc:381-387 | a run that ends with two receives on one connection |
| Refusals.SentTwice | src/tiers/cmwAmb.cc:127-137 | a run that sends a packet twice, for any three packets |
| Replies.SuccessReadsBack | src/tiers/cmwAmb.cc:419-421 | what a back tier sends for a file is read as a success of its size, the file right behind the nine bytes of the next header |
| Replies.SavedExactly | src/tiers/cmwAmb.cc:413-429 | over every reply: the front tier is told that its output is saved if and only if the reply's bytes are a one and a whole file with its length in front, and the file can be opened |
| Replies.SaidExactly | src/tiers/cmwAmb.cc:413-429 | over every reply: it is told a text if and only if the bytes are a zero and a text of at most 1490 bytes with its length in front; everyone else is told an exception's text |
| Replies.SuccessInFull | src/tiers/cmwAmb.cc:413-429 | a success answers the oldest request, queues the next header's receive, the writes and the reply in this order, and the write names the file's bytes, which are in the buffer whatever the kernel has written |
| Replies.RequestInFull | src/tiers/cmwAmb.cc:389-406 | what each kind of datagram leads to: nothing, one exception's text and no request, or a request and a send of all that was not handed out |
| Replies.HeaderInFull | src/tiers/cmwAmb.cc:410-412 | a header is in front of the buffer and leads to the receive of the rest of its packet at the buffer's end |
| Replies.FailureInFull | src/tiers/cmwAmb.cc:375-387 | for every operation and result: zero and -32 tell everyone waiting, in order; results of file writes and syncs change nothing; everything else ends the program and changes nothing else |
| Replies.OtherFailuresEnd | src/tiers/cmwAmb.cc:375-387 | over every run that is still going: no other failure has occurred |
| Replies.EndsExactly | src/tiers/cmwAmb.cc:371-433 | the program ends if and only if it meets another failure, a header larger than the buffer, or a refusal that runs past its slot |
| Replies.SlotsInTurn | src/tiers/cmwAmb.cc:295-299 | slots start over with each batch and after the fifth; a reply takes the next one, a refusal that raises the next two, nothing else takes any |
| Replies.FrontReadsRefusal | src/tiers/cmwAmb.mdl.hh:37-50 | the front tier reads the datagram of a refusal as false and the text with CMW and a colon in front |
| Cleared.SameFate | src/tiers/cmwAmb.cc:295-305 | what becomes of a refusal depends on its length only |
| Cleared.HandleIdle | src/tiers/cmwAmb.cc:202-218 | a completion adds a cleared entry if and only if it is a reply whose file cannot be read or opened or whose text the slot refuses, and takes one away if and only if it is such an entry's |
| Cleared.ClearsExcuses | src/tiers/cmwAmb.cc:423-427 | the front tier of such a reply is told the exception's text |
| Cleared.ClearedDropsOthers | src/tiers/cmwAmb.cc:374-387 | with no cleared entry before, a completion with result 0 can come in the next batch if and only if the reply was such a one; then everyone else waiting is turned away |
| Cleared.GivenUpExactly | src/tiers/cmwAmb.cc:371-433 | over every run without a lost connection: relogins and cleared entries outstanding together are the replies that left one |
| Cleared.NobodyTurnedAway | src/tiers/cmwAmb.cc:371-433 | over every run without a lost connection and without such a reply nobody is turned away |
| Cleared.ThreatenedExactly | src/tiers/cmwAmb.cc:374-387 | someone can be turned away without a lost connection or a further such reply if and only if a cleared entry has not completed |
| Cleared.TurnedAwayExactly | src/tiers/cmwAmb.cc:371-433 | over every run without a lost connection, up to the first relogin: someone is about to be turned away if and only if there was such a reply |
| Cleared.ClearedRun | src/tiers/cmwAmb.cc:371-433 | a run that turns a request away, for every such reply to the request before it |
| MiddleTier.Loop.SubmitAll | src/tiers/cmwAmb.cc:73-77 | every queued receive and send is the kernel's, in order, and the queue is empty |
| MiddleTier.Loop.TakeSlot | src/tiers/cmwAmb.cc:295-299 | takes the next slot; past the last one everything is submitted first and the kernel may write |
| MiddleTier.Loop.SendReply | src/tiers/cmwAmb.cc:295-310 | the reply is queued, its slot says it, and every reply queued and not yet submitted is still in its slot |
| MiddleTier.Loop.PassRefusal | src/tiers/cmwAmb.cc:301-310 | marshals the text into a 16-bit buffer: queued, replaced by the exception's text, or past the end |
| MiddleTier.MarshalRefusal | src/tiers/cmwAmb.cc:295-305 | the marshal call on a buffer of 1500 bytes comes to the specified fate, and when it is written the buffer holds the specified datagram |
| MiddleTier.Loop.Forward | src/tiers/cmwAmb.cc:418-426 | the entries each kind of reply leads to; a success is answered with Saved, a file or reply that cannot be read with the exception's text |
| MiddleTier.Loop.GiveUp | src/tiers/cmwAmb.cc:381-387 | everyone waiting is told in order and nobody waits any more; a header's receive is queued for the new connection |
| MiddleTier.Loop.TakeDatagram | src/tiers/cmwAmb.cc:389-406 | a request joins the deque exactly when it was sent on; otherwise its front tier is told |
| MiddleTier.Loop.SendOn | src/tiers/cmwAmb.cc:395-399 | the packet joins the output queue and everything not handed out becomes one send |
| MiddleTier.Loop.StartReply | src/tiers/cmwAmb.cc:417-418 | the next header's receive is queued and the buffer starts with the reply |
| MiddleTier.Loop.LeaveFront | src/tiers/cmwAmb.cc:415-427 | the oldest request leaves, told what its slot says |
| MiddleTier.Loop.TakeFailure | src/tiers/cmwAmb.cc:375-387 | failed file writes are logged only, a lost connection or a result of zero gives the connection up, and the program goes on exactly then |
| MiddleTier.Loop.TakeReply | src/tiers/cmwAmb.cc:413-429 | the next header's receive is queued, the oldest request is answered and leaves |
| MiddleTier.Loop.ReadHeader | src/tiers/cmwAmb.cc:410-412 | the body's receive is queued where the header says, or the program ends |
| MiddleTier.Loop.NextBatch | src/tiers/cmwAmb.cc:127-137 | submits, acknowledges what was tallied, starts the slots over |
| MiddleTier.Loop.Completion | src/tiers/cmwAmb.cc:374-431 | the loop's body on its own fields is the specified transition and keeps requests and queued replies intact |
| MiddleTier.ReadReply | src/tiers/cmwAmb.cc:419-422 | reads exactly the specified content from the receive buffer; the file of a success lies right behind the nine bytes of the next header |
| Rings.SlotOfWrapped | src/tiers/ring_setup.hh:140-140 | for ring sizes that are powers of two the wrap of the 32-bit counters does not disturb slot numbers |
| Rings.SubmissionQueue.GetSqe | src/tiers/ring_setup.hh:131-143 | hands out a cleared slot, the tail counter's, that no waiting entry occupies, or nothing exactly when all wait; every entry handed out was taken once, in order, or waits |
| Rings.SubmissionQueue.Fill | src/tiers/ring_setup.hh:139-142 | fills the entry handed out last and no other |
| Rings.SubmissionQueue.Consume | src/tiers/ring_setup.hh:134-137 | the kernel's step: the oldest entries leave in order, as they were filled in |
| Rings.CompletionQueue.Ready | src/tiers/ring_setup.hh:145-148 | the wrapped difference is the number of waiting completions |
| Rings.CompletionQueue.Post | src/tiers/ring_setup.hh:145-148 | the kernel's step: a completion joins at the end |
| Rings.CompletionQueue.PeekBatch | src/tiers/ring_setup.hh:150-165 | places of exactly the oldest completions, as many as are ready and asked for, in order, and where the wrapping counter puts them |
| Rings.CompletionQueue.FillSlots | src/tiers/ring_setup.hh:160-163 | the loop ends through the wrap after exactly that many steps |
| Rings.CompletionQueue.Advance | src/tiers/cmwAmb.cc:127-129 | consumes the oldest completions once |
| Rings.RingMemoryFits | src/tiers/cmwAmb.cc:88-100 | the memory reserved for the rings suffices if and only if a page has at least 64 bytes, for every power of two |

## Left out

- Levels 1 and 2, the memory-safe and the non-streaming builds of the codec: not compiled here.
- Sockets, files, mmap, signals, logging and the kernel: what arrives is a parameter or an event.
- Memory ordering of the ring counters: kernel and user steps are interleaved atomically.
- Waiting for the kernel between submitting an entry and its completion: slot safety is about entries not yet submitted.
- cmwRequest's file handling, time stamps and the messages' contents: requests are numbers, payloads are byte strings.
- `MostSignificantFirst` and `LeastSignificantFirst` readers, floating-point values, containers of arbitrary element type.
- The 128-byte submission and 32-byte completion layouts of the rings: the flags for them are never set.
- Decompress.DecompressCore: only bodies the compressor can write are covered, and in one array only those read ahead of the writer; the code checks nothing about others in this build.
- Stream.QlzDecompress: the same for packets; the caller's size tests are all there is.
- Compressed.BufferCompressed.GotPacket: packets no compressor writes, and those without room in place, are not covered.
- Framing.ReceiveBuffer.NextMessage: a length field that is not in the buffer's memory is not covered.
- Compressed.BufferCompressed.Decompress: the room condition is required, not tested, as in the code; packets no compressor writes are not covered.
- Compressed.FitsInPlace: for compressed packets that bypass the history, where the reader is less than three bytes in front but not behind, the result depends on the copies' overshoot and is not decided.
- EventLoop.StartInStep: assumes that submission entries are available, that operations of an abandoned connection do not complete with success, that the login after a failure succeeds, and that the back tier sends frames without negative lengths.
- EventLoop.StartTally: sends complete whole and in order; what the kernel reads for a send whose bytes were moved meanwhile is not modelled.
- MiddleTier.Loop.SendReply: the texts of exceptions are assumed to fit a datagram.
