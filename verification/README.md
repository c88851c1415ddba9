# Roadside device protocols and message alignment

A Dafny model of the byte-level protocols and the schedulers of a roadside computing
service: how packages travel over a TCP stream and are cut out of it again by a second
thread, how they and the frames of a traffic signal controller are protected by a CRC, how
messages of several roads are aligned in time, and the smaller pieces these rest on.

## What is modelled

- **The TCP pipeline** (`Package`, `RingBuffer`, `Parser`, `TcpHandler`, `Stream`, `Pipeline`).
  A package is a 13-byte packed head, a body and a 2-byte CRC. The socket thread writes
  arbitrary chunks into a bounded ring; the parser thread drains it through a four-state
  machine. `Parser.Frames` says, without states or chunks, what a byte stream delivers. One
  iteration on the mutable objects is one step of the machine (`TcpHandler`), no step changes
  the outcome of the stream (`Parser`), and therefore no interleaving of the two threads does
  (`Pipeline`): what is delivered is always a prefix of what was sent and in the end all of it,
  with noise skipped and damaged frames dropped alone.
- **The CRC engine** (`Crc`, `CrcTable`, `CrcPolynomial`). The bitwise loops in both branches,
  the table loop, their equality, the reflection that relates the two branches, what a CRC is,
  namely the remainder of the message divided by the generator polynomial, and the detection of
  every error burst of up to sixteen bits at any message length, for every odd polynomial and
  for no even one.
- **The GB/T 20999-2017 frame** (`SignalFrame`, `FrameObject`, `Escape`). Items of variable
  length, big-endian fields, a length and a CRC over the length, and the escaping functions
  that insert and erase in place. The round trips are stated with their exact conditions.
- **Message alignment** (`Alignment`, `AlignmentThreads`, `DataUnitObject`). Sliding windows per road, a reference
  road that is rotated when it goes stale, and a bound on the calls until the next frame.
  Safety of the accepted frames is proved in every interleaving of pushes with the single
  tests and looks of a task call.
- **Protocols between threads** (`Timer`, `BoundedQueue`, `QueueThreads`). Start and stop of
  the timer with every access to a flag, the mutex or the condition variable as a step of its
  own; the queue with its size test outside the lock.
- **Texts and lists** (`Base64`, `Uri`, `Merge`). Base64 with its carry-over buffers, the URI
  parser with its single allocation, the pairing of crosswalk waiting areas.

`Numbers` says what bytes are worth as numbers, so that the positions and byte orders of all
fields on the wire are stated without the functions that read and write them.

The algorithms that work step by step are methods over arrays and objects, each proved equal
to a function; the theorems are about these functions.

## Where the code and its documentation differ

The model follows the code.

- The comment at myTcp/MyTcpHandler.hpp:34 speaks of a head of 9 bytes; the packed structure
  at common/common.h:87-98 has 13.
- signalControl/signalControlCom.h:26-27 asks for escaping over TCP and RS-232; the
  communication type of a frame is private and always UDP (signalControl/signalControlCom.h:253),
  so no frame is escaped. The escaping functions are modelled by themselves.
- data/DataUnit.h:42 promises that the rotation finds a full road; it also visits the index
  equal to the number of roads (data/DataUnit.h:46), which is a miss. The bound on the calls
  counts it.
- The comment at data/DataUnit.cpp:715 takes the image of the first area of a pairing rule; the
  code takes the first non-empty image in the order of the roads and their devices.

## Model

| member | source | states |
|---|---|---|
| Crc.Crc16Cal | common/CRC.cpp:41-74 | the bitwise loop, with the polynomial reversed in place in the reflected branch, computes the CRC that folds eight shift steps per byte; the lemmas below say what that CRC is worth |
| Crc.EightLeft | common/CRC.cpp:49-54 | the inner loop of the plain branch is eight left steps |
| Crc.EightRight | common/CRC.cpp:63-68 | the inner loop of the reflected branch is eight right steps |
| Crc.ReflectedIsReflection | common/CRC.cpp:45-70 | for every message, polynomial, init and xorout the reflected branch equals the 16-bit reflection of the plain branch run on bit-reflected bytes with reflected init and xorout |
| Crc.StepsLinear | common/CRC.cpp:63-68 | any number of steps is linear over exclusive or |
| Crc.FoldIsBitRun | common/CRC.cpp:61-69 | folding bytes is the same as shifting the message in bit by bit in transmission order |
| Crc.BitRunInjective | common/CRC.cpp:61-69 | with an odd polynomial, different registers stay different through any message |
| Crc.BurstDetected | common/CRC.cpp:41-74 | with an odd polynomial, in either branch, two messages whose differing bits lie within sixteen consecutive transmitted bits have different CRCs, at any length |
| Crc.AdjacentBytesDetected | common/CRC.cpp:41-74 | two equal-length messages that differ only inside two adjacent bytes have different CRCs, at any length and position |
| Crc.EvenPolynomialMisses | common/CRC.cpp:41-74 | the oddness is needed: for every even polynomial, init, xorout and branch there are two two-byte messages with the same CRC |
| Crc.ResidueReflected | common/CRC.cpp:56-70 | a message followed by a word, low byte first, has reflected CRC zero if and only if the word is its CRC |
| Crc.ResiduePlain | common/CRC.cpp:45-55 | the same for the plain branch, high byte first |
| CrcTable.EntryIsEightSteps | common/CRC.cpp:247-282 | each of the 256 table entries is eight reflected steps with 0x1021 from its index |
| CrcTable.TableRound | common/CRC.cpp:513-516 | one round of the table loop equals the eight steps of the bitwise loop |
| CrcTable.Crc16TabCCITT | common/CRC.cpp:509-519 | for every message the table loop computes the bitwise reflected CRC with polynomial 0x1021, init 0 and no final xor |
| CrcPolynomial.LongDivision | common/CRC.cpp:61-69 | shifting a message into the register divides it: there is a quotient, and the register is the remainder |
| CrcPolynomial.CrcIsRemainder | common/CRC.cpp:41-74 | for every message, polynomial, init and xorout, in either branch, the message shifted by sixteen places, with init added in front, is a multiple of the generator of degree sixteen plus the CRC before the final xor |
| CrcPolynomial.RemainderIsUnique | common/CRC.cpp:41-74 | and only one word is that remainder |
| CrcPolynomial.BitOrder | common/CRC.cpp:41-74 | the plain branch takes the highest bit of a byte first, the reflected one the lowest |
| CrcPolynomial.GeneratorTerms | signalControl/signalControlCom.h:265 | the generators are x^16+x^12+x^5+1 for packages and x^16+x^12+x^2+1 for signal frames |
| CrcPolynomial.CcittIsRemainder | common/CRC.cpp:503-519 | the CRC of a package is the remainder of its bits, lowest bit of each byte first, by x^16+x^12+x^5+1 |
| CrcPolynomial.ChecksumIsRemainder | signalControl/signalControlCom.cpp:67-73 | the CRC of a signal frame is the remainder of its bits, highest bit of each byte first, by x^16+x^12+x^2+1 |
| Package.HeadRoundTrip | common/common.h:87-98 | reading the thirteen packed little-endian head bytes gives the head back |
| Package.HeadBytesOfHead | common/common.h:87-98 | writing the head read from thirteen bytes gives those bytes back |
| Package.HeadOnTheWire | common/common.h:87-98 | which bytes of a head hold which field, and that its numbers have their lowest byte first; the length is the number with the base-256 digits at 9 to 12 |
| Package.PackedOnTheWire | common/common.cpp:18-43 | in a packed package body and CRC stand where they should, the last two bytes spell the CRC of all before, and the head announces its size exactly when its length bytes spell the number of bytes |
| Package.UnpackedIff | common/common.cpp:46-79 | unpacking succeeds if and only if the length bytes spell the size of the buffer, and throws if and only if they spell less than 15 and the buffer has that much |
| Package.Pack | common/common.cpp:18-43 | a buffer too small is left untouched; otherwise head, body and CRC are written and the rest is kept, the CRC is stored in the package, and the size is returned exactly when the length bytes written spell it |
| Package.Unpack | common/common.cpp:46-79 | refuses a short, truncated or overlong buffer, throws a length error for a length field below 15, and else, exactly when the length bytes spell the size of the buffer, returns head, body and CRC |
| Package.UnpackOfPack | common/common.cpp:18-79 | unpacking what was packed gives the package with its CRC, and the frame is intact |
| Package.PackOfUnpack | common/common.cpp:18-79 | packing what was unpacked gives the same bytes if and only if the CRC in the frame was right |
| Package.IntactIsZeroResidue | myTcp/MyTcpHandler.hpp:183-184 | the CRC comparison succeeds if and only if the CRC over the whole frame is zero |
| Package.BurstBreaksFrame | myTcp/MyTcpHandler.hpp:183-184 | an error burst of up to sixteen bits anywhere in a frame, CRC included, never passes the comparison |
| RingBuffer.RingBuffer.constructor | ringbuffer/RingBuffer.cpp:9-22 | an empty ring of the given capacity |
| RingBuffer.RingBuffer.Read | ringbuffer/RingBuffer.cpp:29-66 | takes the oldest bytes of the queue, in order across the wrap, into place in the target and nothing else, or changes nothing when fewer are stored |
| RingBuffer.RingBuffer.Write | ringbuffer/RingBuffer.cpp:68-103 | appends all bytes behind the stored ones across the wrap, or changes nothing when they do not fit |
| RingBuffer.RingBuffer.GetReadLen | ringbuffer/RingBuffer.cpp:105-109 | the number of stored bytes |
| RingBuffer.RingBuffer.GetWriteLen | ringbuffer/RingBuffer.cpp:111-115 | the number of free bytes |
| RingBuffer.PutExtends | ringbuffer/RingBuffer.cpp:80-99 | writing behind a stored slice, in one piece or around the end, appends to exactly that slice |
| RingBuffer.SliceDrop | ringbuffer/RingBuffer.cpp:41-62 | advancing the read position by a count drops that many of the oldest bytes and keeps the others |
| Parser.ConsumeValid | myTcp/MyTcpHandler.hpp:109-213 | every read of the right size keeps the parser state well-formed |
| Parser.FinishIsDelivery | myTcp/MyTcpHandler.hpp:164-211 | on a frame of the announced length unpacking succeeds and the push happens exactly when the frame is intact |
| Parser.FramesOfFrame | myTcp/MyTcpHandler.hpp:110-211 | a complete frame contributes its package, if intact, and parsing goes on right behind it |
| Parser.ConsumeKeepsOutcome | myTcp/MyTcpHandler.hpp:109-213 | no read changes what the stream as a whole delivers, whatever the state and however few body bytes were read |
| Parser.StepKeepsOutcome | myTcp/MyTcpHandler.hpp:104-225 | no loop iteration changes what the stream as a whole delivers, and each keeps the state well-formed |
| Parser.StepDecreases | myTcp/MyTcpHandler.hpp:104-225 | every iteration that acts decreases a measure on state and unread bytes |
| Parser.QuiescentDeliveredAll | myTcp/MyTcpHandler.hpp:104-225 | an iteration that cannot act has nothing left to deliver |
| Parser.BodyIsTakenWhole | myTcp/MyTcpHandler.hpp:149-160 | an iteration in the body leaves either no byte unread or none of the body missing |
| Parser.FullRingIsDrained | myTcp/MyTcpHandler.hpp:104-225 | in every reachable state other than the one behind an unusable length, twelve unread bytes are enough for the next two iterations to consume one |
| Parser.TurnKeepsOutcome | myTcp/MyTcpHandler.hpp:96-229 | neither a write of any size for which there is room nor an iteration changes what the whole input delivers, and each that does something decreases a measure |
| Parser.StuckIsDone | myTcp/MyTcpHandler.hpp:96-229 | with a ring of at least twelve bytes, where neither a write nor an iteration can do anything all input has been written and exactly its frames delivered, unless an unusable length stopped the parser |
| Parser.EveryScheduleCompletes | myTcp/MyTcpHandler.hpp:96-229 | through any ring of at least twelve bytes every schedule of such writes and iterations is finite, also with frames larger than the ring, and where it ends exactly the frames of the input have been delivered |
| Parser.SmallRingSticks | myTcp/MyTcpHandler.hpp:122-127 | a ring of fewer than twelve bytes that is full behind a tag stays so, whatever is done |
| Stream.EncodedFrame | common/common.cpp:18-43 | what the sender packs is a complete intact frame to the receiver |
| Stream.FramesOfStream | myTcp/MyTcpHandler.hpp:109-225 | parsing noise without tags, packed packages and frames that fail their CRC check in any order delivers exactly the packed packages in order, so a damaged frame costs no other frame |
| Stream.StreamDelivers | myTcp/MyTcpHandler.hpp:109-225 | the same for a stream that ends there |
| Stream.BurstIsIsolated | myTcp/MyTcpHandler.hpp:164-211 | a packed frame hit by an error burst of up to sixteen bits outside tag and length field is such a damaged frame |
| Pipeline.NextSafe | myTcp/MyTcpServer.hpp:81-92 | every single call of either thread, each of the two questions for the free space included, keeps the ring within capacity, keeps what was promised to each thread available, and is never refused |
| Pipeline.RoomFitsIff | myTcp/MyTcpServer.hpp:80-83 | what is about to be received fits the receive buffer of 1 MiB in every interleaving if and only if the ring is no larger than that buffer; the ring of 4 MiB is larger, and the parser can drain it between the two questions |
| Pipeline.ReceivesWhatFits | myTcp/MyTcpServer.hpp:81-88 | undisturbed, the socket thread writes any chunk that fits the free space and the receive buffer, whole and unchanged |
| Pipeline.FullRingCloses | myTcp/MyTcpServer.hpp:81-86 | at a full ring it can only receive nothing and close the connection |
| Pipeline.NextFaithful | myTcp/MyTcpHandler.hpp:98-225 | every single call of either thread keeps the receiver faithful to the bytes written |
| Pipeline.EveryInterleaving | myTcp/MyTcpHandler.hpp:98-225 | in every interleaving of the socket thread and the parser thread no ring call is refused and the bytes written equal the bytes read followed by the bytes stored |
| Pipeline.NoCallIsRefused | myTcp/MyTcpServer.hpp:81-88 | so in every run from the start no call is refused, the ring stays within its capacity, and the bytes written are those read followed by those stored |
| Pipeline.DeliveredIsPrefix | myTcp/MyTcpHandler.hpp:98-225 | at every moment of every run over a well-formed stream, however it was cut and interleaved, the packages delivered are a prefix of those sent, in order |
| Pipeline.DeliveredIsEverything | myTcp/MyTcpHandler.hpp:98-225 | once all is written and the parser cannot act, exactly the packages sent have been delivered |
| Pipeline.QuiescentDelivery | myTcp/MyTcpHandler.hpp:98-225 | on any bytes at all, a parser that cannot act has delivered exactly the frames of the stream, up to a head with an unusable length |
| Pipeline.ChunksDoNotMatter | myTcp/MyTcpHandler.hpp:98-225 | two runs over the same bytes deliver the same packages, whatever their chunks, interleavings and ring sizes |
| Pipeline.RoundIsStep | myTcp/MyTcpHandler.hpp:104-154 | the emptiness check, the second look at the fill level and the read, uninterrupted, are one step of the parser |
| Pipeline.RoundsNeeded | myTcp/MyTcpHandler.hpp:98-225 | the parser thread alone reaches a state where it cannot act within the measure of its state |
| Pipeline.EventuallyEverything | myTcp/MyTcpHandler.hpp:98-225 | after the last write at most two rounds per stored byte and one more deliver every package of the stream |
| TcpHandler.MyTcpHandler.constructor | myTcp/MyTcpHandler.hpp:51-57 | starts in the initial parser state over an empty ring and a queue bounded by 30 |
| TcpHandler.MyTcpHandler.FindTag | myTcp/MyTcpHandler.hpp:110-121 | one step of the parser: reads one byte and moves on at a tag |
| TcpHandler.MyTcpHandler.TakeHead | myTcp/MyTcpHandler.hpp:122-137 | one step of the parser: reads twelve bytes at once, starts the frame buffer with the head, and sets buffer size and body length to the number that the length bytes spell, the latter less 15 |
| TcpHandler.MyTcpHandler.TakeBody | myTcp/MyTcpHandler.hpp:149-160 | one step of the parser: moves as much of the body as there is |
| TcpHandler.MyTcpHandler.TakeCrc | myTcp/MyTcpHandler.hpp:164-213 | one step of the parser: completes the frame, offers its package to the queue if both checks pass, and starts afresh either way; a full queue drops the package |
| TcpHandler.MyTcpHandler.Iterate | myTcp/MyTcpHandler.hpp:104-225 | one loop iteration on ring, frame buffer, index and queue is exactly one step of the parser |
| BoundedQueue.Queue.Push | Queue.hpp:36-45 | appends unless the bound is set and reached; a negative bound never refuses |
| BoundedQueue.Queue.Pop | Queue.hpp:47-55 | takes the front, or reports an empty queue |
| QueueThreads.EveryInterleaving | Queue.hpp:36-55 | with each call split into its unlocked test and its locked body, every interleaving keeps items plus pushers past the test at most max+N-1 and what was pushed equal to what was popped followed by what is queued |
| QueueThreads.UndisturbedPush | Queue.hpp:36-45 | without other threads in between, the test and the body of a push append the item exactly when the queue is below its bound |
| QueueThreads.UndisturbedPop | Queue.hpp:47-55 | and those of a pop take exactly the front of a queue that has one |
| QueueThreads.QueueBound | Queue.hpp:36-55 | N pushers never exceed max+N-1, so one never exceeds max, and a single popper never takes the front of an empty queue |
| QueueThreads.BoundIsReached | Queue.hpp:36-45 | for every positive max and N some interleaving does reach max+N-1 |
| QueueThreads.TwoPoppersUnderflow | Queue.hpp:47-55 | with two or more poppers some interleaving takes the front of an empty queue |
| Escape.IsInSet | signalControl/signalControlCom.cpp:13-22 | whether the byte is one of the reserved ones |
| Escape.TransferMean | signalControl/signalControlCom.cpp:24-34 | the in-place insertions with index skipping compute the escaped message; an empty message throws |
| Escape.DeTransferMean | signalControl/signalControlCom.cpp:36-48 | the in-place erasures compute the unescaped message; an empty message throws |
| Escape.UnescapeEscaped | signalControl/signalControlCom.cpp:24-48 | unescaping an escaped interior in front of any trailer, reserved or not, restores it, up to one swallowed escape byte in the ambiguous case |
| Escape.RoundTrip | signalControl/signalControlCom.cpp:24-48 | unescaping what was escaped gives the message back if and only if it is not the case that the escape byte is itself unreserved, ends the interior and stands before a reserved trailer; so always with the standard set |
| Escape.EndsStay | signalControl/signalControlCom.cpp:24-48 | both functions throw on the empty message only, and leave the first byte and, in escaping, the last one as they are |
| Escape.EscapedIsProtected | signalControl/signalControlCom.h:27 | when the escape byte is reserved, every reserved byte of an escaped interior belongs to a pair of escape byte and protected byte |
| Escape.Transparency | signalControl/signalControlCom.h:27 | the escaped messages are exactly those whose reserved inner bytes stand in such pairs: escaping yields one, and each one is restored by unescaping and escaping again |
| SignalFrame.BigOnTheWire | signalControl/signalControlCom.h:29 | two or four bytes read as a number are the number with these base-256 digits, the highest first |
| SignalFrame.Big32RoundTrip | signalControl/signalControlCom.h:29 | four bytes written give the number back |
| SignalFrame.FieldsOnTheWire | signalControl/signalControlCom.cpp:142-176 | which bytes of a message become which field |
| SignalFrame.FrameOnTheWire | signalControl/signalControlCom.cpp:201-303 | which bytes of a sent frame hold which field, that its length bytes spell its length less 4 and its CRC bytes the CRC of all between the first byte and them |
| SignalFrame.ItemOnTheWire | signalControl/signalControlCom.cpp:105-124 | which bytes of an item hold which field, and that its length byte is 4 more than its data |
| SignalFrame.ItemReadWritten | signalControl/signalControlCom.cpp:76-124 | writing an item that was read gives its bytes back, for any two bytes with length byte 0 and any six or more bytes |
| SignalFrame.ItemRoundTrip | signalControl/signalControlCom.cpp:76-124 | an item of at most 249 data bytes is read back as written, with its length byte filled in |
| SignalFrame.ItemsRoundTrip | signalControl/signalControlCom.cpp:178-240 | a list of such items between any other bytes is read back in full and the position behind it is right |
| SignalFrame.DecodedItemsAreSmall | signalControl/signalControlCom.cpp:179-191 | no decoded item ever holds more than 249 data bytes, because its length plus 2 is added in eight bits |
| SignalFrame.FrameFromEncoded | signalControl/signalControlCom.cpp:142-248 | a fresh object reads every field and item of an encoded frame back |
| SignalFrame.SealedIsUpToDate | signalControl/signalControlCom.cpp:271-303 | the length and CRC filled in on the wire are those of the frame that carries them, CRC over the length included |
| SignalFrame.SealedKeeps | signalControl/signalControlCom.cpp:347-372 | length and CRC are filled in unless set by hand, the CRC over the length that is sent, and nothing else changes |
| SignalFrame.AcceptEncoded | signalControl/signalControlCom.cpp:305-345 | an encoded representable frame is accepted if and only if the length and the CRC it carries are right |
| SignalFrame.AcceptIff | signalControl/signalControlCom.cpp:305-345 | for any bytes: refused below 17, refused before the items are read if the length bytes do not spell the length, and refused after that if the CRC bytes do not spell the CRC |
| SignalFrame.HeldItemsStay | signalControl/signalControlCom.cpp:187 | reading into a used object puts the items behind those it has and is the same otherwise |
| SignalFrame.LengthFits | signalControl/signalControlCom.cpp:250-258 | with a matching count and at most 249 data bytes per item the frame is at most 65539 bytes long, so its 16-bit length field is the true length and never wraps |
| SignalFrame.RoundTrip | signalControl/signalControlCom.cpp:305-372 | sending a frame and reading it into a fresh object returns it with lengths and CRC filled in if and only if its count matches and no item has more than 249 data bytes, and then the length field is the true length |
| SignalFrame.Reencoding | signalControl/signalControlCom.cpp:201-372 | encoding the received frame gives the same bytes |
| SignalFrame.UpdatesAgree | signalControl/signalControlCom.cpp:250-303 | updating length and then CRC by hand sends the same bytes as leaving both to the encoder |
| SignalFrame.UpdateOrderMatters | signalControl/signalControlCom.cpp:250-269 | in the opposite order the frame is accepted if and only if its length had been right before |
| SignalFrame.ChecksumMatchesIsZeroResidue | signalControl/signalControlCom.cpp:334-339 | the CRC check passes if and only if the CRC over everything between the first and last byte is zero |
| SignalFrame.BurstIsRefused | signalControl/signalControlCom.cpp:305-345 | a sent frame hit between its first and last byte by an error burst of up to sixteen bits is never accepted |
| FrameObject.GetItemFromBytes | signalControl/signalControlCom.cpp:76-103 | one item from its bytes, refusing fewer than two and reading out of bounds below six |
| FrameObject.FrameAll.constructor | signalControl/signalControlCom.h:249-266 | begin, end and flags have their defaults and there are no items; the other fields are arbitrary |
| FrameObject.FrameAll.SetToBytes | signalControl/signalControlCom.cpp:201-248 | the encoding of the object, with the item lengths corrected in copies only |
| FrameObject.FrameAll.UpdateFrameLength | signalControl/signalControlCom.cpp:250-258 | stores the length of the encoding without head, tail and length field, and nothing else |
| FrameObject.FrameAll.UpdateFrameCRC16 | signalControl/signalControlCom.cpp:260-269 | stores the CRC of the encoding between first byte and CRC, and nothing else |
| FrameObject.FrameAll.UpdateByteLength | signalControl/signalControlCom.cpp:271-283 | replaces the two length bytes only, and refuses fewer than 17 bytes unchanged |
| FrameObject.FrameAll.UpdateByteCRC16 | signalControl/signalControlCom.cpp:285-303 | replaces the two CRC bytes only, and refuses fewer than 17 bytes unchanged |
| FrameObject.FrameAll.SetToBytesWithTF | signalControl/signalControlCom.cpp:347-372 | the patched bytes are the encoding of the frame with length and CRC filled in, except those set by hand |
| FrameObject.FrameAll.GetItems | signalControl/signalControlCom.cpp:178-191 | appends the announced number of items to those the object has |
| FrameObject.FrameAll.GetFromBytes | signalControl/signalControlCom.cpp:142-199 | the whole object after reading: all fields replaced and the items appended |
| FrameObject.FrameAll.GetFromBytesWithTF | signalControl/signalControlCom.cpp:305-345 | refuses a short message or a wrong length before touching the object and a wrong CRC after replacing its fields |
| Alignment.WindowIsLast | Vector.hpp:35-47 | pushing any messages into a window keeps exactly the last max of everything pushed |
| Alignment.LongestOf | data/DataUnit.h:307-314 | the size and index of the first of the longest roads seen so far |
| Alignment.Pick | data/DataUnit.h:375-397 | the first message of the road strictly within fs of the time, or none if there is none |
| Alignment.FindOneFrameIff | data/DataUnit.h:330-373 | a call misses if and only if the reference road has no message at the offset, and accepts a frame if and only if it has one whose time is at least fs past the last frame; then the whole new state |
| Alignment.ReferencePassedOn | data/DataUnit.h:41-51 | otherwise a miss passes the reference on at once, through the index behind the last road, and a stale reference is passed on at the first call with 2*count*interval >= 5*fs |
| Alignment.RunTaskStarts | data/DataUnit.h:305-324 | a call does nothing while all roads hold fewer than cache messages, and starts with the first of the longest roads |
| Alignment.StaleIsKept | data/DataUnit.h:338-345 | with inputs quiet a stale reference is kept for exactly the calls that stay below two and a half times fs |
| Alignment.RotationApproaches | data/DataUnit.h:41-51 | each rotation, through the phantom index numI, brings the reference one place nearer to a given road |
| Alignment.TaskProgresses | data/DataUnit.h:330-345 | a call without a frame decreases the number of calls that can still pass without one |
| Alignment.BoundedProgress | data/DataUnit.h:305-345 | with inputs quiet, a road of cache messages and a road with a message at index cache/2 whose time is at least fs past the last frame, a frame is produced within numI*k+1 calls for every positive k with 2*k*interval >= 5*fs |
| Alignment.FrameNeedsFreshRoad | data/DataUnit.h:305-345 | conversely a frame produced sometime needs such roads, by the same inequality |
| Alignment.ProgressIff | data/DataUnit.h:305-345 | with inputs quiet a frame is produced sometime if and only if some road holds cache messages and some road has a message at index cache/2 at least fs past the last frame |
| AlignmentThreads.ScanStepRight | data/DataUnit.h:375-397 | every test or look of a scan keeps its window the last messages of the first one and the pushes since, with no near message passed over as long as nothing can have been evicted |
| AlignmentThreads.NoticedRight | Vector.hpp:35-47 | so does every push that comes between two looks |
| AlignmentThreads.NextSafe | data/DataUnit.h:176-397 | every push, size test, look and slot assignment keeps the invariant of unit, call and log |
| AlignmentThreads.EveryInterleaving | data/DataUnit.h:176-397 | in every interleaving of pushes with the steps of task calls each accepted frame has a time that a window held, its slots come from such scans, the unit shows the frame accepted last, and the time kept for each road is that of the message it contributed last |
| AlignmentThreads.SlotsInEveryRun | data/DataUnit.h:375-397 | in every interleaving each filled slot is a message of its road strictly within fs of the frame time, and each slot is the first such message, or empty if there is none, when the messages at the first look plus the pushes since are at most cap |
| AlignmentThreads.ShownInEveryRun | data/DataUnit.h:346-391 | between task calls the unit shows the frame accepted last, whose time a window held, and for each road the time of the message it contributed last |
| AlignmentThreads.FramesApartInEveryRun | data/DataUnit.h:338-347 | in every interleaving any two accepted times are at least fs apart |
| AlignmentThreads.WindowsInEveryRun | Vector.hpp:35-47 | in every interleaving the window of a road holds the last cap of the messages it held and those pushed onto it since |
| AlignmentThreads.FirstNearIff | data/DataUnit.h:375-397 | that condition is exact: for each window size and number of pushes the first near message is found whatever the messages and moments if and only if their sum is at most cap |
| AlignmentThreads.PushCanHideTheFirst | data/DataUnit.h:375-397 | a concrete run: a window of the times 10, 100 and 101, a frame at 100, a push of 200 between two looks, and 101 in the slot |
| AlignmentThreads.SelectedAtMostTwice | data/DataUnit.h:338-391 | in no interleaving is a message time selected by three accepted frames |
| AlignmentThreads.CallEnds | data/DataUnit.h:305-397 | every step of a task call decreases the steps it can still take, and no push increases them |
| AlignmentThreads.UndisturbedCall | data/DataUnit.h:305-397 | a task call that no push disturbs ends with the state, result and frame of the call taken as one step |
| DataUnitObject.DataUnit.constructor | data/DataUnit.h:31-65 | empty windows, no reference road yet and no time stored: a state from which every run is safe |
| DataUnitObject.DataUnit.PushI | data/DataUnit.h:176-183 | the window of the road gets the message and loses its oldest when full; an index outside the roads, negative ones included, is refused and nothing changes |
| DataUnitObject.DataUnit.MaxSizeIndexNext | data/DataUnit.h:41-51 | rotates the reference and resets the counter |
| DataUnitObject.DataUnit.ThreadGetDataInRange | data/DataUnit.h:375-397 | without a push meanwhile, fills the slot and the time of the road with its first near message, or leaves both |
| DataUnitObject.DataUnit.CollectFrame | data/DataUnit.h:357-362 | without a push meanwhile, fills all slots from scratch, one per road |
| DataUnitObject.DataUnit.FindOneFrame | data/DataUnit.h:330-373 | the whole new state and the result code -1, -2 or 0 of one alignment without a push meanwhile |
| DataUnitObject.DataUnit.RunTask | data/DataUnit.h:305-324 | the whole new state of one task call without a push meanwhile, with the first reference chosen only once |
| Timer.EveryInterleaving | os/timeTask.hpp:36-86 | the invariant on flags, mutex, controller and workers holds in every interleaving of start, stop, worker and spurious wake-ups |
| Timer.AtMostOneWorker | os/timeTask.hpp:36-58 | in every interleaving at most one worker is alive |
| Timer.StopReturnsStopped | os/timeTask.hpp:68-86 | whichever of its three ways stop returns, no worker is alive and the flags are reset |
| Timer.NoCallsWhileStopped | os/timeTask.hpp:68-86 | after stop has returned no task is called until the next start, in every interleaving |
| Timer.StartRunsAgain | os/timeTask.hpp:36-50 | a later start launches a worker whose first step calls the task |
| Timer.CallsGoOn | os/timeTask.hpp:45-49 | until stop is called the task is called once in every three steps of the worker, n times in 3n, whatever start calls and wake-ups come between |
| Timer.IdleCalls | os/timeTask.hpp:36-71 | a start while the timer runs and a stop while it does not change nothing |
| Timer.StopBegins | os/timeTask.hpp:68-79 | a stop while the timer runs asks the worker to end in three steps and then waits |
| Timer.SpuriousWakeUp | os/timeTask.hpp:80 | a stop that sleeps can wake up unasked at any time, looks again and goes back to sleep |
| Timer.StopAdvances | os/timeTask.hpp:51-80 | while stop waits some thread can move, so no wake-up is lost |
| Timer.StopMeasureDecreases | os/timeTask.hpp:44-85 | every move other than a spurious wake-up brings the return of stop nearer |
| Timer.StopReturns | os/timeTask.hpp:68-86 | in every sequence of effective moves other than spurious wake-ups, a stop that has begun to wait has returned after at most 33 of them |
| Base64.RoundTrip | os/os.cpp:220-296 | decoding the encoding of any byte string returns it |
| Base64.Shape | os/os.cpp:220-255 | the text has four characters per started group of three bytes and padding exactly at the end, as section 4 of RFC 4648 has it |
| Base64.EncodingIsRegrouping | os/os.cpp:220-255 | the symbols, six bits each, spell the bytes, eight bits each, followed by two zero bits per padding character |
| Base64.ValueOfSymbol | os/os.cpp:200-218 | the alphabet is that of table 1 of RFC 4648, and the two tables are inverse to each other on its 64 symbols |
| Base64.ValueIsPlace | os/os.cpp:201-218 | the decoding table gives each of the 128 ASCII characters its place in the alphabet, or 255 |
| Base64.LettersRoundTrip | os/os.cpp:220-296 | encoding what any text of whole groups of letters decodes to gives the text back |
| Base64.TailOfText | os/os.cpp:280-293 | one symbol left over gives no byte, and two or three give the bytes that they fill, whatever the bits left over |
| Base64.StopsAtPadding | os/os.cpp:265-269 | nothing behind the first padding character is read |
| Base64.EncodeWhole | os/os.cpp:228-237 | the loop with its carry-over buffer writes all whole groups and is left with the last one or two bytes |
| Base64.EncodeRest | os/os.cpp:238-252 | the left-over bytes become the last group with its padding |
| Base64.Base64Encode | os/os.cpp:220-255 | writes the text, a terminating NUL and reports the length of the text |
| Base64.DecodeWhole | os/os.cpp:265-279 | the loop stops at the first padding character, has decoded all whole groups and is left with the rest |
| Base64.Base64Decode | os/os.cpp:257-296 | writes the decoded bytes and reports how many |
| Uri.PrintOfParse | eocCom/dns/uri.cpp:129-172 | printing the parsed fields of any text gives the text back, so parsing loses and invents nothing |
| Uri.ParsedIsUnambiguous | eocCom/dns/uri.cpp:129-172 | parsed fields never hide a delimiter from the search that looks for it |
| Uri.ParseOfPrint | eocCom/dns/uri.cpp:129-172 | parsing the printed fields, with any of scheme, user info, port, path and query absent, returns exactly those fields if and only if no field hides a delimiter from the search that looks for it |
| Uri.DelimitedRoundTrip | eocCom/dns/uri.cpp:129-172 | so it always does when no field contains any of the four delimiter characters |
| Uri.QueryCanHideTheHost | eocCom/dns/uri.cpp:135-137 | a concrete case: without user info an '@' in the query turns the host into user info |
| Uri.CopyString | eocCom/dns/uri.cpp:9-17 | copies the text or what leaves room for the terminator, terminates it, and changes nothing else |
| Uri.SetValue | eocCom/dns/uri.cpp:37-41 | a field present is stored behind the ones before it, with its terminator; one absent is a null pointer |
| Uri.HoldsReads | eocCom/dns/uri.cpp:37-41 | reading a stored field up to its terminator gives the field |
| Uri.AstUri.Create | eocCom/dns/uri.cpp:30-62 | every field reads back, and all fields with their terminators fill the single allocation exactly |
| Uri.Find | eocCom/dns/uri.cpp:129-153 | the first occurrence behind a position, and the cut it makes |
| Uri.ParseAuthority | eocCom/dns/uri.cpp:139-165 | the pointer steps through host, port, path and query give the fields of the parse, including the last one decided by the delimiter before it |
| Uri.UriParse | eocCom/dns/uri.cpp:118-172 | the object represents exactly the fields of the parse |
| Merge.NamesIff | data/DataUnit.cpp:678-685 | the comparison with the first two characters finds a device exactly when a code of the rule is a prefix of its crossing code of length 2, or all of it when that is shorter |
| Merge.AllIsConcatenation | data/DataUnit.cpp:676-677 | the devices are those of all roads in order, none left out |
| Merge.NothingSentIff | data/DataUnit.cpp:722 | nothing is sent if and only if some rule is empty |
| Merge.MergedTotal | data/DataUnit.cpp:668-727 | for any rules, overlapping or not, the output reports each device once if unpaired and else once per rule that names it |
| Merge.Conservation | data/DataUnit.cpp:668-727 | the total of the output equals the total of the input on all inputs if and only if no device can be named by two rules |
| Merge.MergedEntry | data/DataUnit.cpp:694-727 | the entry of each rule has its first code, the total and first image of the devices it names, as waiting time the longest of theirs or 0, and nothing else |
| Merge.FirstImageIsFirst | data/DataUnit.cpp:715-718 | the image of a group is the first non-empty one |
| Merge.OnlyUnpairedPass | data/DataUnit.cpp:674-691 | exactly the devices that no rule names pass through |
| Merge.UnpairedPassesThrough | data/DataUnit.cpp:674-691 | each of them unchanged and right behind those before it |
| Merge.TaskProcessOneFrame | data/DataUnit.cpp:668-735 | the nested loops compute the merged list; an empty rule is an out-of-range exception and nothing is sent |

## Left out

- Sockets, the Poco reactor, TLS, UDP, Kafka, SQLite, curl, logging and JSON: input and output, or libraries whose code is not part of the repository. A body is an opaque byte string.
- Heads whose length field is below 15 or above 2147483647: the original copies past its buffer or overflows its index; the parser model stops there in the state `Undefined`. Memory allocation never fails.
- Damage to a tag or a length field in the middle of a stream, which can make the receiver take later frames for the body of an earlier one; `Pipeline.QuiescentDelivery` still says what is delivered.
- Pipeline.EveryInterleaving: what the socket thread receives is any chunk of at most the size it asked for. What a chunk longer than the receive buffer does to memory is not modelled; `Pipeline.RoomFitsIff` says when there can be one. After an empty chunk, which is all a full ring leaves room for, the connection is closed; tearing the parser down is not modelled.
- Parser.EveryScheduleCompletes: nothing is received into a full ring, since the original closes the connection then (myTcp/MyTcpServer.hpp:84-86).
- Pipeline.QuiescentDelivery: behind a head with an unusable length the parser stops here, where the original goes on with undefined memory.
- The receive queue in the pipeline theorems: they are about the packages offered to it. `TcpHandler.MyTcpHandler.TakeCrc` says that a full queue drops the package offered.
- RingBuffer.RingBuffer.constructor: the capacity is positive and fits the signed integers that the original reports lengths in.
- Crc8Cal, Crc32Cal and the other table loops of common/CRC.cpp, which follow the same pattern; Crc16TabMAXIM, whose accumulator has 8 bits (common/CRC.cpp:454), is not the CRC its comment names.
- The table of common/CRC.cpp is kept as its sixteen rows, and the loops over the message take it as a sequence.
- Escaping through setToBytesWithTF and getFromBytesWithTF, which no public interface can switch on.
- FrameObject.FrameAll.GetFromBytes: what is left in the object after a read outside the vector, which the original does not detect, is not stated; the uninitialised index and length of a new item are a parameter.
- FrameObject.FrameAll.SetToBytes: byte vectors that are built up and returned are sequences, so that sharing between them is not modelled.
- The request and response builders of signalControlCom.cpp, which fill in constants.
- Alignment.BoundedProgress: time passes only as the number of calls; sleeps and the wall clock are not modelled, and the factor 2.5 is written as twice the wait against five times fs.
- AlignmentThreads.EveryInterleaving: the size tests read a window without its lock, in one step each, and the size check inside a look is one step with it, since windows never shrink; data races on the container during a push are not modelled.
- DataUnitObject.DataUnit.ThreadGetDataInRange: the methods of the object are one call each without a push in between, and so are CollectFrame, FindOneFrame and RunTask; `AlignmentThreads` has the pushes in between, on values.
- Alignment: message times are below 2^63 and intervals below 2^31, so that the 64-bit arithmetic of the original neither wraps nor changes sign; messages carry a time and an opaque content.
- Timer: the destructor, startOnce and a stop called from the worker itself, which would wait for its own end; more than one controlling thread.
- QueueThreads: the test reads the size in one step; data races on the underlying container during the unlocked test are not modelled.
- Base64.Base64Encode: the carry-over buffers are sequences, the lengths do not overflow 32 bits, and a text to decode has only 7-bit characters, because the original indexes its table with a signed character.
- Uri.AstUri.Create: the record and its text are one allocation in the original and an object with an array here; the sizes are those that the two callers compute.
- Merge.TaskProcessOneFrame: sums are unbounded integers, while the original adds 32-bit ones; the generated operation number, the time and the bounded output queue are not modelled.
- Fusion of road data, resending, the EOC communication and the transparent-transmission units: field copying and plumbing that would add only easy members.
