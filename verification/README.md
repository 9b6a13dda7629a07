# wolfSSL transport protocols, modelled and proved

This project models the protocol state machines of the wolfSSL sources under `boot/src` in Dafny and proves what
they promise: the DTLS 1.3 reliability and record layer of `dtls13.c` (with the reassembly store of `internal.c` it
feeds), the BIO pair and the memory BIO of `bio.c`, the QUIC handshake record queue of `quic.c`, and the stateless
ClientHello parser of `dtls.c`.

The C code updates structures in place, so each component has a class (or methods over arrays) that follows the code
step by step, and a specification on values that the methods are proved equal to. The theorems are about the
specification and cover every input, every allocation outcome, every answer of the transport and every run.
`dafny verify dfyconfig.toml` checks everything.

| modules | what they hold |
|---|---|
| `Bytes`, `Sequences`, `Options`, `Buffers`, `FixedCodec`, `HandshakeHeader` | integers on the wire, slices, the handshake header |
| `Reassembly`, `ReassemblyProofs`, `FragmentCuts` | the fragment store, position by position, and under every order of arrival |
| `Receiver`, `ReceiverProofs`, `ReceiverSlots`, `ReceiverWitnesses`, `ReceiverObject` | in-order delivery with buffering |
| `RtxRecords`, `RtxQueue` | tracked record numbers, acknowledgements, and the linked list with its tail pointer |
| `SendPath`, `SendPathProofs`, `SenderObject` | record numbers, retransmission passes, the sender |
| `FragmenterProofs`, `SendMessageProofs` | what a message emits and queues, and when it is given up |
| `EndToEnd`, `EndToEndSender`, `EndToEndReceiver`, `EndToEndAcks` | sender, network and receiver as one system |
| `EndToEndLimits` | one message through the whole system, and how long it may be |
| `EndToEndAttempts` | a message left behind half-way, and the next one under its number |
| `EndToEndDelivery` | several messages through the whole system, and how many there may be |
| `AckMessage`, `AckList` | the sorted list of seen records and the ACK message |
| `Epochs`, `EpochTable` | the table of key epochs |
| `UnifiedHeader`, `RecordNumbers`, `HeaderBuffers` | the compressed record header and record number recovery |
| `RingBuffer`, `PairRuns`, `BioPair` | the BIO pair |
| `MemoryFifo`, `MemBio` | the memory BIO |
| `QuicFrames`, `QuicTransfer`, `QuicObject` | the QUIC record queue and its framing |
| `ClientHello`, `ClientHelloParser` | ClientHello and extension parsing |

What the environment decides is a parameter: whether an allocation succeeds, what fresh memory holds, whether the
transport sends, blocks or fails, what a message handler answers, and the record number mask, which is an
uninterpreted function of the epoch and the ciphertext.

## What the code does where one would expect something else

The model follows the code in each of these places; where a promise depends on it, a lemma gives the exact condition.

- `DtlsMsgSet` merges a fragment that falls strictly between two stored runs with the second run although they do not
  touch, and counts the bytes between them as received (`boot/src/internal.c:9640-9660`); a fragment that overlaps a
  run from the left keeps the start of that run behind the new bytes (`boot/src/internal.c:9386-9506`).
  `FragmentCuts.SafeIffShort`: with the fragments of an honest sender, reassembly is right under every order of
  arrival if and only if there are at most four of them. The end-to-end theorem therefore asks that no fragment falls
  in a gap; `EndToEndReceiver.ShortRunIsGuarded` discharges that for messages in at most four fragments, and
  `EndToEndLimits.EndToEndIffShort` shows the same limit for the whole system, in both directions.
- A flush of the output buffer that blocks in front of a fragment answers WANT_WRITE
  (`boot/src/internal.c:11376-11389`), and the fragmenter then gives the message up (`boot/src/dtls13.c:1043-1047`);
  once the buffer is sent, the handshake goes on with the next message (`boot/src/tls13.c:13280-13305`), under the same
  number. `SendMessageProofs.MessageGetsOut`: a message gets out if and only if no such flush blocks and nothing fails.
  In a retransmission pass such a flush moves nothing (`SendPathProofs.RetransmissionPass`).
- A record is put into the output buffer before it is sent (`boot/src/dtls13.c:560-618`). When the transport then
  reports an error, the caller gets SOCKET_ERROR_E and the record is not queued, but it stays in the buffer and goes out
  with the next flush (`boot/src/internal.c:11095-11115`, `boot/src/tls13.c:13294-13330`), in front of a message with
  the same number (`SendMessageProofs.FailedGoesOut`).
- In both cases two messages share a number. `EndToEndAttempts.NextMessageIffHarmless` says which pairs the receiver
  gets right in every run; the end-to-end theorems ask only that no message is started that the receiver could mix
  with a fragment already in a record (`EndToEndReceiver.Tellable`). Behind a message that went out although it was
  reported as failed, the receiver may count that message and drop the next one
  (`EndToEndAttempts.FailedNextIffSame`).
- A buffer with 20 entries refuses every fragment that has to be stored, even one of the message that is expected
  (`boot/src/dtls13.c:1917-1926`). `EndToEndDelivery.DeliveryIffFewMessages`: delivery is complete in every order if
  and only if fewer messages than that are under way.
- A part of a message that a whole copy overtakes stays at the head of the buffer and holds back everything behind it
  (`ReceiverWitnesses.PartIsOvertaken`, `ReceiverProofs.OvertakenForever`, `ReceiverProofs.AheadIffNotOvertaken`).
- After a handler answered WANT_WRITE a ready message can be left at the head of the buffer, and inputs that are
  discarded are answered 0 without looking at it (`ReceiverProofs.HeadWaitsIff`,
  `ReceiverWitnesses.HeadWaitsBehindDuplicate`); the call that processes buffered messages without a new input exists
  only in builds with asynchronous cryptography (`boot/src/internal.c:22288-22294`).
- Direct processing counts a message only on answer 0, buffered processing also on WANT_WRITE.
- Only the plaintext path reports a wrapped record counter; the encrypted path goes on (`SendPath.SendRecord`).
  Statements about distinct record numbers hold until a counter wraps.
- A record remembers the numbers of its last one to three transmissions (`RtxRecords.TracksLatest`).
- The length field of an ACK has 16 bits: the ACK is faithful if and only if it names fewer than 4096 records
  (`AckMessage.AckFaithfulIffShort`), and only then does the room reserved for it suffice
  (`AckMessage.RoomIffShort`).
- The epoch table evicts the last eligible slot, not the oldest epoch (`Epochs.NewEpochSucceeds`).
- The mask `0x111 << 5` tests one bit of the first byte of a record (`UnifiedHeader.FixedBitsExact`).
- A record shorter than its header and 16 bytes is dropped even with the null cipher, whose numbers are not masked
  (`RecordNumbers.RecordNumberRoundTrip`).
- A ring that a write has just wrapped cannot be read until the next write (`RingBuffer.StallsIff`,
  `RingBuffer.ReadStalled`).
- A memory BIO read whose shrinking fails returns an error although the bytes are gone
  (`MemoryFifo.FailedShrinkLosesBytes`).
- The header of a continued TLS record takes its length from the whole QUIC record
  (`QuicTransfer.FramingRightIff`).

## Model

| member | source | states |
|---|---|---|
| `Reassembly.CombineFragBuckets` | boot/src/internal.c:9386-9506 | The buffer steps that merge a fragment with the run it meets, and perhaps with the next run, produce exactly the merged run of the specification: the place where the bytes of both come from is stated, including the branch that copies the start of the old run behind the new data and the branch that leaves memory nobody wrote |
| `Reassembly.MergeBuckets` | boot/src/internal.c:9640-9660 | The runs swallowed by a merge are replaced by one run, and the byte counter ends up as the number of bytes held |
| `Reassembly.PlaceFragment` | boot/src/internal.c:9586-9660 | The search over the stored runs and its branches (already stored, new last run, new first run, merge), with the limit on runs, the allocation failures and the byte count |
| `Reassembly.DtlsMsgSet` | boot/src/internal.c:9550-9667 | For every message, fragment and allocation outcome the call returns the status and the stored message of the specification; the byte counter always equals the bytes held |
| `ReassemblyProofs.SetKeepsMsgOK` | boot/src/internal.c:9550-9667 | Whatever fragments are offered, runs stay sorted, separate and inside the message, the counter is the number of bytes held, and the message is ready exactly when the counter reaches its size |
| `ReassemblyProofs.AssemblyNeverFails` | boot/src/internal.c:9508-9548 | When the counter reaches the message size there is one run, from 0 to the end: the failure branches of the assembly are never taken |
| `ReassemblyProofs.PlaceCovers` | boot/src/internal.c:9586-9660 | Position by position: after a fragment was stored exactly the old positions and its own are covered, and, if it fell strictly between two runs, also the positions between it and the next run |
| `ReassemblyProofs.CombinedHolds` | boot/src/internal.c:9386-9506 | Merging right bytes gives right bytes if and only if the fragment does not overlap the run from the left with a shift that shows |
| `ReassemblyProofs.PlaceExact` | boot/src/internal.c:9550-9667 | Storing a fragment adds exactly its bytes with their right values if and only if it neither falls in a gap nor shifts a run it overlaps from the left |
| `ReassemblyProofs.FullIffCovered` | boot/src/internal.c:9660-9667 | The counter equals the size exactly when every byte is covered |
| `FragmentCuts.SetKeepsHonest` | boot/src/internal.c:9550-9667 | Offered only fragments of one cut of a body, none of them into a gap, a message holds runs of whole fragments with the right bytes, and is ready only with the body itself |
| `FragmentCuts.AnyOrderHonest` | boot/src/internal.c:9550-9667 | A message in at most four fragments stays right for every order, repetition and loss of fragments and every allocation failure |
| `FragmentCuts.ShortCutReady` | boot/src/internal.c:9550-9667 | While memory lasts, a message in at most four fragments is ready exactly when each of them has arrived |
| `FragmentCuts.FewBuckets` | boot/src/internal.c:9617-9640 | Separate runs of whole fragments number at most half the fragments, rounded up, so short cuts never meet the limit on runs |
| `FragmentCuts.SafeIffShort` | boot/src/internal.c:9386-9667 | Reassembly gives the body that was sent under every order of arrival if and only if the message has at most four fragments; for every longer cut there is an order that makes the message ready with a wrong byte |
| `HandshakeHeader.GetPutHeader` | boot/src/dtls13.c:196-212 | The handshake header written in front of a fragment is read back with the same type, length, message number, offset and fragment length |
| `ReceiverProofs.ProcessBufferedKeeps` | boot/src/dtls13.c:358-434 | The loop over buffered messages only takes messages off the front; each one it counts carries, in its own header, the number behind the last one counted; and if it answers 0 no complete next message is left |
| `ReceiverProofs.StoreKeeps` | boot/src/internal.c:9679-9738 | Storing a fragment keeps every entry well formed and adds at most one |
| `ReceiverProofs.RecvKeeps` | boot/src/dtls13.c:1800-1949 | One receive step, for every input and environment: what it counts, directly or from the buffer, carries the expected number in its own header, nothing counted is taken back, the entries stay well formed, and after an answer of 0 the head is not a ready message with the expected number (unless nothing changed) |
| `ReceiverProofs.CountedInOrder` | boot/src/dtls13.c:340-356 | In every run the messages counted have, in their own headers, the numbers start, start + 1, start + 2, ... across the direct and the buffered path |
| `ReceiverProofs.HeadWaitsIff` | boot/src/dtls13.c:1854-1949 | In every run, whatever was answered before: after an answer of 0 the buffer head is a ready message with the expected number if and only if it was one before the step and the step discarded its input (an old number, or a part that is not accepted) |
| `ReceiverWitnesses.HeadWaitsBehindDuplicate` | boot/src/dtls13.c:392-434 | A run from the start in which WANT_WRITE leaves a ready, expected message in the buffer, and a duplicate is then answered 0 while it still waits |
| `ReceiverProofs.AheadIffNotOvertaken` | boot/src/dtls13.c:1936-1949 | In every run that starts with no old number in the buffer, until the expected number wraps: there is none afterwards if and only if the buffer holds no part of a message that the run has counted, on either path |
| `ReceiverProofs.OvertakenForever` | boot/src/dtls13.c:358-442 | A buffered part whose message was overtaken by a whole copy stays at the head for the rest of the run, however long, and holds back everything behind it, until the expected number wraps |
| `ReceiverWitnesses.PartIsOvertaken` | boot/src/dtls13.c:1936-1949 | Two inputs, both answered 0, lead there from the start: a part of a message, then the whole message |
| `ReceiverSlots.BufferProcessed` | boot/src/dtls13.c:358-434 | With one epoch and one slot per message: the loop over the buffer counts exactly the messages up to the first slot that is not complete |
| `ReceiverSlots.StoreInSlot` | boot/src/internal.c:9679-9770 | Lookup, update and sorted insertion of the list together change exactly the slot of the message |
| `ReceiverObject.HandshakeReceiver.ProcessBufferedMessages` | boot/src/dtls13.c:358-434 | The loop over the buffer, on fields, ends in the state and with the answer of the specification; WANT_WRITE counts the message and stops |
| `ReceiverObject.HandshakeReceiver.FindMessage` | boot/src/internal.c:9669-9677 | The first entry with the epoch and number |
| `ReceiverObject.HandshakeReceiver.InsertMessage` | boot/src/internal.c:9740-9770 | Insertion in front of the first entry that is later in both epoch and number, which need not exist |
| `ReceiverObject.HandshakeReceiver.StoreFragment` | boot/src/internal.c:9679-9738 | Update of the entry, or a new one, for every allocation outcome; an entry whose first fragment fails is not kept |
| `ReceiverObject.HandshakeReceiver.HandshakeRecv` | boot/src/dtls13.c:1800-1949 | The receive step on fields is the specification step for every input: every check in its order, and direct processing counts only on answer 0 |
| `RtxRecords.Resent` | boot/src/dtls13.c:1647-1664 | A retransmission keeps epoch, type and bytes and adds its number to the remembered ones, or starts over with it when three are remembered |
| `RtxRecords.TracksLatest` | boot/src/dtls13.c:638-676 | After n transmissions a record is tracked by exactly its last ((n - 1) mod 3) + 1 numbers, in order |
| `RtxRecords.LatestIsTracked` | boot/src/dtls13.c:2641-2654 | The latest transmission can always be acknowledged, and a number the record was never sent under never matches |
| `RtxRecords.AckExact` | boot/src/dtls13.c:2822-2852 | If no number is tracked by two queued records, an ACK leaves exactly the records none of whose tracked numbers it names, in their old order |
| `RtxRecords.AckOrderIrrelevant` | boot/src/dtls13.c:2822-2852 | The result depends only on the set of numbers in the ACK |
| `RtxRecords.AckIdempotent` | boot/src/dtls13.c:2822-2852 | Processing the same ACK again changes nothing |
| `RtxRecords.RemoveExactIffDistinct` | boot/src/dtls13.c:2684-2710 | Removing one record per number is right for every number if and only if no number is tracked by two records |
| `RtxQueue.Queue.AddRecord` | boot/src/dtls13.c:678-686 | Appending through the tail pointer: the list stays an acyclic chain whose tail pointer addresses its last link, and its contents grow by the record at the end |
| `RtxQueue.Queue.Unlink` | boot/src/dtls13.c:688-706 | Unlinking a record removes exactly it, and moves the tail pointer back when it was the last |
| `RtxQueue.Queue.MoveToEnd` | boot/src/dtls13.c:1581-1591 | Moving a record to the end rotates exactly that record |
| `RtxQueue.Queue.FlushBuffered` | boot/src/dtls13.c:708-732 | Flushing leaves exactly the session tickets when they are kept, else nothing, in order and with a correct tail pointer |
| `RtxQueue.Queue.RemoveRecord` | boot/src/dtls13.c:2684-2710 | The first record tracked by the number is unlinked and nothing else changes |
| `RtxQueue.Queue.TrackSend` | boot/src/dtls13.c:1655-1664 | Remembering a new number for one record leaves every other record as it was |
| `FragmenterProofs.FragmenterDoes` | boot/src/dtls13.c:1015-1083 | One call of the fragmenter, for every outcome of every fragment: what it emits is, in order and under the sending epoch, the fragments whose records were built and no earlier flush held back, with one whose send failed when its record was in the output buffer among them; what it queues is those with which the message goes on; the built ones continue the message without gap or overlap, none larger than the room; the answer is that of the last fragment tried, and anything but 0 and a blocked send gives the message up |
| `FragmenterProofs.TriesAre` | boot/src/dtls13.c:1030-1079 | Fragment j of a call lies at offset + j * room, gets the number j behind the first, and its answer is decided by the j-th outcome alone; a call ends at the first answer other than 0 or at the last byte |
| `FragmenterProofs.ResumeDoes` | boot/src/dtls13.c:1972-1981 | A pending message, resumed however often sending blocks and with whatever fragment size each resumption finds: the fragments in records continue it without gap or overlap, it goes on if and only if no flush in front of a fragment blocks and nothing fails, and its number is used up exactly when that lasts to its end |
| `SendMessageProofs.MessageGetsOut` | boot/src/dtls13.c:2023-2079 | A message of any type and size, sent on either path and resumed however often it blocks: the fragments in records cover it from the first byte on, and are what is emitted, except those an earlier flush held back; they are what is queued, except for a HelloRetryRequest and for a last one whose send failed late; it gets out or stays pending if and only if no consumed outcome is a blocked flush in front of a fragment or a failure; its number is used up exactly when it gets out, and a message given up is in records completely only if its last send failed late |
| `SendMessageProofs.FailedGoesOut` | boot/src/internal.c:11095-11115 | A message in one record whose send fails when the record is in the output buffer: the caller gets an error, but the record goes out; it is not queued, and the number is free for the next message |
| `SendMessageProofs.NothingBegun` | boot/src/dtls13.c:2050-2079 | Without keys for the current epoch, or without memory for a message that has to be cut, the call reports an error and emits, queues and counts nothing |
| `SendMessageProofs.WantWriteGivesUp` | boot/src/dtls13.c:1043-1047 | A flush that blocks in front of the second fragment answers WANT_WRITE, which callers take for a message to be resumed, but the message is given up: the first fragment stays sent, nothing is pending, and the number is free for the next message |
| `SendPathProofs.HandshakeSendNumbers` | boot/src/dtls13.c:977-1013 | On either send path, for every outcome: tracked numbers stay unique among queued records and below the counters, and emitted records never share a number, until a counter wraps |
| `SendPathProofs.RetransmissionPass` | boot/src/dtls13.c:1593-1678 | A retransmission pass emits the queued records in list order, each with its stored bytes and epoch, up to the first that is not simply sent; WANT_WRITE moves that record to the end when its sending blocks, and leaves the list as it was when the flush in front of it blocks, so that the next pass meets the same record again; a send that fails late emits its record too and leaves the list as it was |
| `SenderObject.Dtls13Sender.GetSeq` | boot/src/dtls13.c:2254-2292 | The counter of the encryption epoch advances by one modulo 2^64 and a wrap is reported |
| `SenderObject.Dtls13Sender.SendOneFragment` | boot/src/dtls13.c:977-1013 | The record is allocated before the send, and queued when the send succeeds or blocks; after a failure, even with the record in the output buffer, it is not |
| `SenderObject.Dtls13Sender.SendFragmentedInternal` | boot/src/dtls13.c:1015-1083 | The loop over fragments, with its buffer and offset fields, is the specification |
| `SenderObject.Dtls13Sender.FragmentsContinue` | boot/src/dtls13.c:1972-1981 | Resuming a blocked message, and counting it once all of it is out |
| `SenderObject.Dtls13Sender.HandshakeSend` | boot/src/dtls13.c:2023-2079 | Epoch selection, the unfragmented and the fragmented path, and when the message number advances |
| `SenderObject.Dtls13Sender.RtxSendBuffered` | boot/src/dtls13.c:1593-1678 | The retransmission loop over the linked list is the specification pass |
| `EndToEndSender.SenderStep` | boot/src/dtls13.c:977-1130 | Every step of the sender (sending, resuming, retransmitting, processing ACKs, flushing, a new epoch, perhaps in the slot of an evicted one) keeps every queued and emitted record a fragment of one of the messages that came into records, whose numbers go up by at most one |
| `EndToEndReceiver.AcceptedIsPrefixOfSent` | boot/src/dtls13.c:1593-1949 | End to end, for every loss, duplication, reordering, retransmission and answer of the transport: if no message that was followed by another one under its number had come into records completely, the accepted messages, with type and full body, are the first of the messages that were not, in order; no fragment may fall in a gap between stored runs, and no message be started that the receiver could mix with a given-up one |
| `EndToEndReceiver.AcceptedIsSent` | boot/src/dtls13.c:1593-1949 | In all these runs, also behind sends that failed late: every accepted message came into records completely, with its type and body, under its number, and the numbers are consecutive |
| `EndToEndReceiver.ShortRunIsGuarded` | boot/src/internal.c:9640-9660 | When every message goes out in at most four fragments no fragment ever falls in a gap, so deliveries need no condition |
| `EndToEndLimits.EndToEndIffShort` | boot/src/internal.c:9386-9667 | From the start, a message is sent, on either path, and its fragments are delivered in whatever way: the receiver counts nothing or just that message, in every such run, if and only if the message is at most four fragments long |
| `EndToEndLimits.LongMessageBreaks` | boot/src/internal.c:9640-9660 | For every longer message there is a run of the whole system, from the start, after which the receiver has counted a message that was never sent |
| `EndToEndLimits.ArrivalsAreARun` | boot/src/dtls13.c:1854-1949 | Every order of arrival of the fragments of a message is a run of the system, and leaves the receiver with what the fragment store makes of that order |
| `EndToEndLimits.ShortMessageArrives` | boot/src/dtls13.c:1854-1949 | With memory, a message of up to four fragments has been counted, with its bytes, exactly when every fragment has arrived |
| `EndToEndAttempts.NextMessageIffHarmless` | boot/src/dtls13.c:1015-1083 | From the start, a message is left behind, after any number of fragments and for any reason, and the next one, which gets the same number, is sent without trouble; both have at most four fragments and the same record size. Over every delivery of their records, the receiver counts nothing or the second message, if and only if: they agree in type and length and the part of the first that came into records is the front of the second, or they differ in type or length and the first did not come into records completely |
| `EndToEndAttempts.LeftBehindBreaks` | boot/src/dtls13.c:1043-1047 | Otherwise some run makes the receiver count, under that number, something that is not the second message: the front of the first one with the rest of the second, or all of the first |
| `EndToEndAttempts.GivenUpIsLeft` | boot/src/internal.c:11376-11389 | A flush that blocks behind the first fragment answers WANT_WRITE and leaves the message there, which is such a start |
| `EndToEndAttempts.FailedIsLeft` | boot/src/internal.c:11095-11115 | So is a send that fails with the only record in the output buffer, which leaves all of the message |
| `EndToEndAttempts.FailedNextIffSame` | boot/src/dtls13.c:2023-2079 | Behind a message that was reported as failed although all of it goes out, the next one is safe if and only if it is the same message again |
| `EndToEndDelivery.CountedIffDelivered` | boot/src/dtls13.c:1854-1949 | Several messages on the wire, with memory, answers of 0 from the handlers, one epoch and fewer messages than the buffer has entries: after any deliveries the receiver has counted, in order and with their bytes, exactly the first messages of which every fragment was delivered |
| `EndToEndDelivery.SentMessagesArrive` | boot/src/dtls13.c:1854-1949 | From the start: messages sent one after the other without trouble lead to such a state, so that holds for everything delivered afterwards |
| `EndToEndDelivery.FullBufferStalls` | boot/src/dtls13.c:1917-1926 | With as many messages under way as the buffer has entries, each in at least two fragments, some order of delivery fills it; every fragment of the expected message is then delivered, is refused, and the message is never counted |
| `EndToEndDelivery.DeliveryIffFewMessages` | boot/src/dtls13.c:1917-1926 | So for messages in two to four fragments, over every order of delivery: counted are exactly the first messages delivered completely, if and only if fewer messages are under way than the buffer has entries |
| `EndToEndAcks.AckExactInEveryRun` | boot/src/dtls13.c:2254-2366 | In every reachable state of the whole system, with epochs installed and evicted, until a counter wraps and as long as no evicted epoch returns: emitted records have distinct numbers, and an ACK leaves exactly the records none of whose tracked numbers it names |
| `AckMessage.InsertKeepsIncreasing` | boot/src/dtls13.c:753-791 | Inserting keeps the list strictly increasing by epoch and sequence number and adds exactly the number |
| `AckMessage.DropKeepsIncreasing` | boot/src/dtls13.c:859-877 | Removing keeps the order and removes exactly the number |
| `AckMessage.ListIsSortedSet` | boot/src/dtls13.c:753-877 | After any history of seen, dropped and flushed numbers the list is the set of numbers seen since, in increasing order |
| `AckMessage.AckRoundTrip` | boot/src/dtls13.c:2562-2639 | A list of n numbers, written as an ACK and parsed, comes back as its first n mod 4096 numbers |
| `AckMessage.AckFaithfulIffShort` | boot/src/dtls13.c:2562-2639 | The ACK says what the list says if and only if the list has fewer than 4096 entries |
| `AckMessage.RoomIffShort` | boot/src/dtls13.c:2603-2612 | The room reserved for an ACK, taken from the truncated length, holds what is written if and only if the list has fewer than 4096 entries |
| `AckMessage.SeenRecordsLeaveQueue` | boot/src/dtls13.c:2822-2852 | From the receiver's list over the wire to the sender's queue: exactly the records seen under a tracked number leave |
| `AckList.SeenRecords.AddAck` | boot/src/dtls13.c:753-791 | Over the linked list: sorted insertion without duplicates; memory is needed, and its lack reported, only for a number that is not there |
| `AckList.SeenRecords.RemoveCurAck` | boot/src/dtls13.c:859-877 | The number of the record being processed is unlinked, wherever it stands |
| `AckList.SeenRecords.FlushAcks` | boot/src/dtls13.c:793-818 | The list ends up empty |
| `AckList.SeenRecords.WriteAckMessage` | boot/src/dtls13.c:2579-2639 | The bytes of the ACK in the output buffer, the reported length with its 16-bit truncation, and nothing written behind |
| `AckList.HasKeyUpdateBuffered` | boot/src/dtls13.c:2795-2807 | Whether a KeyUpdate is still queued |
| `AckList.DoAck` | boot/src/dtls13.c:2822-2870 | The two error cases leave the queue alone; otherwise the queue loses what the list of numbers says, the whole message is consumed, and the two follow-up actions are enabled exactly when the queue is empty, or holds no KeyUpdate |
| `Epochs.SlotAvailable` | boot/src/dtls13.c:2294-2327 | With four slots there is always one to use: three numbers cannot block all of them |
| `Epochs.NewEpochSucceeds` | boot/src/dtls13.c:2329-2366 | Installing an epoch always succeeds, keeps valid numbers distinct, and loses exactly the last eligible epoch of a full table, all other epochs keeping their counters |
| `Epochs.CurrentEpochsStay` | boot/src/dtls13.c:2309-2312 | The current send and peer epochs, with their counters, survive every installation |
| `Epochs.NewEpochSeals` | boot/src/dtls13.c:2356-2365 | After the handshake, an epoch installed for decryption leaves every epoch below its predecessor usable for encryption only |
| `Epochs.PreviousStaysUsable` | boot/src/dtls13.c:2356-2365 | An epoch that follows the peer epoch can be selected for decryption, and so can the peer epoch it follows |
| `Epochs.OldEpochsStaySealed` | boot/src/dtls13.c:2164-2409 | In every run after the handshake with decryption epochs installed in increasing order, no installation fails and no epoch below the newest minus one can be selected for decryption |
| `EpochTable.Table.GetEpoch` | boot/src/dtls13.c:2164-2176 | The first valid slot with the number |
| `EpochTable.Table.SetOlderEpochSide` | boot/src/dtls13.c:2178-2190 | The side of every valid older epoch, and of no other, is set |
| `EpochTable.Table.NewEpochSlot` | boot/src/dtls13.c:2294-2327 | The loop picks the first invalid slot, else the last eligible one, which it clears |
| `EpochTable.Table.AddEpoch` | boot/src/dtls13.c:2329-2366 | Over the table in memory: never an error, and the table of the specification |
| `EpochTable.Table.SetEpochKeys` | boot/src/dtls13.c:2368-2416 | Which slot encryption and decryption use afterwards, and the two error cases |
| `EpochTable.Table.GetSeq` | boot/src/dtls13.c:2254-2292 | The number handed out, and the counter, which a wrap leaves at 0 although it is reported |
| `UnifiedHeader.OneBitTested` | boot/src/dtls13.c:1367-1374 | The test for a unified header looks at one bit of the first byte |
| `UnifiedHeader.FixedBitsExact` | boot/src/dtls13.c:96-98 | It agrees with the three fixed bits of section 4 of RFC 9147 exactly for bytes below 0x40 and bytes without that bit |
| `UnifiedHeader.FixedBitsMissed` | boot/src/dtls13.c:96-98 | The byte 0x60 is taken for a unified header although its fixed bits are 011 |
| `UnifiedHeader.XorAtTwice` | boot/src/dtls13.c:299-318 | Masking a record number twice restores it |
| `UnifiedHeader.HeaderRoundTrip` | boot/src/dtls13.c:1217-1562 | Writing, masking and parsing with matching connection ids gives the epoch bits, the length and the low 16 bits of the number, and restores the header the sender wrote |
| `RecordNumbers.NoneNearer` | boot/src/dtls13.c:1376-1423 | The reconstructed number has the received low bits, and no 64-bit number with those bits is nearer to the expected one, near 0 and 2^64 included |
| `RecordNumbers.RecoveredIff` | boot/src/dtls13.c:1376-1423 | Exactly which numbers come back from their low 8 or 16 bits: a gap below half the range, the tie in the same block, and the two ends where the wrap guards suppress the correction |
| `RecordNumbers.SmallGapRecovers` | boot/src/dtls13.c:1376-1423 | A gap below 2^15 is always enough |
| `RecordNumbers.EpochRecoveredIff` | boot/src/dtls13.c:1425-1461 | The two epoch bits give the sender's epoch exactly when it is the peer epoch, or the highest valid nonzero epoch with those bits while the peer epoch has others |
| `RecordNumbers.RecordNumberRoundTrip` | boot/src/internal.c:11735-11834 | From the sender's header to the receiver's state: a record is given its sender's epoch and full 64-bit number exactly when the epoch is known and open for decryption, the number recoverable, and 16 bytes of ciphertext are there |
| `HeaderBuffers.AddCiphertextHeader` | boot/src/dtls13.c:1217-1252 | The header bytes in the buffer, the rest of it untouched |
| `HeaderBuffers.EncryptRecordNumber` | boot/src/dtls13.c:1291-1328 | Masking in place, with the width taken from the length bit, and the error for short records |
| `HeaderBuffers.ParseUnifiedRecordLayer` | boot/src/dtls13.c:1492-1562 | Parsing in place: every error in its order without a change, else the fields and the unmasked number |
| `HeaderBuffers.ReconstructEpochNumber` | boot/src/dtls13.c:1425-1461 | The search over the table |
| `RingBuffer.ContentIsUnread` | boot/src/bio.c:1518-1540 | The bytes the two indices stand for are those in the slots from the read index up to the write index, around the end of the buffer, each exactly once and in that order; their number and the free room add up to the slots there are |
| `RingBuffer.ReadExact` | boot/src/bio.c:67-98 | A read returns exactly min(len, content) bytes in order and leaves the rest, or asks for a retry when the ring is empty: two attempts always suffice |
| `RingBuffer.ReadStalled` | boot/src/bio.c:1533-1537 | Just after a write has wrapped to index 0, a read fails without a retry and changes nothing, although there are bytes |
| `RingBuffer.WriteExact` | boot/src/bio.c:543-585 | A write accepts exactly min(len, capacity - content) bytes and appends them; a full ring is an error and stays as it is |
| `RingBuffer.StallsIff` | boot/src/bio.c:1662-1667 | A write stalls readers exactly when it ends at the end of the buffer while earlier bytes were already read |
| `RingBuffer.PendingIffNotStalled` | boot/src/bio.c:1328-1341 | The pending count is the content length exactly outside the stalled state |
| `PairRuns.PairIsTwoPipes` | boot/src/bio.c:1518-1671 | For every interleaving of writes and reads on both ends, in each direction: bytes returned, followed by the ring content, are the bytes accepted |
| `PairRuns.LongReadDrains` | boot/src/bio.c:67-98 | Outside the stalled state a long enough read returns everything that was accepted |
| `PairRuns.WriteEndsStall` | boot/src/bio.c:1619-1622 | The next write to a stalled ring accepts bytes and ends the stall |
| `BioPair.Bio.NRead` | boot/src/bio.c:1544-1590 | The read index and its resets, on the pair's fields |
| `BioPair.Bio.NWrite` | boot/src/bio.c:1593-1671 | The write index, its limits and its wrap, on fields |
| `BioPair.Bio.Read` | boot/src/bio.c:67-98 | The bytes in the caller's buffer, the return value and the retry flags for every state, paired or not |
| `BioPair.Bio.Write` | boot/src/bio.c:543-585 | The ring afterwards, the return value and the retry flags for every state, paired or not |
| `BioPair.Bio.CtrlPending` | boot/src/bio.c:1328-1341 | The pending count, with the conversion to an unsigned size |
| `BioPair.Bio.SetWriteBufSize` | boot/src/bio.c:1405-1452 | When the buffer can be replaced, and the empty ring it leaves |
| `BioPair.MakeBioPair` | boot/src/bio.c:1459-1500 | When two ends can be joined, the default size, and that a failure joins nothing |
| `MemoryFifo.ReadExact` | boot/src/bio.c:112-192 | A read takes exactly min(len, content) bytes off the front whatever it returns; "not enough memory" is unreachable; it reports an error exactly when there is nothing or memory cannot be given back |
| `MemoryFifo.WriteExact` | boot/src/bio.c:598-632 | A write appends all its bytes or, for lack of memory, nothing; an empty write reports 1 |
| `MemoryFifo.LineLengthIs` | boot/src/bio.c:1015-1026 | Up to and including the first newline, or everything |
| `MemoryFifo.GetsExact` | boot/src/bio.c:1087-1119 | A line piece is cut off the front, with a newline only as its last byte; it ends at a newline, at the size limit or at the end of the content |
| `MemoryFifo.MemoryIsFifo` | boot/src/bio.c:112-632 | For every mix of write, read and gets: bytes copied out followed by the content are the bytes accepted; while allocations succeed all were reported, and the buffer length stays the number of bytes written |
| `MemoryFifo.FailedShrinkLosesBytes` | boot/src/bio.c:149-153 | A read that cannot shrink the buffer reports an error although its bytes are gone |
| `MemBio.Bio.Grow` | boot/src/ssl.c:24596-24651 | Growing keeps the bytes and sets the length, or fails without a change |
| `MemBio.Bio.Resize` | boot/src/ssl.c:24660-24697 | Resizing in both directions keeps the bytes that fit |
| `MemBio.Bio.Write` | boot/src/bio.c:598-632 | The write over the growing buffer is the specification |
| `MemBio.Bio.Read` | boot/src/bio.c:112-192 | The read, with compaction and shrinking in place, is the specification |
| `MemBio.Bio.Gets` | boot/src/bio.c:1087-1119 | The line read is the specification |
| `QuicFrames.FramesOfSum` | boot/src/quic.c:46-54 | Later bytes of a stream are cut where earlier ones stopped, and size limits are met by the whole exactly when they are met in pieces |
| `QuicFrames.FramesExact` | boot/src/quic.c:67-166 | The messages followed by the rest are the stream |
| `QuicFrames.FramesAreFrames` | boot/src/quic.c:46-54 | Every message has the length its 4-byte header says |
| `QuicFrames.CutUnique` | boot/src/quic.c:46-54 | There is only one cut of a stream into such messages and an incomplete rest |
| `QuicFrames.ProvideKeepsOK` | boot/src/quic.c:698-760 | Every accepted call keeps encryption levels from decreasing along the queue, and the scratch record an incomplete message |
| `QuicFrames.TwoChunks` | boot/src/quic.c:698-760 | Two chunks are as good as one, in success, queue and scratch bytes |
| `QuicFrames.ChunksDoNotMatter` | boot/src/quic.c:698-760 | However a handshake stream is split, the calls succeed if and only if one call with all of it does, and leave the same queue and scratch bytes |
| `QuicObject.QuicState.Append` | boot/src/quic.c:109-166 | The header and body steps of the scratch record: what is consumed, that it fits the buffer, and when the announced length is refused |
| `QuicObject.QuicState.TakeAll` | boot/src/quic.c:717-750 | The loop ends, although starting a record consumes nothing, with the queue and scratch bytes of the cut |
| `QuicObject.QuicState.ProvideData` | boot/src/quic.c:698-760 | Level checks, early data and the loop: the state of the specification on success, and with memory a failure only where the specification has one |
| `QuicTransfer.TransferTakes` | boot/src/quic.c:186-222 | What one transfer hands out comes off the front of what the record will give out |
| `QuicTransfer.ReturnedIsPrefix` | boot/src/quic.c:764-804 | For any request sizes, on runs without an error, the bytes handed out are a prefix of the stream and the rest is still to come |
| `QuicTransfer.OneHeader` | boot/src/quic.c:186-222 | A record that fits gives out one header with its length and then its bytes |
| `QuicTransfer.StreamIsFramed` | boot/src/quic.c:169-222 | The stream of such records is header and body of each in queue order |
| `QuicTransfer.StripFramed` | boot/src/quic.c:813-863 | Stripping such framing forwards exactly the bodies |
| `QuicTransfer.StripInPieces` | boot/src/quic.c:813-863 | Calls that split bodies but not headers forward the same bytes as one call |
| `QuicTransfer.StripLong` | boot/src/quic.c:200-206 | For a record that needs several headers the bodies come out right but the last header leaves a remainder open |
| `QuicTransfer.FramingRightIff` | boot/src/quic.c:200-206 | A record comes through exactly when it fits one TLS record or fills the last of several |
| `QuicTransfer.HandshakeComesThrough` | boot/src/quic.c:698-863 | A stream cut into messages, framed for TLS and stripped again is the same stream |
| `QuicObject.QuicState.ReceiveData` | boot/src/quic.c:764-804 | The receive loop fills the buffer or empties the queue, asks for more only when there is nothing, and fails only when what is left of the buffer cannot hold a header |
| `QuicObject.QuicState.SendData` | boot/src/quic.c:813-863 | The send loop forwards what stripping gives, and refuses application data only after the handshake |
| `ClientHello.EncodedIsParsed` | boot/src/dtls.c:298-348 | The encoding of every hello with an absent or non-empty extension block is accepted with exactly its fields |
| `ClientHello.ParsedIsEncoded` | boot/src/dtls.c:298-348 | An accepted complete hello is the encoding of the fields returned |
| `ClientHello.AcceptedIff` | boot/src/dtls.c:298-348 | A complete hello is accepted if and only if it is such an encoding |
| `ClientHello.FragmentParsed` | boot/src/dtls.c:329-341 | A first fragment accepted in addition is a hello cut inside its extension block, and the bytes that are there are returned |
| `ClientHello.FragmentAccepted` | boot/src/dtls.c:329-341 | Every hello cut inside its extension block, behind at least one of its bytes, is accepted as a first fragment with those bytes and refused as a complete hello |
| `ClientHello.FindsFirst` | boot/src/dtls.c:351-375 | For a list of entries followed by fewer than four bytes or by an overrunning entry: the first entry of the type, else an error exactly for the overrun |
| `ClientHello.EntriesExact` | boot/src/dtls.c:351-375 | Every extension block is such a list |
| `ClientHello.FindExact` | boot/src/dtls.c:351-375 | For every block and type: the first entry of the type, else an error if and only if an entry overruns |
| `ClientHelloParser.ReadHead` | boot/src/dtls.c:306-327 | The four vectors and the checks that room is left behind each, as views into the input |
| `ClientHelloParser.ParseClientHello` | boot/src/dtls.c:298-348 | Over an input of exactly the hello's size, so that nothing past it is read: the result and the filled views are those of the specification |
| `ClientHelloParser.FindExtByType` | boot/src/dtls.c:351-375 | The search loop is the specification |

## Left out

- SenderObject.Dtls13Sender.HandshakeSend: does not model the transcript hash, or the choice of fragment size; whether the room check in front of a fragment finds room, a blocked flush or another failure is a parameter, and the room check of the unfragmented path belongs to its callers.
- SenderObject.Dtls13Sender.SendOneFragment: does not model the alert and the close that follow some send errors; a record in the output buffer counts as emitted, since any later flush may send it, and nothing promises that one does.
- ReceiverObject.HandshakeReceiver.HandshakeRecv: does not model what message handlers do, nor the flags that schedule ACKs and retransmissions; handler answers are parameters, and a check that rejects a stored plaintext message is one of them.
- Reassembly.DtlsMsgSet: keeps runs and messages as values in a sequence, so unlinking and freeing of their C nodes are not modelled; these lists have one owner.
- EndToEndReceiver.AcceptedIsPrefixOfSent: assumes message numbers below 65535 (they have 16 bits) and one message being sent at a time, as callers of the send function ensure; and that behind a message left half-way none is started that has its type and length, unless each fits one record.
- EndToEndAttempts.NextMessageIffHarmless: takes one message to be left behind, in front of one that is sent without trouble; several in a row under one number are covered by EndToEndReceiver.AcceptedIsSent only.
- EndToEndDelivery.CountedIffDelivered: takes the messages to be cut completely before they are delivered, and the handlers to answer 0; a handler that answers WANT_WRITE can leave a complete message waiting (ReceiverProofs.HeadWaitsIff).
- EndToEndAcks.AckExactInEveryRun: an epoch that was evicted does not come back; installed again, its numbers would start over.
- AckList.SeenRecords.WriteAckMessage: asks for a buffer with room for all entries; the room the code checks for is taken from the truncated length, and suffices exactly for fewer than 4096 entries (AckMessage.RoomIffShort).
- RecordNumbers.RecordNumberRoundTrip: does not model the rule that drops early data after the handshake, nor records that span reads.
- MemBio.Bio.Write: does not model sizes near 2^31, where the computed capacity overflows an int, nor read-only memory BIOs.
- BioPair.Bio.Read: does not model negative lengths, nor BIOs of other types in a chain; gets on a BIO pair is not modelled.
- QuicObject.QuicState.ProvideData: says nothing about the state after a failure; callers give up the connection then. Records and their queue are values.
- QuicObject.QuicState.SendData: takes add_handshake_data to accept its bytes, does not model the level they are forwarded at, and asks that the output does not end inside a record header, which the code does not check.
- ClientHelloParser.ParseClientHello: the cookie check and the stateless reply are not modelled.
- Cryptography: ciphers, key derivation, hashes, certificates and signatures are not part of this model.
- Timers and scheduling: the two retransmission timeouts are steps that may happen at any time.
- Mutexes: the code runs single-threaded here; the variants built with separate reader and writer threads are not modelled.
- The saved first ClientHello, retransmission of certificates by request context, AEAD failure limits and downgrade to DTLS 1.2 are not modelled.
- OCSP, CRL and configuration handling, sockets, files and the demonstration programs are not modelled.
