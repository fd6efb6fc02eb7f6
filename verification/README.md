# Verified model of the tunnel's transport layers

The repository carries a byte stream through video calls.  This project models
the hand-written layers that make that possible and proves what each one
promises to the layer above it:

* the stop-and-wait ARQ with fragmentation that `seichannel` and `videochannel`
  share: frames, reassembly, duplicate suppression, acknowledgement, retry, and
  a two-endpoint step system over lossy FIFO tracks (`Frames`, `Reassembly`,
  `ArqTransport`, `ArqSystem`, `ArqIntake`, `ArqSafety`, `ArqTheorems`,
  `ArqProgress`);
* `muxconn` on top of it, giving one end-to-end byte stream (`Muxconn`, `EndToEnd`);
* the SEI codec and the H.264 access units that carry the frames (`Sei`, `AnnexB`);
* `vp8channel`: the RTP frame assembler, restart detection by epochs, and the
  frame reader racing with carrier reconnects (`Vp8Frames`, `Vp8Epoch`, `Vp8Runtime`),
  and the length-prefix framing over KCP (`KcpFraming`);
* the SaluteJazz data packets (`Jazz`);
* the server's compare-and-replace of its smux session, at lock granularity (`Server`).

Code that updates fields, buffers or cursors is a class or a loop here too, each
method proved against a function of the old state.  The step systems are built from
those functions; where a system cuts a method into its critical sections, a lemma
puts them together again (`ArqTheorems.SendEndsAsMethod`, `Vp8Runtime.ReaderAlone`,
`Server.Uninterrupted`).

## How the main results are stated

`ArqSystem` is symmetric: both endpoints send and receive, and `Facing` puts
either of them on the left.  Its events are the critical sections of the source:
a `Send` takes its number, queues one fragment, waits, takes an ack, times out or
is aborted by `Close`; the writer moves the head of either queue onto the track;
a track loses or repeats a frame in place; the reader takes one frame through
`handleInboundFrame`, calls `onData`, and only then queues the ack.  Timers,
scheduling, the writer's preference for acks and the order of a `select` are
nondeterministic.  The safety theorems hold in every state of every run.

`EndToEnd` runs two `muxconn` conns on that system; `Vp8Epoch` runs two peers that
restart and reconnect, with echoes of any of their lives; `Vp8Runtime` interleaves
one frame reader with reconnects; `Server` interleaves the unlocked first install,
any number of `handleReconnect` callers, the accept loop of `serve`, and
`closeSession`.

Assumptions, each named in the statement that uses it or in the step system:

* ARQ: one transport lifetime per end, at most 2^32 - 1 sends, at most 65535
  fragments to a message (`WithinLimits`), a positive fragment size and at least
  one attempt (`Config.Valid`), one track reader, FIFO tracks with loss and
  adjacent repetition.  CRC-32 is an arbitrary function of the payload.
* `EndToEnd`: one conn at each end, neither is closed, and what was encrypted
  decrypts to what was written; nothing else about the cipher.
* `Vp8Epoch`: every life of either peer draws an epoch no other life has used.
* `Vp8Runtime`: one frame reader.
* KCP is a reliable ordered byte stream.  RTP packets arrive parsed, with their
  VP8 descriptor parsed or failed.
* `Jazz`: an encoded packet is no longer than the longest slice a 64-bit `int` measures.

## What the proofs show about the code

* Wiping `delivered` once it exceeds 256 entries is safe because the tracks are FIFO: a frame
  of a finished message can only be a late copy of the latest one.  On a track
  that reorders it would deliver a message twice (`ArqTheorems.LateDuplicateAfterWipe`).
* Echoes of the current life are harmless.  An echo of an earlier life is taken for a
  peer: it and the frame that corrects it cost at most two resets, and no other
  frames cost any but those of a restarted peer (`Vp8Epoch.ResetsBounded`,
  `Vp8Epoch.HarmlessExactly`); alternating, they reset at every frame
  (`Vp8Epoch.StaleEchoesLoop`).
* A Send whose last attempt has lost for good a fragment that the receiver lacks can
  no longer succeed, although it goes on queueing and waiting
  (`ArqProgress.SendMaySucceedExactly`).
* `EncodeDataPacket` of an empty payload does not decode; every other payload does
  (`Jazz.PacketRoundTrip`).
* The KCP writer accepts an empty message, and the reader never hands it up
  (`KcpFraming.StreamDeframes`).
* `closeSession` is final exactly when the first install is over and no caller has
  already read "no session" or cleared one: a session built by a replacement in
  progress is installed after it (`Server.ClosedStaysClosedExactly`).
* The first `installSession` runs without `reinstallMu`.  Two sessions can then be made
  for one place, and the one overwritten stays open for ever.  That can happen exactly
  when two of an installed session, the first install and a replacement in progress
  exist at once (`Server.LeakExactly`, `Server.OrphanStays`).  It takes a reconnect that
  compares before the first install is over (`Server.OneSession`,
  `Server.FirstInstallUnguarded`); the session may be overwritten later, by a
  replacement that outlasts that install (`Server.LeakAfterFirst`).
* Storing a KCP runtime does not close the one stored before.  A runtime can be left
  running for ever exactly when a start in progress meets a current runtime or another start:
  a reconnect before first contact, or two overlapping resets (`Vp8Runtime.LosesExactly`,
  `Vp8Runtime.EarlyReconnectLoses`).

## Model

| member | source | states |
|---|---|---|
| Bytes.ReadU32Inverse | internal/transport/seichannel/transport.go:551-609 | 32-bit fields are big-endian, spelt out in powers of 256; reading undoes writing and writing undoes reading, on all values and all 4-byte strings |
| Bytes.ReadU16Inverse | internal/transport/seichannel/transport.go:551-609 | the same for the 16-bit fields |
| Frames.EncodeDataFrame | internal/transport/seichannel/transport.go:551-563 | the buffer filled in place is the wire form of the frame whose counts are cut to their field widths |
| Frames.EncodeAckFrame | internal/transport/seichannel/transport.go:565-573 | the buffer filled in place is the wire form of the ack |
| Frames.DecodeWire | internal/transport/seichannel/transport.go:575-609 | every frame survives encoding and decoding |
| Frames.WireLayout | internal/transport/seichannel/transport.go:551-573 | the layout position by position, with version 1, type 1 for data and 2 for acks |
| Frames.DecodeAccepts | internal/transport/videochannel/frame.go:91-125 | the decoder accepts exactly the wire forms: a byte string decodes to a frame if and only if it is that frame's encoding, an ack with any bytes after it |
| Frames.DecodeRefuses | internal/transport/videochannel/frame.go:91-125 | each of the six errors, if and only if the bytes are refused for that reason first |
| Frames.MagicSeparates | internal/transport/seichannel/transport.go:575-584 | a frame of one package is refused by the other's decoder, as an unexpected magic |
| Frames.PackagesSeparate | internal/transport/videochannel/frame.go:8-12 | with the two magics of the repository: neither package ever takes a frame of the other for one of its own |
| Reassembly.FragmentPayload | internal/transport/seichannel/transport.go:534-549 | the loop computes the fragments that FragmentsJoin and FragmentAt describe, for every payload and size |
| Reassembly.FragmentsJoin | internal/transport/videochannel/frame.go:47-65 | gluing the fragments of any payload gives the payload back |
| Reassembly.FragmentAt | internal/transport/videochannel/frame.go:47-65 | there is a fragment i exactly when slice i starts inside the payload (and always a fragment 0), and it is that slice |
| Reassembly.RememberBound | internal/transport/seichannel/transport.go:502-505 | the duplicate table never holds more than 257 entries |
| Reassembly.UpsertSound | internal/transport/seichannel/transport.go:447-468 | whatever the frame, remain still counts the unfilled slots, and an incomplete entry is left incomplete or slotless |
| Reassembly.HandleSound | internal/transport/seichannel/transport.go:481-513 | any frame, consistent or not, keeps both tables sound; a payload given to onData matches its claimed CRC, its length modulo 2^32 is at most totalLen, and its length itself is so if and only if it is below 4 GiB |
| Reassembly.FeedHandsMatching | internal/transport/seichannel/transport.go:447-513 | the same after every prefix of every sequence of frames |
| Reassembly.RememberedWasHanded | internal/transport/seichannel/transport.go:493-506 | from empty tables, over every sequence of frames: each remembered sequence number and checksum has a frame of that number behind it that was answered by handing up a payload with that checksum; a message whose checksum fails is not remembered |
| Reassembly.ReackedWasHanded | internal/transport/seichannel/transport.go:481-487 | and a frame is acked as a duplicate only if a payload with its checksum was handed up for its number before |
| Reassembly.HandedFromFrames | internal/transport/seichannel/transport.go:447-506 | whatever frames arrive, a payload handed up joins, in index order, fragments that arrived for every index of one message, all announcing the same checksum, length and count, cut at the announced length by the 32-bit comparison |
| Reassembly.CompletesExactly | internal/transport/seichannel/transport.go:461-468 | a frame completes its entry if and only if its index is in range and then no slot is empty |
| Reassembly.FirstWriteWins | internal/transport/seichannel/transport.go:461-466 | a filled slot keeps its content for as long as its entry is kept |
| Reassembly.OthersUntouched | internal/transport/seichannel/transport.go:481-506 | a frame changes the pending entry of no other number, and others are forgotten only when more than 256 are remembered |
| Reassembly.UpsertCollects | internal/transport/seichannel/transport.go:447-479 | one more honest fragment: the entry records exactly the indices received, completes exactly when none is missing (an empty fragment counts as present), and then reassembles the payload |
| Reassembly.FeedProgress | internal/transport/seichannel/transport.go:481-513 | after any list of one message's fragments the receiver has delivered it if and only if every index occurred, and otherwise holds exactly those that did |
| Reassembly.OrderInsensitive | internal/transport/seichannel/transport.go:447-513 | fragments in any order with any repetition: silence until the last missing index, the payload exactly then, a fresh ack for every fragment after |
| ArqTransport.AttemptsAcked | internal/transport/seichannel/transport.go:221-243 | Send returns nil if and only if a matching ack is the wake-up of one of its attempts and no Close came in an earlier one; a timeout means every attempt was made |
| ArqTransport.TransmittedAcked | internal/transport/seichannel/transport.go:221-243 | and with Close cutting in at any point: if and only if a wait ends with a matching ack before Close has ended a wait or cut a round short |
| ArqTransport.ConcludeForgets | internal/transport/seichannel/transport.go:493-506 | concluding a message does not depend on what its pending entry last held |
| ArqTransport.AttemptsDecided | internal/transport/seichannel/transport.go:221-243 | the outcome and the number of attempts are those of the first decisive wake-up, and of none if there is none |
| ArqTransport.InboundMessage.constructor | internal/transport/seichannel/transport.go:450-455 | a fresh entry has every slot empty and all of them remaining |
| ArqTransport.InboundMessage.Store | internal/transport/seichannel/transport.go:461-466 | filling a slot in place: first write wins and is counted once |
| ArqTransport.StreamTransport.constructor | internal/transport/seichannel/transport.go:101-180 | an open transport with empty tables and queues and sequence number 0 |
| ArqTransport.StreamTransport.Create | internal/transport/seichannel/transport.go:449-457 | the table gains or replaces exactly one entry, and no two entries ever share storage |
| ArqTransport.StreamTransport.FindOrCreate | internal/transport/seichannel/transport.go:447-457 | the pending entry is kept when CRC, length and fragment count agree with the frame, and replaced by a fresh one otherwise |
| ArqTransport.StreamTransport.FillSlot | internal/transport/seichannel/transport.go:461-466 | writing into one entry leaves every other entry of the table as it was |
| ArqTransport.StreamTransport.UpsertInbound | internal/transport/seichannel/transport.go:447-468 | on the table of mutable objects, the effect and both results of the abstract insertion that UpsertSound and UpsertCollects are about |
| ArqTransport.StreamTransport.AssembleMessage | internal/transport/seichannel/transport.go:470-479 | the loop joins the slots in index order and cuts the result at totalLen by the source's 32-bit comparison |
| ArqTransport.StreamTransport.EnqueueFrame | internal/transport/seichannel/transport.go:384-400 | a closed transport, or one that Close reaches first, refuses and queues nothing; an open one appends to the queue the priority selects and to no other |
| ArqTransport.StreamTransport.SendAck | internal/transport/seichannel/transport.go:515-517 | the ack goes to the priority queue, unless the transport is closed or Close comes first |
| ArqTransport.StreamTransport.ConcludeMessage | internal/transport/seichannel/transport.go:493-506 | a complete message leaves the table whether or not its CRC matches, and is remembered only if it does |
| ArqTransport.StreamTransport.ReceiveLocked | internal/transport/seichannel/transport.go:481-506 | the section under recvMu has the effect and the outcome of the abstract handler |
| ArqTransport.StreamTransport.HandleInboundFrame | internal/transport/videochannel/transport.go:580-612 | the whole handler: tables as the abstract handler leaves them, onData called exactly when it hands a payload over, one ack for a delivery or a duplicate and none otherwise, unless Close comes first |
| ArqTransport.StreamTransport.ResolveAck | internal/transport/seichannel/transport.go:519-532 | an ack reaches only the waiter of its own sequence number, and only if that is empty |
| ArqTransport.StreamTransport.EnqueueRound | internal/transport/seichannel/transport.go:222-227 | one attempt queues the wire form of every fragment once, in order, and stops at the fragment at which Close cuts in |
| ArqTransport.StreamTransport.Transmit | internal/transport/seichannel/transport.go:221-243 | whole rounds for exactly the attempts before the deciding wake-up, or fewer and part of one if Close cuts in earlier; the outcome is the one TransmittedAcked characterises |
| ArqTransport.StreamTransport.Send | internal/transport/videochannel/transport.go:193-238 | closed: nothing happens; open: the next number is taken modulo 2^32, the rounds and the outcome are those of Transmit, wherever Close cuts in, and the waiter is gone afterwards |
| ArqIntake.DuplicateRecognised | internal/transport/seichannel/transport.go:481-487 | a frame read in order belongs to a promised message if and only if the duplicate table still recognises it, however often the table was wiped |
| ArqIntake.HandleKeeps | internal/transport/seichannel/transport.go:481-513 | one more frame of an ordered honest flow keeps what both tables know about every message sent |
| ArqSafety.ForwardKeeps | internal/transport/seichannel/transport.go:199-244 | every step of the sending side keeps the invariant of its direction |
| ArqSafety.BackwardKeeps | internal/transport/seichannel/transport.go:481-532 | every step of the receiving side, reading, delivering and acking, keeps the invariant of the other direction |
| ArqSafety.StepKeeps | internal/transport/seichannel/transport.go:199-244 | every step of either endpoint or either track keeps the whole invariant |
| ArqSafety.RunKeeps | internal/transport/seichannel/transport.go:199-244 | the invariant holds in every state of every run |
| ArqTheorems.DeliveredInOrder | internal/transport/seichannel/transport.go:481-513 | in every state the payloads given to onData are payloads passed to Send, byte for byte, at strictly increasing positions: in order and without duplicates |
| ArqTheorems.AckedMeansDeliveredOnce | internal/transport/seichannel/transport.go:207-243 | a Send that returned nil has had its payload given to onData exactly once, and no Send, whatever it returned, has it given twice |
| ArqTheorems.DeliveredIffAllRead | internal/transport/seichannel/transport.go:481-513 | a message is delivered, or about to be, if and only if each of its fragments has been read at least once, in whatever attempts |
| ArqTheorems.LaterFragmentsAreAcked | internal/transport/seichannel/transport.go:481-487 | after delivery every further fragment of the message produces a fresh ack with its CRC |
| ArqTheorems.AckIsHeld | internal/transport/seichannel/transport.go:519-532 | once an ack for the message in transmission has been read, its CRC stays with the waiter until that Send ends |
| ArqTheorems.AckEndsSend | internal/transport/seichannel/transport.go:229-235 | and then, at the next wait, taking it is possible, and what it leads to is success |
| ArqTheorems.AckDecides | internal/transport/seichannel/transport.go:221-243 | in every run, whatever move ends a Send whose ack has returned ends it with nil, unless it is Close or the timer of the last attempt |
| ArqTheorems.AckBeforeLastTimer | internal/transport/seichannel/transport.go:221-243 | progress over runs: one ack returns before the last timer and no Close cuts in, then the Send either has not ended yet or has returned nil |
| ArqTheorems.SendQueuesRounds | internal/transport/seichannel/transport.go:207-227 | in every run, while it lasts, a Send of the step system has queued attempt - 1 whole rounds and the fragments so far of the next, after attempt - 1 waits that decided nothing |
| ArqTheorems.SendEndsAsMethod | internal/transport/seichannel/transport.go:207-243 | and when it ends, its outcome and every frame it has queued are those of the method for the wake-ups it was given and some point at which Close cuts in |
| ArqTheorems.LateDuplicateAfterWipe | internal/transport/seichannel/transport.go:502-505 | why the tracks must be FIFO: a late frame of a delivered message that overtakes another delivery is delivered again exactly when that delivery wipes the table, and acked again otherwise |
| ArqProgress.ChanceStep | internal/transport/seichannel/transport.go:207-243 | in any state with a chance some step, of either end, is success or brings it nearer by a measure that cannot fall for ever |
| ArqProgress.ChanceSucceeds | internal/transport/seichannel/transport.go:207-243 | so from every such state a continuation makes the Send return nil |
| ArqProgress.FarReadKeeps | internal/transport/seichannel/transport.go:481-513 | a fragment the far reader takes cannot start an ack when another one is lost for good |
| ArqProgress.StaysDoomed | internal/transport/seichannel/transport.go:221-243 | without a chance every continuation leaves the Send without one, or ends it with an error |
| ArqProgress.SendMaySucceedExactly | internal/transport/seichannel/transport.go:207-243 | in every reachable state with both ends open a Send in progress may still return nil if and only if an attempt is left to begin, or an ack is waiting, in flight, queued or owed, or every fragment queued so far has been read or is still to be read and one is still to come; the same whether or not the writers are bound to take acks first |
| ArqProgress.ChanceBeforeLastAttempt | internal/transport/seichannel/transport.go:221-227 | that condition always holds until the last attempt has queued a fragment |
| Muxconn.Conn.Push | internal/muxconn/conn.go:54-67 | a payload that does not decrypt, or a closed conn, changes nothing; otherwise the buffer gains exactly the plaintext at its end |
| Muxconn.StreamOfPushes | internal/muxconn/conn.go:54-82 | over any pushes, reads of any size and a close in any order: the bytes read followed by those buffered are exactly the plaintexts of the payloads that decrypt and were pushed before the close, in order |
| Muxconn.Conn.Read | internal/muxconn/conn.go:70-82 | whatever is pushed or closed while it waits, it returns at the first moment there is something to read or the conn is closed; what is copied out followed by what stays buffered is the buffer of that moment, as much as fits is copied, the rest of the caller's slice is untouched |
| Muxconn.Conn.Write | internal/muxconn/conn.go:86-117 | a closed conn seen before a ready link refuses; otherwise exactly one message goes to the link, the whole encrypted buffer, and success means the link took it |
| Muxconn.Conn.Close | internal/muxconn/conn.go:120-129 | the conn is closed and its buffered bytes stay readable |
| EndToEnd.TunnelRunKeeps | internal/muxconn/conn.go:54-117 | over every run of two conns on the ARQ: messages sent open to the writes, and bytes read plus bytes buffered are the plaintexts delivered |
| EndToEnd.StreamIsWholeWrites | internal/muxconn/conn.go:54-117 | in every run the far reader's bytes are whole Writes in order, some possibly missing, however Read slices them |
| EndToEnd.EndToEndStream | internal/muxconn/conn.go:54-117 | if every Write that has returned succeeded, the far reader's bytes are exactly the first m Writes for an m between the Writes completed and the Writes begun |
| EndToEnd.StreamBetweenWrites | internal/muxconn/conn.go:54-117 | equivalently they extend the concatenation of the completed Writes and are a prefix of all Writes begun |
| Sei.EscapeRBSP | internal/transport/seichannel/h264.go:171-187 | the loop with its resettable zero counter computes the escaping that UnescapeEscape and EscapedClean are about |
| Sei.UnescapeRBSP | internal/transport/seichannel/h264.go:189-198 | the loop that looks back at two raw input bytes computes the counter-based unescaping |
| Sei.UnescapedExactly | internal/transport/seichannel/h264.go:189-198 | a 3 after two zero bytes of the input is dropped, and no other byte |
| Sei.UnescapeEscape | internal/transport/seichannel/h264.go:171-198 | unescaping undoes escaping on every byte string |
| Sei.EscapedExactly | internal/transport/seichannel/h264.go:171-198 | the escaped form is the one byte string that unescapes to the original, has no forbidden triple, and has no escape but before a byte of at most 3 |
| Sei.EscapedClean | internal/transport/seichannel/h264.go:171-187 | escaped output contains no 00 00 00, 00 00 01 or 00 00 02 |
| Sei.EscapedLast | internal/transport/seichannel/h264.go:171-187 | escaping keeps the last byte, so the trailer still ends the NAL unit |
| Sei.AppendSEIValue | internal/transport/seichannel/h264.go:143-149 | the 0xFF run and the last byte are appended after what was there |
| Sei.SeiValueLayout | internal/transport/seichannel/h264.go:143-149 | v / 255 bytes 0xFF and then v % 255 |
| Sei.ConsumeSEIValue | internal/transport/seichannel/h264.go:151-164 | fails exactly when the bytes run out inside the number; otherwise the cursor advances past it |
| Sei.TakeValueExact | internal/transport/seichannel/h264.go:143-164 | a number is read with a given rest if and only if the input is that number's encoding followed by that rest |
| Sei.TakeMessageExact | internal/transport/seichannel/h264.go:108-128 | one SEI message is read if and only if the input starts with its serialisation |
| Sei.ConsumeMessage | internal/transport/seichannel/h264.go:108-128 | one round of the parser at a position agrees with reading one message from the suffix, with the same error |
| Sei.ExtractTransportSEI | internal/transport/seichannel/h264.go:100-141 | the parsing loop computes the parse that ParsedExactly characterises, on the unescaped bytes |
| Sei.ParsedSerialised | internal/transport/seichannel/h264.go:100-141 | every list of messages, foreign ones included, parses, with or without the trailer; the result lists what follows our UUID in exactly the messages of type 5 that begin with it, in order |
| Sei.ParsedOnlySerialised | internal/transport/seichannel/h264.go:100-141 | and whatever parses is such a list, with or without the trailer |
| Sei.ParsedExactly | internal/transport/seichannel/h264.go:100-141 | both directions: the parser succeeds with a result if and only if the input serialises messages of which that is the part under our UUID |
| Sei.FailsExactly | internal/transport/seichannel/h264.go:108-128 | it fails if and only if, after whole messages, the bytes end inside a payload or inside the two numbers before one, and the error tells which |
| Sei.ExtractsOurs | internal/transport/seichannel/h264.go:82-141 | serialise any list of messages, add the trailer, escape: extraction returns exactly what follows our UUID in the messages of type 5 that begin with it, in order |
| Sei.BuildSEINAL | internal/transport/seichannel/h264.go:82-98 | builds the NAL unit that SeiNalLayout and SeiNalCarries are about |
| Sei.SeiNalLayout | internal/transport/seichannel/h264.go:82-98 | type 6, and unescaped: 5, the length, the UUID, the payload, the trailer |
| Sei.SeiNalCarries | internal/transport/seichannel/h264.go:82-141 | the NAL unit of any payload yields exactly that payload |
| AnnexB.AppendStartCode | internal/transport/seichannel/h264.go:166-169 | start code, then the unit, after what was there |
| AnnexB.BuildVideoAccessUnit | internal/transport/seichannel/h264.go:42-53 | the bytes of SPS, PPS, the SEI of a non-empty payload, and IDR, in this order, each behind a start code |
| AnnexB.SplitStream | internal/transport/seichannel/h264.go:42-80 | a splitter written from section B.1 of ITU-T H.264 recovers any list of units free of boundaries and trailing zeros |
| AnnexB.StartCodesExactly | internal/transport/seichannel/h264.go:166-169 | in such a stream a start code prefix stands at a position if and only if appendStartCode put it there |
| AnnexB.BasesStreamable | internal/transport/seichannel/h264.go:34-39 | the three fixed units are such units |
| AnnexB.SeiNalStreamable | internal/transport/seichannel/h264.go:82-98 | and so is the SEI unit of every payload |
| AnnexB.UnitSplits | internal/transport/seichannel/h264.go:42-53 | for every payload the access unit splits into precisely the units written, with start codes nowhere else |
| AnnexB.UnitLayout | internal/transport/seichannel/h264.go:42-53 | the stream opens with the SPS and the PPS, ends with the IDR, and splits into NAL units of type 7, 8, 6 exactly if there is a payload, and 5 |
| AnnexB.ExtractVideoPayloads | internal/transport/seichannel/h264.go:55-80 | over the split units, the payloads of the SEI units that parse, in order; everything else is skipped |
| AnnexB.NalContributesExactly | internal/transport/seichannel/h264.go:64-77 | a NAL unit contributes payloads if and only if it is of type 6 and unescapes to serialised messages, and then those under our UUID |
| AnnexB.UnitCarries | internal/transport/seichannel/h264.go:42-80 | the access unit of a payload yields exactly that payload, and the idle unit none |
| AnnexB.UnitsCarry | internal/transport/seichannel/h264.go:42-80 | a stream of access units yields their non-empty payloads in order |
| AnnexB.SampleRoundTrip | internal/transport/seichannel/transport.go:426-445 | transport frames, each encoded, wrapped, escaped and put in an access unit, are split, extracted and decoded as those frames, in order, and nothing more |
| Vp8Frames.StampedReads | internal/transport/vp8channel/transport.go:71-84 | token, epoch and packet are read back as stamped, from positions 20, 24 and 28 behind the keepalive frame |
| Vp8Frames.EpochHeader | internal/transport/vp8channel/transport.go:192-198 | the header filled in place is a stamped empty packet |
| Vp8Frames.WriteTo | internal/transport/vp8channel/kcpconn.go:92-120 | the packet is queued stamped with the header's token and epoch, exactly when no deadline has passed and the queue takes it; it then reports the packet's own length, and otherwise queues nothing |
| Vp8Frames.Vp8FrameState.ProcessRTPPacket | internal/transport/vp8channel/transport.go:418-459 | new fields and result are those of the transition that EmitsExactly characterises |
| Vp8Frames.StepFaithful | internal/transport/vp8channel/transport.go:407-459 | one packet keeps the meaning of the fields: valid exactly while a run is open, and then holding that run's bytes |
| Vp8Frames.AlwaysFaithful | internal/transport/vp8channel/transport.go:407-459 | so they always mean that |
| Vp8Frames.RunUnique | internal/transport/vp8channel/transport.go:407-459 | at most one run ends at a packet |
| Vp8Frames.EmitsExactly | internal/transport/vp8channel/transport.go:407-459 | packet i yields a frame if and only if a run from its latest start packet to i parses throughout, has consecutive numbers modulo 2^16, its only marker at i and at least 28 bytes; the frame is then the concatenation of the payloads |
| Vp8Frames.CutFrameEmitted | internal/transport/vp8channel/transport.go:418-459 | a frame cut into packets comes out whole, at its last packet and not before, if and only if it has at least 28 bytes and each number is the first plus its position modulo 2^16, whatever came before |
| Vp8Frames.EmittedHasHeader | internal/transport/vp8channel/transport.go:453-458 | every frame that reaches the frame handler has a whole header |
| Vp8Epoch.KcpRuntime.Deliver | internal/transport/vp8channel/kcpconn.go:55-63 | a full queue drops the packet, an open one with room gains it at the end, and on a closed one with room either may happen |
| Vp8Epoch.QueuedInOrder | internal/transport/vp8channel/kcpconn.go:55-63 | packets delivered to an open runtime stand in the order delivered, the first ones that fit |
| Vp8Epoch.StreamTransport.ResetKCP | internal/transport/vp8channel/transport.go:363-384 | the outbound queue is empty, the old runtime is closed and fed nothing, and a fresh one with this process's epoch takes its place, or none |
| Vp8Epoch.StreamTransport.SetReconnectCallback | internal/transport/vp8channel/transport.go:270-280 | the carrier is given a callback of this transport, whether or not there is one to pass the news on to |
| Vp8Epoch.StreamTransport.CarrierReconnects | internal/transport/vp8channel/transport.go:270-280 | a carrier reconnect replaces the runtime as ResetKCP does and then calls the layer above once, if it gave a callback; unregistered it does nothing |
| Vp8Epoch.StreamTransport.HandleFirstPeer | internal/transport/vp8channel/transport.go:485-500 | a runtime is started on first contact only if none was ever started this way |
| Vp8Epoch.StreamTransport.HandleIncomingFrame | internal/transport/vp8channel/transport.go:504-550 | case by case: foreign frames and echoes change nothing, a known peer's packet reaches the current runtime, a new life's packet reaches none, replaces the runtime and is reported to the layer above once |
| Vp8Epoch.AcceptFollows | internal/transport/vp8channel/transport.go:504-550 | a frame of the other peer resets exactly if it is of a later life or finds the receiver misled by an echo; afterwards the receiver follows the life that wrote it |
| Vp8Epoch.EchoFollows | internal/transport/vp8channel/transport.go:514-540 | an echo of an earlier life misleads the receiver, at the cost of a reset unless no peer, or that very life, was being followed |
| Vp8Epoch.StepKeeps | internal/transport/vp8channel/transport.go:363-384 | every step of two restarting, reconnecting peers on lossy tracks with foreign frames and echoes of any of their lives keeps that |
| Vp8Epoch.ResetsBounded | internal/transport/vp8channel/transport.go:504-550 | in every run a peer's epoch resets never exceed the other's restarts plus twice the echoes of its own earlier lives; peers that do not restart have no earlier lives and never reset each other |
| Vp8Epoch.ResetsExactly | internal/transport/vp8channel/transport.go:522-540 | in every run and for either peer, the next frame triggers a reset if and only if it was written in a later life than the last frame accepted in this life of the receiver, or corrects a receiver misled by an echo |
| Vp8Epoch.HarmlessExactly | internal/transport/vp8channel/transport.go:514-540 | any list of own-token frames causes no reset if and only if each is an echo of the current life or of the peer being followed |
| Vp8Epoch.FirstContactExactly | internal/transport/vp8channel/transport.go:514-540 | before first contact: if and only if all frames but the echoes of the current life carry one epoch |
| Vp8Epoch.TwoForEachStranger | internal/transport/vp8channel/transport.go:514-540 | in between, at most two resets for each frame of neither |
| Vp8Epoch.StaleEchoesLoop | internal/transport/vp8channel/transport.go:514-521 | and that bound is reached, for every length: echoes of an earlier life alternating with the peer's frames reset at every frame |
| Vp8Runtime.StepKeeps | internal/transport/vp8channel/transport.go:363-384 | each kcpMu section of the reader or of a reconnect keeps: a runtime has heard one epoch at most, and one not yet stored has heard none |
| Vp8Runtime.NoMixing | internal/transport/vp8channel/transport.go:485-550 | in every interleaving, no runtime is ever fed packets of two peer epochs, across first contact, new lives and reconnects, also before the first peer frame |
| Vp8Runtime.OwnFramesIgnored | internal/transport/vp8channel/transport.go:518-521 | nor a packet stamped with this process's own epoch |
| Vp8Runtime.ReaderAlone | internal/transport/vp8channel/transport.go:485-550 | however the reader goes through one frame, with no reconnect in between its steps make the decision, the change of runtime and the delivery that the method HandleIncomingFrame promises, for the answer startKCP gave |
| Vp8Runtime.ReaderCanFinish | internal/transport/vp8channel/transport.go:485-550 | and for either answer it can go through them |
| Vp8Runtime.OneRuntime | internal/transport/vp8channel/transport.go:363-384 | in every interleaving, as long as there have never been two of these at once, the current runtime and the starts in progress, at most one runtime is open, and someone who will close or store it, or the transport itself, holds it |
| Vp8Runtime.LosesExactly | internal/transport/vp8channel/transport.go:363-500 | in every reachable state, with no further reset and no further frame, a runtime can be lost (left open and held by no one) if and only if one already is, or there are two of them |
| Vp8Runtime.LostStays | internal/transport/vp8channel/transport.go:363-384 | a lost runtime is never closed |
| Vp8Runtime.EarlyReconnectLoses | internal/transport/vp8channel/transport.go:485-500 | a reconnect before first contact stores a runtime that the first peer frame overwrites unclosed |
| KcpFraming.KcpRuntime.Send | internal/transport/vp8channel/kcp.go:132-149 | above the cap nothing is written; on a live session the stream grows by exactly this message's frame; a session that dies between the two writes keeps the header and takes nothing more, ever |
| KcpFraming.ReadLoop | internal/transport/vp8channel/kcp.go:96-122 | the loop computes the deframing that PrefixDeframes and DeframesAnything characterise |
| KcpFraming.PrefixDeframes | internal/transport/vp8channel/kcp.go:96-149 | on any prefix of the bytes sent, exactly the non-empty messages lying wholly inside it, in order and with their boundaries |
| KcpFraming.StreamDeframes | internal/transport/vp8channel/kcp.go:96-149 | on the full stream, every non-empty message |
| KcpFraming.TornDeframes | internal/transport/vp8channel/kcp.go:96-149 | a send that failed half-way costs its own message only: all messages sent whole are read |
| KcpFraming.DeframesAnything | internal/transport/vp8channel/kcp.go:96-122 | on arbitrary bytes: framed messages, all handed up, followed by bytes on which the reader rightly stops |
| Jazz.EncodeVarint | internal/provider/jazz/datapacket.go:12-16 | ten bytes always suffice for a 64-bit value, and the bytes are the ones VarintRoundTrip reads back |
| Jazz.VarintRoundTrip | internal/provider/jazz/datapacket.go:12-55 | every 64-bit value is read back from its encoding, whatever follows, with the cursor just past it |
| Jazz.VarintLayout | internal/provider/jazz/datapacket.go:12-16 | groups of seven bits, the lowest first, all but the last with the top bit set, and no superfluous last group |
| Jazz.TakeVarintBound | internal/provider/jazz/datapacket.go:49-55 | a varint read fits 64 bits |
| Jazz.EncodeField | internal/provider/jazz/datapacket.go:18-34 | for every field number and wire type an int can hold: tag, length for wire type 2 only, and data; for those protobuf has, the layout ScanField reads |
| Jazz.TagPlain | internal/provider/jazz/datapacket.go:19 | for field numbers below 2^61 and wire types below 8 the shifted and or-ed tag keeps the two apart |
| Jazz.OrBits | internal/provider/jazz/datapacket.go:19 | beyond that range the tag is the bitwise or of the shifted number and the wire type |
| Jazz.ByteReader.ReadByte | internal/provider/jazz/datapacket.go:129-136 | the byte under the cursor and one step on, or nothing at the end |
| Jazz.ByteReader.Read | internal/provider/jazz/datapacket.go:138-145 | the bytes available up to the count asked, the cursor past them, or an error at the end |
| Jazz.ByteReader.ReadVarint | internal/provider/jazz/datapacket.go:49-55 | the cursor ends inside the data, past exactly the bytes of the varint, also when it fails |
| Jazz.ByteReader.ReadContent | internal/provider/jazz/datapacket.go:98-113 | a length that does not fit what is left ends the scan; otherwise the content is exactly that slice |
| Jazz.ByteReader.HandleWireType | internal/provider/jazz/datapacket.go:94-122 | the cursor never goes back; a skip of 8 or 4 past the end reads as an exhausted input |
| Jazz.ParseFields | internal/provider/jazz/datapacket.go:68-92 | the scan terminates with a strictly advancing cursor and computes the scan that ScanFields and ScanSlice characterise |
| Jazz.ScanField | internal/provider/jazz/datapacket.go:68-122 | one well-formed field is consumed whole and replaces the result exactly if it is a length-delimited match; only an empty length-delimited field at the very end is not taken |
| Jazz.ScanFields | internal/provider/jazz/datapacket.go:68-122 | over any well-formed fields the last length-delimited match is returned, an empty length-delimited field in final position not counting |
| Jazz.ScanEnds | internal/provider/jazz/datapacket.go:68-122 | malformed input after well-formed fields ends the scan with what was found: a broken tag, an unknown wire type, a broken or over-long length, a field that runs out |
| Jazz.ScanSlice | internal/provider/jazz/datapacket.go:68-146 | on arbitrary bytes the result is a contiguous slice of the input |
| Jazz.EncodeDataPacket | internal/provider/jazz/datapacket.go:37-47 | the nested fields of PacketRoundTrip, for any message id |
| Jazz.DecodeDataPacket | internal/provider/jazz/datapacket.go:58-66 | the two nested scans, the second only if the first found something |
| Jazz.PacketRoundTrip | internal/provider/jazz/datapacket.go:37-66 | decoding an encoded packet returns the payload, with success exactly when it is not empty, whatever the message id |
| Jazz.PacketLayout | internal/provider/jazz/datapacket.go:37-47 | the bytes: field 1 is the varint 0, field 2 holds the payload in its field 2 and the message id in its field 8 |
| Jazz.MessageIdRead | internal/provider/jazz/datapacket.go:37-47 | a scan for field 8 of the user packet finds the message id |
| Server.Server.InstallSession | internal/server/server.go:241-252 | session and conn are set together to the pair just made; if smux.Server fails neither is set and the conn just made is dropped unclosed |
| Server.Server.CloseSession | internal/server/server.go:283-294 | what was installed is closed and nothing is installed |
| Server.Server.ReinstallSession | internal/server/server.go:262-281 | a caller whose session is not the installed one changes nothing; otherwise the old pair is closed and the new one, if it can be made, installed |
| Server.Server.HandleReconnect | internal/server/server.go:254-260 | called alone, the installed session is the one replaced |
| Server.StoryFollows | internal/server/server.go:241-294 | each critical section is invisible or one legal step of the sequential story of clearings and installs |
| Server.RunKeeps | internal/server/server.go:254-294 | in every interleaving, the unlocked first install included: mutual exclusion, a sound table and a consistent story |
| Server.TableSound | internal/server/server.go:241-294 | in every interleaving session and conn are set and cleared together, what is installed is open, and the open conns are those of the open sessions and those dropped by a failed smux.Server |
| Server.OneSession | internal/server/server.go:241-294 | from the start of the first install on, at most one session and one conn not dropped are open, until some comparison finds the table empty before that install is over, and for ever if none does |
| Server.ReplacedOnce | internal/server/server.go:262-281 | however many callers hold the same dead session, it is replaced once, also beside the first install |
| Server.LateRacerLeaves | internal/server/server.go:266-270 | a caller arriving with a session already replaced leaves without touching anything |
| Server.NoneReplacedOnce | internal/server/server.go:254-281 | callers that read "no session" share one replacement too, unless a failed smux.Server or a closeSession comes between |
| Server.Uninterrupted | internal/server/server.go:262-281 | however one caller goes through its steps, with no other in between they amount to ReinstallSession, for the answer smux.Server gave |
| Server.UninterruptedCan | internal/server/server.go:262-281 | and for either answer it can go through them |
| Server.ClosedStaysClosedExactly | internal/server/server.go:283-294 | with no session installed, one can come back without a new reconnect if and only if the first install is not over or some caller has already read "no session" or cleared the old one |
| Server.LeakExactly | internal/server/server.go:223-294 | in every reachable state, with no further comparison that finds the table empty before the first install is over, a session can be orphaned (left open beside what the table and the installs in progress hold) if and only if one already is, or two of these exist: an installed session, the first install, a replacement in progress |
| Server.LeakWhileFirstLasts | internal/server/server.go:223-281 | while the first install lasts nothing is orphaned yet, and that can happen without a further such comparison if and only if a session is installed or a replacement is in progress |
| Server.LeakAfterFirst | internal/server/server.go:254-294 | once it is over, any continuation at all can orphan a session if and only if one is orphaned already, or a replacement is in progress over an installed session |
| Server.OrphanStays | internal/server/server.go:241-294 | a session orphaned stays open in every continuation |
| Server.FirstInstallUnguarded | internal/server/server.go:223-231 | such a comparison can happen: any caller that comes before the first session is stored makes one |
| Server.FirstMayLeak | internal/server/server.go:223-281 | and as long as the first install is not over, some continuation, with such a comparison or without, orphans a session |

## Left out

- ArqTransport.StreamTransport.EnqueueFrame: whether Close comes first is given, and no time passes on a full queue; the step system has the queue limits (256 frames, 64 acks) and the waiting.
- ArqTransport.StreamTransport.Transmit: takes the wake-up that ends each wait, and the point at which Close cuts in, as given; in the step system they happen, and ArqTheorems.SendEndsAsMethod ties the two together.
- ArqTransport.StreamTransport.Send: the same, and other goroutines' frames between its own are in the step system only.
- ArqTransport.StreamTransport.ResolveAck: the look-up under ackMu and the send on the channel are one step.
- ArqSystem: the writer may take either queue at any time, where the source prefers acks; every behaviour of the source is among those of the model, and what is proved possible (ArqProgress.SendMaySucceedExactly) is possible with acks first too.
- ArqProgress.SendMaySucceedExactly: says when success is possible, not how likely it is; there are no clocks and no fairness in the model.
- ArqTheorems: nothing is claimed past sequence-number wrap-around, for messages of more than 65535 fragments, or for several track readers in one transport.
- Muxconn.Conn.Read: what other goroutines do while it waits is given; the condition variable itself is not modelled.
- Vp8Runtime.NoMixing: several concurrent track readers are not modelled; with two of them a packet could be delivered after the other reader's reset.
- Vp8Epoch.StreamTransport.HandleIncomingFrame: what the reconnect callback does in the layer above is not modelled.
- Server.OneSession: counts what this code made and did not close; what smux closes by itself is not seen.
- Server.Server.ReinstallSession: sessions are numbered instead of compared by pointer, and the locks appear only in the step system.
- Server.Server.HandleReconnect: is the caller running alone; others between its read and its lock appear in the step system.
- AnnexB.Split is a splitter written from the standard; the h264reader package is not part of this model.
- Signalling (WebRTC, LiveKit, WebSocket, HTTP), KCP, smux, the sample builder and the RTP depacketizers: foreign code.
- videochannel's QR and tile images and its ffmpeg processes: foreign code; its protocol is the ARQ modelled here.
- CRC-32, ChaCha20-Poly1305, UUID generation and random epochs: parameters.
- The client's reconnect handling: it writes its conn outside the lock, so it has no atomic step to model.
- Configuration, registries, names, logging, SOCKS5 and the mobile wrappers: easy members only.
