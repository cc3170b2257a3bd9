# The AidF entertainment network, modelled and proved

AIBus is the byte protocol that the devices of this car entertainment system speak: frames
`[sender, length + 2, receiver, payload..., xor]`, long payloads as groups of fragments,
acknowledgements, resend requests and retries. It exists three times, in a Rust client, in a C++
handler for a serial line and in a C++ socket client. This project models all three and proves
what they promise one another, and then five smaller cores: the Android Auto channel
multiplexing, the midpoint circle, the greedy line breaking, the screen's buttons, and the
metadata messages and menu selection.

| file | what it models |
|---|---|
| Bytes, Seqs, Strings, Quotients | bytes and XOR, filtering, splitting and joining texts, a little division |
| AIBus | messages, frames, the decoder and its echo test |
| Fragmentation | splitting long payloads, and the two ways of putting them together |
| ResendCache | the list of recently sent messages that answers resend requests |
| Envelope | the `AidFSock` envelope around a frame on the Unix socket |
| ClientProtocol | the Rust client's read loop as a state machine over arrivals |
| Unanswered | which messages of a sending run go into the Rust client's retry cache |
| RetryCache | that cache: bounded rounds, and why each message leaves it |
| ClientHandler | the Rust client itself, as a class over its fields |
| SerialProtocol | the serial line: framing, escape, reassembler, and the record of a handler's doings |
| SerialHandler | the serial handler itself, whose reads write and whose writes read |
| SocketClient | the C++ socket client's frame splitter and cache |
| AapChannels | Android Auto frames on 256 channels |
| Circle, TextSplit | the circle and the line breaking |
| Buttons | press, hold and release of the screen's controls |
| Metadata, NavMenu | the metadata printer and parser; the menu's selection ring |

Sockets and the serial port are lists of bytes that reads consume, writes are recorded in a
trace, and every comparison of clock times is a nondeterministic boolean or a parameter, so that
what is proved holds for all timings. Objects that update their fields are classes; each of their
methods is tied to a specification function, and the main results are about those.

## What turned out otherwise than one might expect

- A payload of more than 8160 bytes wraps the one-byte fragment count: it arrives as several
  messages or none (`ClientProtocol.TransferExactly`, `SerialProtocol.SerialTransferExactly`).
- The Rust client does not escape, so that its payload `[0x8E, 4]` is dropped as an echo by the
  serial readers and would be by the Rust decoder (`ClientProtocol.TransferExactly`,
  `SerialProtocol.ClientEcho`); the C++ socket client has no echo test.
- A read of the Unix socket that ends inside an envelope loses that envelope, and the whole next
  read unless that begins with the start of an envelope (`Envelope.CutRead`).
- The escape of the serial writer makes the payload `[0x91, 4]` of a device 0x91 a fragment, so
  that it never arrives (`SerialProtocol.SerialTransferExactly`).
- The Rust client forgets unanswered fragments: an unanswered message behind the first one,
  fragment or not, strikes out the group that was noted for it. Exactly which are retried is
  `Unanswered.RetriedExactly`; for a long message sent alone all are if their number is odd
  (`Unanswered.LongRetried`), but not with an unanswered ordinary message behind it
  (`Unanswered.ForgottenBehind`).
- After a long message the Rust client answers a resend request with the last fragment alone
  (`ClientHandler.LongResent`), where the serial handler sends the whole message again.
- The resend request that the serial handler sends when a collection expires is remembered like
  any message and replaces what was last sent to that device, so that the device's own resend
  request is answered with it (`SerialHandler.OverwrittenByExpiry`); exactly when the answer
  changes is `SerialProtocol.AnswerChanged` and `SerialProtocol.ExpiredAnswered`.
- From its retry cache the Rust client first writes a message as the bare frame, without the
  envelope that it uses everywhere else (`ClientHandler.ClientAIBusHandler.TryAgain`).
- Broadcasts and fragments that the Rust client hears while waiting for an acknowledgement are
  neither acknowledged nor delivered (`ClientHandler.ClientAIBusHandler.AwaitAcknowledgment`).
- While the serial handler writes, or waits for an answer, on behalf of another device, it
  acknowledges messages to its own device and then drops them; this is exactly where acknowledged
  does not mean delivered (`SerialProtocol.SerialDelivery`, `SerialHandler.LostAbroad`).
- An Android Auto frame that does not end with its read swallows what follows it
  (`AapChannels.GluedRead`).
- The socket client puts fragments together in the order of their arrival, whatever pairs they
  belong to (`SocketClient.SwappedFragmentsDiffer`, `SocketClient.PairsMixed`).
- A damaged byte on the serial line costs everything that waits behind it, a misread length only
  two bytes (`SerialProtocol.DamagedDrained`, `SerialProtocol.MisreadSkipped`).
- An Android Auto message that loses frames from its middle is handed on with the gap
  (`AapChannels.GapUnnoticed`).
- A negative integer in a metadata message loses its sign (`Metadata.RoundTrip`).
- A release of nav-push forced by a direction goes to the current destination, not to the one
  that was told of the press (`Buttons.NavPushRecipient`).

## Model

| member | source | states |
|---|---|---|
| SerialHandler.Transfer | AIBus Common/Serial_AIBus_Handler.cpp:404-546 | End to end on the serial line, from one handler's writer to another's reader: if the writer has nothing to read and awaits nothing, or gets every awaited answer without writing anything but the message, the bytes it wrote make an idle reader return exactly that transferable message (escaped where needed), once, and nothing else |
| SerialHandler.SerialAIBusHandler.ReceiveTransfer | AIBus Common/Serial_AIBus_Handler.cpp:113-290 | The reading half: from the bytes of a transferable message an idle reader returns exactly that message, once, and nothing else, although every read may itself write acknowledgements and read further frames while doing so; the port ends empty and the reassembler idle |
| SerialProtocol.OnlyQueued | AIBus Common/Serial_AIBus_Handler.cpp:404-546 | When nothing but queued frames has been written between two moments, the bytes written are exactly those of these frames |
| SerialProtocol.SerialTransferExactly | AIBus Common/Serial_AIBus_Handler.cpp:404-546 | The frames of a message, as `SerialHandler.Transfer` shows them to be written, handled by an idle reader, yield exactly the message (as escaped) if and only if it is transferable: long messages up to 8160 bytes, short ones that are no resend request and do not become a fragment through the escape |
| ClientProtocol.TransferExactly | AMirror Android Auto/src/ipc.rs:255-296 | The same for the Rust client, over the bytes: the envelopes of the queued message's frames, however they are spread over the reads, give exactly the message if and only if it is at most 8160 bytes when long, and neither a resend request nor a fragment nor `[sender, 4]` when short |
| SerialProtocol.ClientEcho | AIBus Common/Serial_AIBus_Handler.cpp:172-191 | The payload `[0x8E, 4]` of the Rust client itself, to any receiver: queued as it is, skipped by every serial reader and taken for an echo by the Rust decoder |
| SerialProtocol.UnescapedFrame | AIBus Common/Serial_AIBus_Handler.cpp:122-195 | A frame put on the line as it is, without the escape, is read whole, or skipped whole if and only if its payload is `[sender, 4]` |
| ClientProtocol.MessagesTransfer | AMirror Android Auto/src/ipc.rs:137-221 | Of the messages alone: beyond 8160 bytes the one-byte count wraps and more than one message comes out |
| Envelope.ReadsTogether | AMirror Android Auto/src/ipc.rs:432-479 | It does not matter over how many reads whole envelopes are spread |
| Envelope.CutRead | AMirror Android Auto/src/ipc.rs:119-123 | A read that ends inside an envelope loses it, and with it everything in the next read, unless that read begins with the start of an envelope, which it cannot if the cut was in the start or right after it |
| ClientProtocol.AnyOrderReassembly | AMirror Android Auto/src/ipc.rs:137-221 | From idle, the fragments of one message in any permutation, mixed after the first with ordinary messages, resend requests, traffic for others and fragments of other pairs, push that message exactly once and the ordinary messages in their order |
| ClientProtocol.LateReassembly | AMirror Android Auto/src/ipc.rs:138-141 | After 500 ms without a fragment the message whose fragments come next, in any order, is put together as if nothing had been collected before |
| ClientProtocol.FirstAnnounces | AMirror Android Auto/src/ipc.rs:174-206 | How many fragments are collected is what the first of them announces, whatever the others announce; an announced 0 counts as 1 |
| SerialProtocol.AllInputs | AIBus Common/Serial_AIBus_Handler.cpp:222-281 | Once every fragment of a long message has been handled, in whatever order, the message has been put out once, with the very last of them, and the reassembler is idle |
| SerialProtocol.TransferInputs | AIBus Common/Serial_AIBus_Handler.cpp:197-290 | Of the messages on the wire, handled in any order, none but the last puts anything out |
| SerialProtocol.SerialBatches | AIBus Common/Serial_AIBus_Handler.cpp:222-281 | Fragments of one pair that all announce t come out as one message per t of them, and never if t is 0: what happens to payloads beyond 8160 bytes |
| SerialProtocol.SerialFirstAnnounces | AIBus Common/Serial_AIBus_Handler.cpp:222-281 | How many fragments are collected is what the first of them announces, whatever the others announce |
| ClientProtocol.RunAckLaw | AMirror Android Auto/src/ipc.rs:131-221 | Over every run of the read loop: the plain messages acknowledged are, in order and with multiplicity, the plain messages delivered, and nothing but non-empty non-acknowledgements for this device is ever acknowledged |
| ClientProtocol.RunAnswers | AMirror Android Auto/src/ipc.rs:131-221 | Over every run, for every message that is no fragment: acknowledged as often as it arrives if its receiver is 0x8E and its payload neither empty nor begins with 0x80, never otherwise; delivered as often as it arrives if its receiver is 0x8E or 0xFF and its payload does not begin with 0x92 |
| ClientProtocol.FragmentAnswered | AMirror Android Auto/src/ipc.rs:149-163 | A fragment of another pair than the one being collected changes nothing and is not acknowledged; any other is, if it is for this device |
| ClientProtocol.ResendAnswered | AMirror Android Auto/src/ipc.rs:155-173 | A resend request to this device is acknowledged, and answered with the message last sent to the device that asks if there is one, and nothing else happens |
| ClientProtocol.StepConsistent | AMirror Android Auto/src/ipc.rs:138-217 | After every message the fragment cache is empty with no expectation, or holds fewer fragments than expected, at most 255, all of one sender and receiver |
| ClientProtocol.RunReceives | AMirror Android Auto/src/ipc.rs:131-221 | What ends up in ai_rx is what the single steps of the run push, nothing else |
| SerialProtocol.SerialAckLaw | AIBus Common/Serial_AIBus_Handler.cpp:197-204 | In every state between reads, whatever the nesting of reads and writes: every message to this device that is neither empty nor begins with 0x80 has been acknowledged exactly as often as it was handled, each time with the payload [0x80] from its receiver to its sender, and no other message ever; and a plain message has been put out exactly as often as it was acknowledged and an equal one put together from fragments |
| SerialProtocol.EveryFrame | AIBus Common/Serial_AIBus_Handler.cpp:553-719 | Every frame ever written that was not queued is an acknowledgement to the sender of a message for this device, part of a message of this device sent to a device that asked for it, a message once more (with a zero if its payload has two bytes and does not begin with 0xA1), or the payload [0x92] to a device whose collection expired |
| SerialProtocol.AckAwaited | AIBus Common/Serial_AIBus_Handler.cpp:553-557 | The acknowledgements of the serial devices are what the Rust client waits for, and its own are what they wait for |
| SerialHandler.AnswerHeard | AIBus Common/Serial_AIBus_Handler.cpp:197-204 | Between two handlers: the bytes that the reader of a message writes in answer to it end the wait of the one that wrote it |
| SerialProtocol.ConservedOn | AIBus Common/Serial_AIBus_Handler.cpp:490-500 | Reads and writes on behalf of any sender keep the conservation that holds in every state: what was ever put out has been returned, lies in the cache or was dropped, exactly once each |
| SerialProtocol.ConservedReturn | AIBus Common/Serial_AIBus_Handler.cpp:103-113 | So does the return of a cached message |
| SerialProtocol.DroppedExactly | AIBus Common/Serial_AIBus_Handler.cpp:493-495 | A message for this device from another one is dropped exactly as often as it is heard while writing or waiting under another sender id than this device's own, be it that of its sender or of a third device |
| SerialProtocol.BroadcastDropped | AIBus Common/Serial_AIBus_Handler.cpp:493-495 | A broadcast is dropped exactly if it is heard while writing for the very device that sent it |
| SerialProtocol.KeptExactly | AIBus Common/Serial_AIBus_Handler.cpp:490-500 | Of what is heard while writing exactly that is kept, in order, which comes from another device than the one written for and is addressed to that one or broadcast, acknowledgements only where they are wanted |
| SerialProtocol.SerialDelivery | AIBus Common/Serial_AIBus_Handler.cpp:672-700 | Acknowledged means delivered but for exactly that, in every state of the handler: a plain message for this device from another one was acknowledged, or an equal one put together from fragments, exactly as often as it was returned to the program, lies in the cache, or was heard while writing under another sender id |
| SerialProtocol.NothingAbroad | AIBus Common/Serial_AIBus_Handler.cpp:490-500 | A device that writes only for itself drops nothing that is meant for it |
| SerialHandler.LostAbroad | AIBus Common/Serial_AIBus_Handler.cpp:672-700 | Any plain message to a device that waits for an answer on behalf of another one is acknowledged and then lost: neither returned nor cached |
| SerialProtocol.PlainPutOut | AIBus Common/Serial_AIBus_Handler.cpp:197-290 | The reassembler puts a plain message out exactly as often as it handles it and as it puts an equal one together from fragments |
| SerialProtocol.PutOutExactly | AIBus Common/Serial_AIBus_Handler.cpp:206-290 | The same of every message that is not to be collected, fragments for other devices included: as often as it is handled, and a resend request never for itself |
| AIBus.DecodeEncode | AMirror Android Auto/src/aibus.rs:43-64 | Decoding undoes encoding for every message of every length if and only if the payload is not `[sender, 4]` |
| AIBus.EncodeDecode | AMirror Android Auto/src/aibus.rs:93-142 | Whatever the decoder accepts is byte for byte the frame of the message it returns; it rejects exactly the rest |
| AIBus.EchoExactly | AMirror Android Auto/src/aibus.rs:123-129 | The echo test fires on a well-formed frame exactly when the payload is `[sender, 4]` |
| AIBus.CorruptionRejected | AIBus Common/AIBus.cpp:90-109 | No single changed byte, the length byte included, gets a frame past the decoder |
| AIBus.WellFormedIsFrame | AIBus Common/AIBus.cpp:90-109 | The byte runs that pass the validity test are exactly the frames of messages |
| AIBus.GetBytes | AIBus Common/AIBus.cpp:72-88 | The buffer filled by loops and the running checksum are the frame |
| AIBus.GetAIBusMessage | AMirror Android Auto/src/aibus.rs:93-142 | The Rust reader, with its early returns, accepts exactly the well-formed, not echo-shaped byte runs |
| AIBus.CheckValidity | AIBus Common/AIBus.cpp:90-109 | The C++ validity test accepts exactly the well-formed byte runs |
| Bytes.ChecksumDetectsChange | AIBus Common/AIBus.cpp:72-83 | Replacing one byte by a different one always changes the XOR checksum |
| Bytes.ChecksumClosed | AIBus Common/AIBus.cpp:90-109 | A run of bytes XORs to zero exactly if it ends in its own checksum |
| SerialProtocol.EscapeTest | AIBus Common/Serial_AIBus_Handler.cpp:518-530 | The writer's test on payload and checksum byte recognises exactly the echo payload |
| SerialProtocol.EscapedPassable | AIBus Common/Serial_AIBus_Handler.cpp:404-546 | Nothing the writer puts on the line is ever dropped by a reader as an echo or for its length |
| SerialProtocol.FragmentsPassable | AIBus Common/Serial_AIBus_Handler.cpp:424-438 | Fragments are never escaped and always pass |
| SerialProtocol.DeframeFirst | AIBus Common/Serial_AIBus_Handler.cpp:113-195 | A passable frame at the front of the port is taken off whole, whatever bytes follow |
| SerialProtocol.ScanWire | AIBus Common/Serial_AIBus_Handler.cpp:113-195 | n reads of the frames of passable messages yield the first n of them, in order |
| SerialProtocol.MisreadSkipped | AIBus Common/Serial_AIBus_Handler.cpp:123-129 | A length byte above 37 costs the reader that byte and the one before it, nothing else: the frames behind are read as ever |
| SerialProtocol.DamagedDrained | AIBus Common/Serial_AIBus_Handler.cpp:131-186 | One changed byte other than the length, or a length below 2, drains the line with everything behind it; a length made larger than 37 skips two bytes |
| SerialProtocol.CutOffDrained | AIBus Common/Serial_AIBus_Handler.cpp:138-160 | A frame cut off behind its fourth byte drains the line |
| Fragmentation.AssembleAnyOrder | AMirror Android Auto/src/ipc.rs:184-206 | Both assemblers, the one that appends every match and the one that keeps the last, rebuild the payload from any permutation of its fragments |
| Fragmentation.OutgoingFits | AMirror Android Auto/src/ipc.rs:255-296 | No wire message is longer than 35 bytes and its length byte lies in 2..37, what readers accept |
| Fragmentation.CollectUnique | AIBus Common/Serial_AIBus_Handler.cpp:246-268 | A fragment cached once is what both collectors find for its index; an absent one yields nothing |
| Fragmentation.CollectExactly | AMirror Android Auto/src/ipc.rs:184-206 | Of the fragments that carry an index, however often, the Rust client strings all together in order of arrival and the serial handler takes the last |
| Fragmentation.SplitQueued | AMirror Android Auto/src/ipc.rs:256-292 | The Rust splitter, whole chunks first and then the remainder, yields the same fragments as the C++ one |
| Fragmentation.SplitGroup | AIBus Common/Serial_AIBus_Handler.cpp:425-438 | The C++ splitter, one loop with a shorter last group, yields the same fragments as the Rust one |
| ClientHandler.AssembleCache | AMirror Android Auto/src/ipc.rs:184-206 | The nested loops over index and cache compute the append-every assembly |
| SerialHandler.AssembleGroup | AIBus Common/Serial_AIBus_Handler.cpp:244-268 | The nested loops over index and cache compute the keep-last assembly |
| ResendCache.CacheIsLastSent | AMirror Android Auto/src/ipc.rs:419-429 | Over any run of sends the list holds at most one entry per pair and its lookup is the last message sent for that pair |
| ResendCache.RememberRefines | AIBus Common/Serial_AIBus_Handler.cpp:407-422 | One send changes the answer of its own pair only and keeps one entry per pair |
| ResendCache.CacheTx | AMirror Android Auto/src/ipc.rs:419-429 | The search-remove-push loop is that update |
| ResendCache.FindRecent | AMirror Android Auto/src/ipc.rs:165-173 | The resend search finds the entry of the pair, if there is one |
| ResendCache.KeepsResent | AIBus Common/Serial_AIBus_Handler.cpp:705-711 | Sending a remembered message again, padded by a zero or not, keeps every answer up to that padding |
| ResendCache.KeptAnswer | AIBus Common/Serial_AIBus_Handler.cpp:206-220 | After a send and any answer-keeping activity a resend request for its pair is answered with that message, padded at most |
| Envelope.ParseStream | AMirror Android Auto/src/ipc.rs:432-479 | A buffer of server envelopes followed by any strict prefix of one more yields exactly the messages of the whole ones, in order, whatever bytes the frames hold |
| Envelope.RelayedMessages | Navigation Computer/Code/AidF_Nav_Computer_Pi/Socket/AIBus_Socket.cpp:127-155 | Messages relayed through the server's envelopes come out in order, the null and echo-shaped ones alone missing |
| Envelope.PrefixIncomplete | AMirror Android Auto/src/ipc.rs:450-466 | A cut-off envelope is never mistaken for a whole one |
| Envelope.EnvelopeClosed | Navigation Computer/Code/AidF_Nav_Computer_Pi/Socket/AIBus_Socket.cpp:127-155 | The bytes of an envelope XOR to zero, and no longer do once any one of them is changed |
| Envelope.StrangerEnds | AMirror Android Auto/src/ipc.rs:450-466 | An envelope with another opcode ends the parse of its read, and what follows in it is lost |
| Envelope.WriteSocketMessage | Navigation Computer/Code/AidF_Nav_Computer_Pi/Socket/AIBus_Socket.cpp:127-155 | The server's writer builds the envelope, or sends nothing when its length does not fit a byte |
| Envelope.GetFullBytes | AMirror Android Auto/src/ipc.rs:715-738 | The client's writer builds the envelope of the message's frame |
| Envelope.GetAIBusMessages | AMirror Android Auto/src/ipc.rs:432-479 | The parser stays in bounds and ends, each round taking an envelope of ten bytes or more off the front, and returns the parse of the whole buffer |
| ClientHandler.ClientAIBusHandler.ReadStream | AMirror Android Auto/src/ipc.rs:86-224 | One read of the socket runs its parsed messages through the read loop, keeps the reassembler consistent and the acknowledge law, and pushes exactly what that run pushes |
| ClientHandler.ClientAIBusHandler.ReceiveOne | AMirror Android Auto/src/ipc.rs:137-221 | The loop body on the handler's fields is one step of the protocol; on the bytes written: a resend request to this device gets an acknowledgement and the message last sent to the device that asks, any other ordinary message to it an acknowledgement and a place in ai_rx, a message for others nothing |
| ClientHandler.ClientAIBusHandler.AwaitAcknowledgment | AMirror Android Auto/src/ipc.rs:482-559 | True exactly if an acknowledgement was among the messages heard; false only after the awaited message, and nothing else, was written again 2 or 20 times; every message heard to 0x8E that is non-empty and begins with neither 0x80 nor 0x91 is acknowledged and handed back as often as it was heard, in order, and nothing else is |
| ClientHandler.ClientAIBusHandler.Emit | AMirror Android Auto/src/ipc.rs:155-163 | What goes out is the envelope of the message that the trace names, so that the bytes written are always those of the trace |
| ClientHandler.ClientAIBusHandler.TryAgain | AMirror Android Auto/src/ipc.rs:616-634 | A cached message is written as a bare frame and then waited for, in three writes at most, all of that message; what is heard meanwhile is delivered |
| ClientHandler.ClientAIBusHandler.Deliver | AMirror Android Auto/src/ipc.rs:377-379 | What was acknowledged while waiting is delivered, in order |
| ClientHandler.ClientAIBusHandler.WriteStream | AMirror Android Auto/src/ipc.rs:227-392 | Everything queued is written once, in order, long messages as fragments, and remembered; every message to a device other than radio, screen, phone and IMID is waited for and a broadcast never; every message heard meanwhile to 0x8E that is non-empty and begins with neither 0x80 nor 0x91 is acknowledged and delivered as often as it was heard, in order; and exactly the messages to retry, as told by which waits went unanswered, are added to the retry cache |
| ClientHandler.ClientAIBusHandler.SendAll | AMirror Android Auto/src/ipc.rs:299-371 | The sending loop with its indices of unanswered fragments, against a fold over the unanswered places |
| ClientHandler.ClientAIBusHandler.RememberSent | AMirror Android Auto/src/ipc.rs:383-385 | All messages sent are remembered in order, one entry per pair |
| ClientHandler.LongResent | AMirror Android Auto/src/ipc.rs:383-385 | After a long message a resend request is answered with its last fragment alone: the step of the read loop, after any sends |
| Unanswered.OrdinaryRetried | AMirror Android Auto/src/ipc.rs:348-375 | An unanswered message that is not a fragment always reaches the retry cache |
| Unanswered.RetriedExactly | AMirror Android Auto/src/ipc.rs:348-375 | For every run and whichever of its messages went unanswered: a place is retried exactly if it was missed and is no fragment or comes right after an odd streak of missed fragments, or if the misses end in an odd streak whose last fragment belongs to a group that starts no later |
| Unanswered.RetriedMessage | AMirror Android Auto/src/ipc.rs:348-375 | Without duplicates in the run a message is retried exactly if its place is |
| Unanswered.LongRetried | AMirror Android Auto/src/ipc.rs:348-375 | In a run of one long message its k-th unanswered fragment (from 0) is retried exactly if k or the number of unanswered ones is odd, and if that is odd the whole group |
| Unanswered.ForgottenBehind | AMirror Android Auto/src/ipc.rs:348-375 | One unanswered fragment and an unanswered ordinary message behind it: only the ordinary one is retried |
| Unanswered.GroupByStreak | AMirror Android Auto/src/ipc.rs:348-375 | A group is noted down exactly after an odd streak of missed fragments, and it is that of the last one |
| Unanswered.GroupIsRun | AMirror Android Auto/src/ipc.rs:312-318 | Where that group starts: the one place from which on there are fragments only, with none right before it |
| Unanswered.MissedExactly | AMirror Android Auto/src/ipc.rs:345-348 | Missed is exactly what was waited for without an acknowledgement of it being heard in that wait |
| Unanswered.OnlyMissed | AMirror Android Auto/src/ipc.rs:348-375 | Nothing is retried but fragments and what went unanswered |
| ClientHandler.ClientAIBusHandler.NoteDown | AMirror Android Auto/src/ipc.rs:349-360 | The branches that note an unanswered message or its group are one step of that fold |
| ClientHandler.ClientAIBusHandler.AwaitCachedAcknowledgment | AMirror Android Auto/src/ipc.rs:562-691 | Both retry loops end even if the clock never runs out; rewrites are bounded by three times the rounds used up; every message that leaves the cache was acknowledged or has had its 26 rounds; what was heard is acknowledged and delivered as in `WriteStream` |
| ClientHandler.ClientAIBusHandler.Round | AMirror Android Auto/src/ipc.rs:615-684 | One inner pass: the entry is dropped if answered, stays with one more failed round otherwise, at most 25, and the potential strictly decreases |
| ClientHandler.ClientAIBusHandler.DropAnswered | AMirror Android Auto/src/ipc.rs:584-598 | Acknowledgements in ai_rx strike out, each, the first message they acknowledge and nothing else |
| RetryCache.StruckExactly | AMirror Android Auto/src/ipc.rs:584-598 | For each pair as many cached messages are struck out, the oldest first, as there are acknowledgements of other devices for the pair |
| ClientHandler.ClientAIBusHandler.FoundAck | AMirror Android Auto/src/ipc.rs:645-670 | True exactly if an acknowledgement of the message from another device lies in ai_rx |
| RetryCache.PotentialAt | AMirror Android Auto/src/ipc.rs:636-675 | The sum of 26 minus the count drops by one for a failed round and by what was left for a removal |
| RetryCache.BoundPotential | AMirror Android Auto/src/ipc.rs:672-675 | The potential bounds the cache size from above, so a cache with no rounds left is empty |
| RetryCache.BoundDrops | AMirror Android Auto/src/ipc.rs:672-675 | Removing an entry keeps every message at 26 rounds at most, those in the cache at 25 |
| RetryCache.AccountedDrops | AMirror Android Auto/src/ipc.rs:631-675 | Dropping an entry with its 26 rounds used up, or acknowledged, leaves every message accounted for |
| RetryCache.AccountedExactly | AMirror Android Auto/src/ipc.rs:631-675 | What has left the cache has had 26 rounds, or an acknowledgement from its receiver to its sender has been heard |
| ClientHandler.ClientAIBusHandler.SetAckCache | AMirror Android Auto/src/ipc.rs:395-402 | Switching the retry cache off empties it |
| ClientHandler.ClientAIBusHandler.AddAckCache | AMirror Android Auto/src/ipc.rs:405-411 | A message enters the retry cache with no failed round, if the cache is in use |
| SerialHandler.SerialAIBusHandler.ReadFrame | AIBus Common/Serial_AIBus_Handler.cpp:122-195 | One frame off the port, draining or skipping exactly as the framing rules say |
| SerialHandler.SerialAIBusHandler.ReadAIData | AIBus Common/Serial_AIBus_Handler.cpp:103-113 | What was cached while writing or waiting is returned first, in order, and leaves the cache; else the line is read; either way what is returned is counted and the conservation of messages kept |
| SerialHandler.SerialAIBusHandler.WriteAIData | AIBus Common/Serial_AIBus_Handler.cpp:368-381 | For any sender: conservation is kept and nothing returned to the program meanwhile; the frames go out in order; if the receiver is not 0xFF and the payload not empty, does not begin with 0x80, and does not begin with 0x91 unless it has more than 35 bytes, the message becomes the answer for its pair (up to the zero of a retry, or the request for a collection that expired); otherwise all answers stay as they were |
| SerialHandler.SerialAIBusHandler.Read | AIBus Common/Serial_AIBus_Handler.cpp:113-290 | Every read of the line keeps the handler's record: messages handled once, acknowledged once, put out exactly as often as returned, cached or dropped; an expired collection is given up; it returns what the reassembler puts out for its own message; a frame alone on the port is handled and acknowledged to its sender, or ignored if it is a fragment of another pair than the one being collected |
| SerialHandler.SerialAIBusHandler.GiveUp | AIBus Common/Serial_AIBus_Handler.cpp:114-121 | 500 ms without a fragment: the collection is dropped and its sender, unless broadcast, asked to send again; from then on that request is what answers the sender's own resend requests |
| SerialHandler.SerialAIBusHandler.RequestResend | AIBus Common/Serial_AIBus_Handler.cpp:657-669 | The request is written and remembered like any message for the pair; to the broadcast id nothing happens at all |
| SerialHandler.OverwrittenByExpiry | AIBus Common/Serial_AIBus_Handler.cpp:114-121 | On the handler: after a collection from a device has expired, whatever was the answer for that device, its next resend request is answered with the resend request sent to it |
| SerialProtocol.AnswerChanged | AIBus Common/Serial_AIBus_Handler.cpp:197-220 | Whatever the handler reads, acknowledges, answers or retries: the answer for a pair changes, beyond the zero of a retry, only if the sender is this device and a collection from the other one expired meanwhile, and then it is the request sent for that |
| SerialProtocol.ExpiredAnswered | AIBus Common/Serial_AIBus_Handler.cpp:657-669 | Conversely every expired collection, unless from broadcast, had its request given to the writer at once, and that request is the answer for the pair until something eligible for it is written |
| SerialProtocol.AnswerIsLastSent | AIBus Common/Serial_AIBus_Handler.cpp:197-220 | In every state of the handler the answer for a pair is the last eligible message given to the writer for it, requests and retries included |
| SerialProtocol.RecalledIsLastSent | AIBus Common/Serial_AIBus_Handler.cpp:407-422 | Over any sequence of messages given to the writer, eligible or not, the list has one entry per pair and answers with the last eligible one of it |
| SerialProtocol.RecalledLast | AIBus Common/Serial_AIBus_Handler.cpp:407-422 | With eligibility written out: the answer for a pair is the last message given to the writer for it that is not broadcast, not empty, no acknowledgement and no fragment of at most 35 bytes; there is none if there was no such message |
| SerialProtocol.RecalledExactly | AIBus Common/Serial_AIBus_Handler.cpp:407-422 | One message given to the writer changes the answer of its own pair only, to itself, and only if it is eligible in that sense |
| SerialHandler.SerialAIBusHandler.Respond | AIBus Common/Serial_AIBus_Handler.cpp:197-220 | A message for this device is acknowledged, once, to its sender, and with nothing to read nothing else is written; a resend request with a remembered message is answered with all the frames of that message in order, each awaited, up to the first that goes unanswered 50 times, once if unanswered messages are cached |
| SerialHandler.ResentWhole | AIBus Common/Serial_AIBus_Handler.cpp:206-220 | A long message of this device, once written, is sent again as a whole to the device that asks for it, in order, up to the first fragment that goes unanswered |
| SerialHandler.SerialAIBusHandler.Handle | AIBus Common/Serial_AIBus_Handler.cpp:206-290 | The reassembling branches are one step of the reassembler |
| SerialHandler.SerialAIBusHandler.Write | AIBus Common/Serial_AIBus_Handler.cpp:404-546 | The queued frames are written in order, escaped, all of them if answered or nothing is awaited; with nothing to read and nothing awaited exactly these bytes and no others; true is answered only if an awaited acknowledgement was read during the call or lay in the cache; the message stays the answer to resend requests as long as no collection expires |
| SerialHandler.SerialAIBusHandler.WriteGroup | AIBus Common/Serial_AIBus_Handler.cpp:424-482 | Fragments in order, the first unanswered one ending the group; exactly their bytes when nothing is to be read or awaited |
| SerialHandler.SerialAIBusHandler.WriteOne | AIBus Common/Serial_AIBus_Handler.cpp:485-540 | What waits on the port is read first, then the frame written and its answer awaited; exactly that frame when nothing is to be read or awaited |
| SerialHandler.SerialAIBusHandler.Drain | AIBus Common/Serial_AIBus_Handler.cpp:488-501 | Of what is read before writing, exactly the messages to the device being written for, and broadcasts, are cached; the rest is dropped |
| SerialHandler.SerialAIBusHandler.Await | AIBus Common/Serial_AIBus_Handler.cpp:672-719 | True only if an acknowledgement was read during the wait or lay in the cache, and true whenever one is what waits on the port; false only after the message was written again as often as asked |
| SerialHandler.SerialAIBusHandler.HearOne | AIBus Common/Serial_AIBus_Handler.cpp:676-702 | One read of the wait ends it exactly if it returns the acknowledgement, or one lies in the cache, and it did not return a message of the sender itself |
| SerialHandler.TransferRead | AIBus Common/Serial_AIBus_Handler.cpp:113-290 | Each read takes at least one more message of a transfer off the wire and returns the message exactly if it was the last |
| SocketClient.Resync | AIBus Common/Client_AIBus_Handler.cpp:229-250 | Of frames of which any number are hit in one byte other than the length, and a cut-off last one, the splitter yields exactly the intact ones, in order |
| SocketClient.IntactDelivered | AIBus Common/Client_AIBus_Handler.cpp:221-296 | Of such a stream of ordinary frames the client caches exactly the intact ones for it or broadcast and not its own, in order |
| SocketClient.InOrderReassembled | AIBus Common/Client_AIBus_Handler.cpp:269-287 | Fragments in index order give the message back |
| SocketClient.AnyOrderDelivered | AIBus Common/Client_AIBus_Handler.cpp:269-287 | For every order of arrival of a long message's fragments: one message comes out, and it is the original if and only if each fragment carries just the bytes that belong where it comes to lie, 32 bytes a place with those behind the short one shifted |
| SocketClient.AlignedOrderDelivered | AIBus Common/Client_AIBus_Handler.cpp:269-287 | With no short fragment, or the short one last, that is if and only if every place has the chunk of its index |
| SocketClient.SwappedFragmentsDiffer | AIBus Common/Client_AIBus_Handler.cpp:269-287 | Swapping any two full fragments keeps the message if and only if they are equal |
| SocketClient.FragmentsGathered | AIBus Common/Client_AIBus_Handler.cpp:269-287 | Fragments are kept until all have come, and then something is delivered once |
| SocketClient.PairsMixed | AIBus Common/Client_AIBus_Handler.cpp:269-287 | Fragments of different pairs are put together into one message, under the name of the last |
| SocketClient.ClientAIBusHandler.CacheAIData | AIBus Common/Client_AIBus_Handler.cpp:221-296 | The consuming loop ends and handles exactly the split messages, acknowledging and answering as it goes |
| SocketClient.AnsweredExactly | AIBus Common/Client_AIBus_Handler.cpp:256-268 | Over any run of messages exactly those of other devices to this one that are neither empty nor acknowledgements are acknowledged, in order, and exactly what the resend requests call for, the message last sent for each pair, is sent again, in order |
| AapChannels.Multiplexing | AMirror Android Auto/src/aap/aa_handler.rs:353-408 | Any number of messages of two bytes or more on each of 256 channels, frames interleaved in any way that keeps the order within a channel: every channel hands on exactly its own messages, in order |
| AapChannels.ReceiveMessages | AMirror Android Auto/src/aap/aa_handler.rs:205-224 | The same on the handler: frames of any number of messages on every channel, interleaved in any way and each cut into reads of its own with the header in the first, and every channel hands on exactly its own messages, in order |
| AapChannels.Exchange | AMirror Android Auto/src/aap/aa_handler.rs:353-408 | From one handler to another: for any list of messages and channels, what the writer's frame loop wrote makes every channel of the reader hand on exactly what was sent on it, in order, messages of fewer than two bytes left out |
| AapChannels.Noninterference | AMirror Android Auto/src/aap/aa_handler.rs:515-559 | A channel's state and deliveries depend on its own frames only |
| AapChannels.OneMessage | AMirror Android Auto/src/aap/aa_handler.rs:353-408 | With its last frame, empty if the length is a multiple of 0x4000, a message is handed on whole, whatever the channel held before |
| AapChannels.GapUnnoticed | AMirror Android Auto/src/aap/aa_handler.rs:515-559 | A message that loses frames from its middle is handed on with the gap, as if it were whole |
| AapChannels.RestAppended | AMirror Android Auto/src/aap/aa_handler.rs:515-559 | Frames whose first one is lost are added to what the channel holds, and that is handed on |
| AapChannels.Midway | AMirror Android Auto/src/aap/aa_handler.rs:515-559 | Before its last frame a message is never complete, and the bytes so far are its prefix |
| AapChannels.Interrupted | AMirror Android Auto/src/aap/aa_handler.rs:515-559 | The same in the middle of any interleaving, with the earlier messages handed on |
| AapChannels.ServeOnly | AMirror Android Auto/src/aap/aa_handler.rs:216-224 | The loop over all channels serves just the channel of the last frame |
| AapChannels.AapHandler.WriteUnencoded | AMirror Android Auto/src/aap/aa_handler.rs:353-408 | The frame loop writes the message's frames, or nothing below two bytes |
| AapChannels.FrameHeader | AMirror Android Auto/src/aap/aa_handler.rs:353-402 | The header read back: control bit exactly for types 2 to 0x7FFF off channel 0, the payload's length, and on the first of several frames the total length modulo 2^32 |
| AapChannels.AapHandler.ProcessBytes | AMirror Android Auto/src/aap/aa_handler.rs:515-559 | A frame and the further reads it needs reach just its channel; header cut short, payload missing and encrypted frames are told apart |
| AapChannels.AapHandler.ProcessRead | AMirror Android Auto/src/aap/aa_handler.rs:212-224 | A read with everything handed on after it is one step of the channels' state machine |
| AapChannels.AapHandler.ProcessAll | AMirror Android Auto/src/aap/aa_handler.rs:205-224 | If each frame is cut into reads of its own, in any way that leaves its header in the first, the channels go through exactly those frames |
| AapChannels.GluedRead | AMirror Android Auto/src/aap/aa_handler.rs:531-557 | What follows a frame in the same read is swallowed by its channel, so that the frame is read as it should be exactly if nothing follows |
| AapChannels.AapHandler.Dispatch | AMirror Android Auto/src/aap/aa_handler.rs:216-224 | Complete messages of two bytes or more are handed on and cleared, channel by channel |
| AapChannels.ServedExactly | AMirror Android Auto/src/aap/aa_handler.rs:216-224 | Of all channels exactly the complete ones with two bytes or more are handed on and cleared |
| Circle.FillCircle | Navigation Computer/Code/AidF_Nav_Computer_Pi/Symbol/Circle.c:39-76 | Terminates; fills every pixel with a² + b² < r², unless a drawing call fails; touches no pixel more than one step outside the disc in any case |
| Circle.DrawCircle | Navigation Computer/Code/AidF_Nav_Computer_Pi/Symbol/Circle.c:4-36 | The outline has a pixel at every distance from either axis with all its mirror images, and no pixel is more than one step off the edge |
| Circle.StepUp | Navigation Computer/Code/AidF_Nav_Computer_Pi/Symbol/Circle.c:61-64 | A step up keeps error = x² + y² - r² and the curve between x and x + 1 |
| Circle.StepIn | Navigation Computer/Code/AidF_Nav_Computer_Pi/Symbol/Circle.c:65-69 | A step in keeps the same |
| Circle.NoOverflow | Navigation Computer/Code/AidF_Nav_Computer_Pi/Symbol/Circle.c:40-69 | All loop variables stay within about the diameter |
| Circle.RoundProgress | Navigation Computer/Code/AidF_Nav_Computer_Pi/Symbol/Circle.c:45-73 | One round's spans finish a row passed on the way up or in |
| Circle.ProgressCovers | Navigation Computer/Code/AidF_Nav_Computer_Pi/Symbol/Circle.c:45-73 | When the loop ends the finished rows are the whole interior |
| Circle.SpansNear | Navigation Computer/Code/AidF_Nav_Computer_Pi/Symbol/Circle.c:46-59 | No pixel of a round is more than one step outside the disc |
| Circle.PointsOutward | Navigation Computer/Code/AidF_Nav_Computer_Pi/Symbol/Circle.c:12-19 | No pixel of a round's octants is more than one step inside the disc |
| Circle.RoundTraced | Navigation Computer/Code/AidF_Nav_Computer_Pi/Symbol/Circle.c:11-33 | One round closes the outline at two more distances |
| TextSplit.Optimal | AMirror Android Auto/src/text_split.rs:2-62 | If no word is longer than len, no other way of breaking the text into lines of at most len uses fewer lines |
| TextSplit.OptimalAlways | AMirror Android Auto/src/text_split.rs:2-62 | For every text: of all ways of breaking it that cut only words longer than len, and put their pieces on lines of their own, none uses fewer lines |
| TextSplit.GreedyShape | AMirror Android Auto/src/text_split.rs:2-62 | For every text the chunks are its words in order: a word longer than len cut into pieces of exactly len characters but for the last, the others on lines that are full, so that the first word of a line would not have fitted on the line before |
| TextSplit.PiecesExactly | AMirror Android Auto/src/text_split.rs:46-56 | The pieces of a word make up the word, none is empty, and all but the last have exactly len characters |
| TextSplit.StaysAhead | AMirror Android Auto/src/text_split.rs:8-59 | Greedy from any later word needs no more chunks than any way from an earlier one |
| TextSplit.Lossless | AMirror Android Auto/src/text_split.rs:2-62 | No character other than a space is lost, added or moved, whatever the words are |
| TextSplit.Rejoins | AMirror Android Auto/src/text_split.rs:2-62 | If no word is too long, joining the chunks with single spaces gives the text back |
| TextSplit.ChunksFit | AMirror Android Auto/src/text_split.rs:13-57 | Every chunk has at most len characters |
| TextSplit.PackMaximal | AMirror Android Auto/src/text_split.rs:15-29 | A greedy chunk fits and no longer one from the same word does |
| TextSplit.WordsUnique | AMirror Android Auto/src/text_split.rs:3-3 | Splitting at spaces undoes joining |
| TextSplit.SplitText | AMirror Android Auto/src/text_split.rs:2-62 | The loops with their skip index compute those chunks |
| TextSplit.FindEnd | AMirror Android Auto/src/text_split.rs:15-29 | The search by running lengths finds the maximal chunk |
| TextSplit.CutWord | AMirror Android Auto/src/text_split.rs:46-56 | A long word is cut into its pieces |
| Buttons.Cycles | Double DIN Screen/Code/AIBus_Double_DIN/src/Button_Handler.cpp:45-189 | In every state the handler reaches, what a control has said and to whom is whole cycles of press, perhaps hold, release, and at most one unfinished; each cycle of any control but nav-push went to one recipient, and press and hold of nav-push too |
| Buttons.NavPushRecipient | Double DIN Screen/Code/AIBus_Double_DIN/src/Button_Handler.cpp:128-133 | In the messages sent: a scan that ends a cycle of nav-push adds one release, to whom the press of that cycle went if and only if no direction is down or the destination is still that recipient |
| Buttons.PushReleased | Double DIN Screen/Code/AIBus_Double_DIN/src/Button_Handler.cpp:128-146 | That release is one message, to the current destination if a direction is down and to the remembered recipient otherwise |
| Buttons.SendKeeps | Double DIN Screen/Code/AIBus_Double_DIN/src/Button_Handler.cpp:192-211 | One message about a control keeps it in step with its history and leaves all others alone |
| Buttons.PhaseMeans | Double DIN Screen/Code/AIBus_Double_DIN/src/Button_Handler.cpp:45-189 | What never breaks the press-hold-release automaton is whole cycles and at most one unfinished, recipients included |
| Buttons.ScanStep | Double DIN Screen/Code/AIBus_Double_DIN/src/Button_Handler.cpp:95-148 | Scanning a toggle keeps nav-push and the directions exclusive; it relies on the directions being scanned first |
| Buttons.ButtonHandler.constructor | Double DIN Screen/Code/AIBus_Double_DIN/src/Button_Handler.cpp:3-33 | Everything starts released, with no message sent |
| Buttons.ButtonHandler.Send | Double DIN Screen/Code/AIBus_Double_DIN/src/Button_Handler.cpp:192-211 | One message [0x30, code, 0x00, 0x40 or 0x80], whose acknowledgement is awaited unless the recipient is 0xFF, the screen or known absent |
| Buttons.RecipientByCode | Double DIN Screen/Code/AIBus_Double_DIN/src/Button_Handler.cpp:45-72 | By code: source, FM/AM, aux, tone and volume go to the audio device, info, skips and F keys to the source device, all others to the common destination |
| Buttons.ButtonHandler.ScanPins | Double DIN Screen/Code/AIBus_Double_DIN/src/Button_Handler.cpp:46-88 | Every pin ends where its line says, with exactly one message for each that changed, none for eject, which opens the screen |
| Buttons.ButtonHandler.ScanToggles | Double DIN Screen/Code/AIBus_Double_DIN/src/Button_Handler.cpp:90-148 | Every toggle ends where its line says, nav-push up while a direction is down; one message for each that changed |
| Buttons.ButtonHandler.CheckButtonPress | Double DIN Screen/Code/AIBus_Double_DIN/src/Button_Handler.cpp:45-149 | Both scans together: states, recipients and exactly one message for each change; nav-push is never down together with a direction |
| Buttons.ButtonHandler.CheckButtonHold | Double DIN Screen/Code/AIBus_Double_DIN/src/Button_Handler.cpp:152-189 | Exactly the pressed controls whose time is up become held, each with one message to its recipient, eject never |
| Buttons.ButtonHandler.Loop | Double DIN Screen/Code/AIBus_Double_DIN/src/Button_Handler.cpp:35-43 | One turn keeps the cycles and the mutual exclusion |
| Metadata.RoundTrip | AMirror Android Auto/src/mirror/messages.rs:379-457 | Printing and parsing give the message back if and only if no name or value contains a comma or colon and no integer is negative |
| Metadata.PrintParsed | AMirror Android Auto/src/mirror/messages.rs:473-509 | With separable names and values everything comes back in order, integers without their sign and the least one as 0 |
| Metadata.ParseClean | AMirror Android Auto/src/mirror/messages.rs:425-455 | Parsing never yields a separator or a negative integer |
| Metadata.Relayed | AMirror Android Auto/src/mirror/messages.rs:379-457 | What has been parsed once stays the same however often it is printed and parsed again |
| Metadata.PassedOver | AMirror Android Auto/src/mirror/messages.rs:425-431 | An element with no colon or with more than one makes no difference, wherever it stands |
| Metadata.PanicsExactly | AMirror Android Auto/src/mirror/messages.rs:432-436 | The parser panics exactly if some element's only colon is its first or second character |
| Metadata.BeforeIgnored | AMirror Android Auto/src/mirror/messages.rs:379-424 | What stands before the first brace makes no difference |
| Metadata.UnclosedRead | AMirror Android Auto/src/mirror/messages.rs:379-424 | Nor does a missing closing brace, unless the text before it ends in one |
| Strings.SplitJoin | AMirror Android Auto/src/mirror/messages.rs:425-428 | Splitting undoes joining where no part contains the separator |
| Metadata.ReadPrinted | AMirror Android Auto/src/mirror/messages.rs:445-450 | A printed integer is read back as its absolute value, the least one as 0 |
| Metadata.GetMirrorMessage | AMirror Android Auto/src/mirror/messages.rs:473-509 | The two loops with their comma conditions print the elements joined by commas |
| Metadata.From | AMirror Android Auto/src/mirror/messages.rs:379-457 | The parser's loops, its skipped elements and its panic included |
| NavMenus.NavMenu.IncrementSelected | Navigation Computer/Code/AidF_Nav_Computer_Pi/Menu/Nav_Menu.cpp:198-223 | In single-ring mode the selection moves to the cyclically next populated entry, stays if there is none, within 2·length steps |
| NavMenus.NavMenu.DecrementSelected | Navigation Computer/Code/AidF_Nav_Computer_Pi/Menu/Nav_Menu.cpp:263-285 | The same backwards |
| NavMenus.Undo | Navigation Computer/Code/AidF_Nav_Computer_Pi/Menu/Nav_Menu.cpp:198-285 | From a populated entry increment and decrement undo one another |
| NavMenus.Mirrored | Navigation Computer/Code/AidF_Nav_Computer_Pi/Menu/Nav_Menu.cpp:198-285 | t is next after s exactly if s is the one before t, at the same distance |
| NavMenus.NextUnique | Navigation Computer/Code/AidF_Nav_Computer_Pi/Menu/Nav_Menu.cpp:198-285 | There is only one next and only one previous entry |
| NavMenus.RingCovers | Navigation Computer/Code/AidF_Nav_Computer_Pi/Menu/Nav_Menu.cpp:198-285 | Walking all the way round meets every entry |
| NavMenus.NavMenu.SetItem | Navigation Computer/Code/AidF_Nav_Computer_Pi/Menu/Nav_Menu.cpp:83-92 | Sets one entry, an empty text as a blank; out of range it does nothing |
| NavMenus.NavMenu.SetSelected | Navigation Computer/Code/AidF_Nav_Computer_Pi/Menu/Nav_Menu.cpp:135-140 | A selection beyond the length is ignored |

## Left out

- Serial ports, sockets, USB, pins, SDL and the clock are foreign calls; they appear as input sequences, traces and nondeterminism, and the waits for a quiet line as nothing at all.
- ClientHandler.ClientAIBusHandler.AwaitAcknowledgment: once the scripted reads are used up every further read times out and the next try is due.
- Envelope.CutRead: the buffer of 1024 bytes is not modelled; reads may end anywhere, and what a cut does is stated for every place of it.
- The spin flags of the C++ handlers (`main_locked`, `thread_locked`, `check_ok`) and the Rust mutexes: handlers are sequential.
- Duplicates of fragments: what the two assemblers make of them is `Fragmentation.CollectExactly`; the any-order results are about permutations of distinct fragments.
- SerialHandler.SerialAIBusHandler.Read: the relay of every message to the socket, and the 5 ms wait for a frame's remaining bytes, which counts as cut off when they are not there; if the exchange about an expired collection leaves fewer than four bytes, the source reads bytes that are not there, the model none.
- SerialHandler.SerialAIBusHandler.Drain: spins without reading when two or three bytes wait on the port; the model leaves the loop.
- SerialHandler.SerialAIBusHandler.Await: reads the first payload byte of an empty message before checking its length; the model checks first.
- SerialHandler.Transfer: the two handlers take turns; answers that the reader writes while the writer is still waiting are not fed back to it, but whatever the writer may read meanwhile is covered.
- SerialHandler.SerialAIBusHandler.Respond: how often a remembered message is written in answer to a resend request is bounded from below only, because further requests may be served while it is being written.
- The retry loops of the two C++ handlers; what the serial writer puts into its cache is part of `WriteAIData`, what becomes of it is not modelled.
- SocketClient.ClientAIBusHandler.CacheAIData: length bytes 0 and 1 declare an array of negative size in the source; they count as an empty payload here. `readSocketMessage` and the socket client's writer are not modelled.
- ClientHandler.ClientAIBusHandler.WriteStream: which of the radio, screen, phone and IMID are connected is nondeterministic for each message; every other receiver is waited for.
- Envelope.GetFullBytes: the length byte wraps, as in a release build, for payloads of 251 bytes and more; a debug build of the source panics at 251. None that long is ever queued unfragmented.
- The encrypted Android Auto path, the handshake, `total_size`, the meaning of the messages handed on, and reads whose first part is shorter than the frame's header.
- AapChannels.AapHandler.ProcessBytes: waits forever for a payload that never comes; the model ends with `Starved` when the reads are used up.
- Circle: `Circle.NoOverflow` bounds the loop variables; the sums with the centre's coordinates are unbounded integers.
- TextSplit.SplitText: length 0 with a non-empty word does not terminate in the source and is excluded; text is ASCII, one byte per character.
- Buttons: the timers and the debounce timer are parameters; what the button codes mean to the receivers is not modelled.
- Metadata.From: invalid UTF-8, which yields an empty message, and slices that would cut a character of several bytes; the header around the text (`MirrorMessage`).
- NavMenus.NavMenu.IncrementSelected: the two-column mode, in which the source's search need not end, is excluded, as are menus of 65535 entries.
- Windows, locales, dispatch functions, map geometry and protobuf messages: tables and plumbing with easy claims only.
