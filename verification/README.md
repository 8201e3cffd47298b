# Verified model of the DDP daemon's stateful core

A Dafny model of the parts of the D-Link discovery (DDP) daemon that keep state, loop or speak a protocol, with proofs of
what they keep, compute and promise. `dafny verify dfyconfig.toml` checks all of it.

Code that updates objects in place is modelled by classes and loops, each proved equal to a function on values; the
properties are then lemmas about these functions, over all inputs, runs or interleavings.

- **Neighbour database** (`NeighbourSpec`, `NeighbourRuns`, `NeighbourSweep`, `NeighbourList`, `NeighbourDb`,
  `NeighbourReply`): port lists of heap nodes with both links, tail and count; insert-or-move, purge, the TTL sweep through a
  pointer into the node it frees; the reply that serialises a list. Over every sequence of operations the heap is what the run
  on values says (`Execute`), a MAC is on the scanned ports at most once, and as long as no MAC of zeros is filed a neighbour
  lives for exactly two updates after its last insertion.
- **Delayed commands** (`MsgQueue`, `AlarmSpec`, `AlarmQueue`, `AlarmSystem`, `DelayedCommand`, `DelayedSystem`): the queue,
  the alarm slots, a step system whose steps are the lock regions, the handlers, and all of them together. Each message is in
  exactly one place, a command is enqueued on exactly the d-th countdown, and when it comes back it is run and not delayed
  again (`DelayedEndToEnd`).
- **SNMP query** (`SnmpNames`, `SnmpReply`): from the slot tables to the packets and, through an independent reader, back.
- **Built-in TFTP client** (`TftpWait`, `TftpPackets`, `TftpPut`, `TftpGet`) and **one transfer at a time**
  (`UpgradeFlag`): what is sent, stored and returned for every sequence of datagrams, and at most one worker over all
  interleavings.
- **Codecs** (`Header`, `Base64`): wire formats on both byte orders; RFC 4648, section 4, with truncating buffers.

For each operation there are also statements that use none of its own functions, but bytes, positions and numbers: what is in
a reply, a request, a packet or a header and where, which codes come back, which transfers are launched, how often the alarm
thread comes round, and the test vectors of RFC 4648.

Some things the code does that its documentation or names do not lead one to expect are stated exactly:

- An alarm added between the thread's countdown and its "up" call for the same slot is sent at once (`AddKeepsDelay`).
- A delayed message has no sender address, so whoever asked for the delay is told that all is well and never hears of what
  comes of it: not when the user is unknown by then, and not when the platform fails (`OneReply`, `SecondPassSucceeds`).
- With authentication off, a delayed command finds the same delay in its message again and never runs (`SecondPass`). The
  operation table as it is shipped has authentication on for all three operations (src/engine/ddp.c:109, 125 and 126), so
  this half concerns only a table that were changed.
- A fifth neighbour loses its last field in the query reply (`ReplyReadsBack`).
- Port 0 is accepted by the insertion but never scanned, so a MAC can be on it any number of times (`PortZeroDuplicates`).
- A move to a full port drops the neighbour (`LookupInserted`).
- A transfer that tftp_cli itself refuses leaves the flag up for good (`StuckExactly`), and a request that finds the flag up
  reports success without starting anything (`AloneStarts`).
- An upload ends in success with nothing sent when the first reply is neither an error nor the acknowledgement of block 0
  (`FirstReplyDecides`), and on a little-endian machine an unknown reply to a block is followed by the block that the
  byte-swapped number names (`UnknownReplySwaps`, `SwapHappens`).
- A name of 32 characters has no terminating zero in its slot; the copies of the getter stay inside their memory as long as
  the name set last is shorter (`NameTable.Get`). A name has that room on the wire.
- A packet of 22 to 33 bytes whose identifier says version 6 is accepted, with fields behind its end (`ReadsInside`).
- The encoder reads in front of its table when a character is negative (`IndicesInside`).
- The sweep hands the purge a pointer to the MAC inside the very node that is zeroed and freed. If these zeros are what the
  rest of the purge reads, a neighbour with a MAC of zeros that is filed behind goes too, and when it is the next one, the
  sweep of that list ends with it (`AliasHarmless`, `SweepExactly`, and `ZeroSuffers` for a run that gets there).
- A server that acknowledges blocks it has not got makes the sender skip them, and the upload still succeeds
  (`SkippingSucceeds`; `PutExactly` says when the file was sent).
- Sending 65535 * 512 bytes or more starts over with the request (`PutCompletes`); receiving stores files of any
  length, but never acknowledges the last block and stops counting its acknowledgements at 65535 (`GetCompletes`); any
  short first datagram, an error packet included, ends a download in success (`ShortDatagramSucceeds`).

Assumptions: memory allocation succeeds; pointers are not null; the header and body of a request are as long as its
identifier and its header say; the bytes of a freed neighbour keep their zeros until its sweep ends; the alarm thread has
zeroed its slots (src/engine/ddp_alrm_queue.c:245, without the lock) before the first request comes; nobody shuts the daemon
down, which would take the TFTP client's run flag down in the middle of a wait (src/engine/ddp.c:281). The clock, the
network, the user database, the operation table and the platform's fields are parameters.

The repository as it is configured runs an external program for transfers (src/engine/tftp_cli.c:49); the built-in client of
`TftpWait`, `TftpPackets`, `TftpPut` and `TftpGet` is what is compiled without that definition. `UpgradeFlag` is about both.

## Model

| member | source | states |
|---|---|---|
| NeighbourSpec.RemovedIsWithout | src/engine/ddp_proto_switch.c:606-722 | cutting out the one matching node is the same as filtering the list by MAC |
| NeighbourList.PortList.constructor | src/engine/ddp_proto_switch.c:218-237 | a zeroed list record is a well-formed empty list |
| NeighbourList.PortList.Splice | src/engine/ddp_proto_switch.c:618-700 | whatever the overlapping cases patch, the neighbours of the node end up linked to each other, first and tail move exactly when the node was an end, and no entry, TTL or port changes |
| NeighbourList.PortList.Drop | src/engine/ddp_proto_switch.c:612-718 | after unlinking, zeroing and counting down, the links, ends and count are those of the node sequence without that node |
| NeighbourList.PortList.Unlink | src/engine/ddp_proto_switch.c:612-718 | the list stays well formed and loses exactly that position, in nodes and in contents |
| NeighbourList.PortList.Attach | src/engine/ddp_proto_switch.c:936-992 | the pointers and the count after the three insertion cases |
| NeighbourList.PortList.Append | src/engine/ddp_proto_switch.c:936-992 | the list stays well formed and gains the node at its end |
| NeighbourList.PortList.PurgeMac | src/engine/ddp_proto_switch.c:603-721 | the scan, which reads each next pointer before it frees, removes the node with that MAC and nothing else |
| NeighbourList.PortList.PurgeBy | src/engine/ddp_proto_switch.c:603-721 | the same scan for a MAC that is read through a pointer into a node: behind that node, which it zeroes itself, it takes those with a MAC of zeros |
| NeighbourList.PortList.PurgeFirst | src/engine/ddp_proto_switch.c:803-926 | so does the insertion's scan, which stops at its first match |
| NeighbourDb.Database.constructor | src/engine/ddp_proto_switch.c:218-237 | thirteen empty lists satisfy the invariant |
| NeighbourDb.Database.PurgeFromDb | src/engine/ddp_proto_switch.c:587-725 | for a MAC elsewhere in memory, refines the purge on values and keeps the invariant |
| NeighbourDb.Database.PurgeThrough | src/engine/ddp_proto_switch.c:587-725 | for a pointer into a node of the database, or into one that is gone, the contents and nodes of all lists are those of the purge through a pointer on values, and what has left the list is zeroed |
| NeighbourDb.Database.PurgeForInsert | src/engine/ddp_proto_switch.c:801-927 | leaving the search after the first match still purges every list |
| NeighbourDb.Database.Insert | src/engine/ddp_proto_switch.c:739-1033 | refines the insertion on values, with its return code, and keeps acyclicity, link symmetry, ends, counts and disjointness |
| NeighbourDb.Database.AgeNode | src/engine/ddp_proto_switch.c:465-486 | a node at 0 is purged through the pointer to its own MAC, any other only loses one from its TTL, and a node that is in no list any more changes nothing |
| NeighbourDb.Database.AgeNext | src/engine/ddp_proto_switch.c:460-489 | the next pointer saved before the nested purge is the next node after it, or a zeroed one whose round is the last |
| NeighbourDb.Database.AgeList | src/engine/ddp_proto_switch.c:457-490 | the sweep of one list refines the sweep on values, with what it takes from the lists behind, and ends |
| NeighbourDb.Database.UpdateAllTtl | src/engine/ddp_proto_switch.c:440-493 | the whole sweep refines the sweep on values and keeps the invariant |
| NeighbourDb.Database.Execute | src/engine/ddp_proto_switch.c:440-1033 | after any sequence of insertions, purges and sweeps the heap is well formed and stores what the run on values says |
| NeighbourRuns.PurgeKeepsInv | src/engine/ddp_proto_switch.c:587-725 | a purge keeps unique MACs and bounded lists, and the MAC is gone from ports 1 to 12 |
| NeighbourRuns.PurgeOneList | src/engine/ddp_proto_switch.c:606-722 | by uniqueness, changing the one list with a hit is the whole purge |
| NeighbourRuns.UpdateTtlKeepsInv | src/engine/ddp_proto_switch.c:440-493 | ageing keeps the invariant |
| NeighbourRuns.InsertKeepsInv | src/engine/ddp_proto_switch.c:739-1033 | an insertion, accepted or not, keeps the invariant |
| NeighbourRuns.RunKeepsInv | src/engine/ddp_proto_switch.c:440-493 | every sequence of insertions, purges and updates keeps it |
| NeighbourRuns.ReachableInv | src/engine/ddp_proto_switch.c:218-237 | in every state reachable from the start a MAC is on ports 1 to 12 at most once, no list has more than six nodes and every TTL is 0, 1 or 2 |
| NeighbourRuns.InsertAccepts | src/engine/ddp_proto_switch.c:929-934 | an insertion succeeds if and only if the port exists and has room or is refreshed; a refresh is never rejected |
| NeighbourRuns.InsertComesTo | src/engine/ddp_proto_switch.c:767-996 | in numbers: ports 0 to 12 exist; an entry is refused when its port holds six neighbours, none of them the same device on a scanned port; otherwise it is last in the list of its port, with a TTL of 2, behind neighbours that were there |
| NeighbourRuns.PurgeComesTo | src/engine/ddp_proto_switch.c:602-722 | in numbers: of ports 1 to 12, all of them, exactly the neighbours with that MAC go |
| NeighbourRuns.InsertKeepsOthers | src/engine/ddp_proto_switch.c:801-992 | all other entries of every port keep order and content |
| NeighbourRuns.PortZeroDuplicates | src/engine/ddp_proto_switch.c:767-802 | an insertion keeps MACs unique over all thirteen ports if and only if the MAC is not on port 0 |
| NeighbourRuns.PortZeroOnlyGrows | src/engine/ddp_proto_switch.c:457-457 | no operation ever removes or ages what is on port 0 |
| NeighbourRuns.LookupFinds | src/engine/ddp_proto_switch.c:802-809 | looking a MAC up over the scanned ports finds an entry exactly when it is on the list of its port |
| NeighbourRuns.LookupPurged | src/engine/ddp_proto_switch.c:587-725 | a purge takes its MAC away and leaves every other one |
| NeighbourRuns.LookupInserted | src/engine/ddp_proto_switch.c:801-996 | after an insertion the MAC is on the new port with a full TTL, or nowhere when it was rejected; other MACs stay |
| NeighbourRuns.LookupAged | src/engine/ddp_proto_switch.c:457-490 | an update takes one from every TTL and drops what was at 0 |
| NeighbourRuns.StepLooks | src/engine/ddp_proto_switch.c:440-1033 | what each operation makes of what is known of each MAC, in numbers |
| NeighbourRuns.Ageing | src/engine/ddp_proto_switch.c:457-490 | over any run that leaves a MAC alone, what is known of it depends only on the number of updates |
| NeighbourRuns.Lifetime | src/engine/ddp_proto_switch.c:465-486 | a neighbour is present through two updates and absent after the third, whatever happens to other MACs, where an update is ageing |
| NeighbourSweep.AliasHarmless | src/engine/ddp_proto_switch.c:465-470 | a purge that reads its MAC through the pointer into the node that it zeroes does what a purge with the MAC as a value does, if and only if no MAC of zeros is filed behind that node |
| NeighbourSweep.SweptExactly | src/engine/ddp_proto_switch.c:457-490 | the same for the sweep of the list that holds the MAC of zeros |
| NeighbourSweep.SweepExactly | src/engine/ddp_proto_switch.c:440-493 | the sweep as written ages the database if and only if a neighbour with a MAC of zeros that has an expired one in front has expired too, and does not stand directly behind the first expired one in a list that goes on |
| NeighbourSweep.SweepKeepsInv | src/engine/ddp_proto_switch.c:440-493 | the sweep as written keeps the invariant in any case |
| NeighbourSweep.RunAsWrittenKeepsInv | src/engine/ddp_proto_switch.c:440-1033 | so does every run with it |
| NeighbourSweep.RunsAlike | src/engine/ddp_proto_switch.c:440-1033 | as long as no MAC of zeros is filed on ports 1 to 12, runs as written are runs with ageing for a sweep |
| NeighbourSweep.LifetimeAsWritten | src/engine/ddp_proto_switch.c:465-486 | in them a neighbour is present through two updates and absent after the third |
| NeighbourSweep.ZeroSuffers | src/engine/ddp_proto_switch.c:465-486 | a run from the empty database after which the next sweep takes a neighbour that was reported just now |
| NeighbourReply.FitIs | src/engine/ddp_proto_switch.c:317-410 | the longest prefix of whole fields that fits is the only one that fits and that the next field would overrun |
| NeighbourReply.PutFields | src/engine/ddp_proto_switch.c:317-410 | an entry's fields are written one after the other up to the first that does not fit |
| NeighbourReply.FillList | src/engine/ddp_proto_switch.c:301-416 | count byte and loop write exactly the reply for the list and nothing behind it |
| NeighbourReply.FillQueryNeighbours | src/engine/ddp_proto_switch.c:252-423 | error codes, the zeroed rest, the returned length, and for every length that the reply stays inside it |
| NeighbourReply.ShortReply | src/engine/ddp_proto_opt.c:447-463 | entries that fit are sent whole, in 1 + 230k bytes |
| NeighbourReply.LongReply | src/engine/ddp_proto_opt.c:447-463 | with the caller's length and five or more entries the last field of the fifth is missing |
| NeighbourReply.ReplyOfFew | src/engine/ddp_proto_switch.c:301-416 | byte by byte: up to four neighbours are sent whole, in the order of the list |
| NeighbourReply.ReplyOfMany | src/engine/ddp_proto_switch.c:301-416 | byte by byte: of five or more, the number of all, the first four whole and 222 bytes of the fifth, in the order of the list |
| NeighbourReply.ReplyIsBeginning | src/engine/ddp_proto_switch.c:301-416 | for every length, what follows the count is a beginning of the first five entries in the order of the list |
| NeighbourReply.ManyReadBack | src/engine/ddp_proto_opt.c:447-463 | a reader of 230-byte entries has the first four of a longer list |
| NeighbourReply.ReplyReadsBack | src/engine/ddp_proto_opt.c:447-463 | the reply splits back into the entries if and only if there are at most four |
| MsgQueue.Queue.constructor | src/engine/ts_queue.c:111-146 | a new queue is empty and has the default limit |
| MsgQueue.Queue.SetLength | src/engine/ts_queue.c:185-197 | a zero length is refused, any other becomes the limit |
| MsgQueue.Queue.Insert | src/engine/ts_queue.c:18-66 | refines appending to a bounded sequence; head is null exactly when tail is and the count is the true length |
| MsgQueue.Queue.Remove | src/engine/ts_queue.c:75-102 | refines taking the first item off |
| MsgQueue.Queue.Drain | src/engine/msg_queue.c:72-84 | the loop ends, having removed exactly the nodes that were queued, in order |
| MsgQueue.QueueConserves | src/engine/ts_queue.c:41-99 | over any interleaving, the accepted items are the removed ones followed by the remaining ones |
| MsgQueue.QueueStaysBounded | src/engine/ts_queue.c:42-49 | a positive limit is never passed |
| MsgQueue.UnlimitedAcceptsAll | src/engine/ts_queue.c:42-49 | a limit of -1 accepts every item |
| MsgQueue.BelowLimitAcceptsAll | src/engine/ts_queue.c:42-49 | a run that stays below a positive limit is accepted in full |
| MsgQueue.InsertComesTo | src/engine/ts_queue.c:18-66 | data is accepted exactly without a limit or below it, at the end; nothing gives -1, a limit reached gives -3 |
| MsgQueue.RemoveComesTo | src/engine/ts_queue.c:75-102 | the first item comes out, if there is one |
| AlarmSpec.IndexOpcodeInverse | src/engine/ddp_alrm_queue.c:72-101 | the two maps are inverse on the three opcodes, and only there |
| AlarmSpec.SlotOfOpcode | src/engine/ddp_alrm_queue.c:72-84 | slots 0, 1 and 2 are of operations 0x0103, 0x00AA and 0x00AB |
| AlarmSpec.AddComesTo | src/engine/ddp_alrm_queue.c:112-139 | adding arms the slot of the operation and no other, and gives -1 for another operation and -2 for no delay |
| AlarmSpec.DeleteComesTo | src/engine/ddp_alrm_queue.c:148-167 | deleting clears the slot of the operation and no other, and gives -1 for another operation |
| AlarmQueue.AlarmSlots.Add | src/engine/ddp_alrm_queue.c:112-139 | refines arming a slot; the message it replaces is freed |
| AlarmQueue.AlarmSlots.Delete | src/engine/ddp_alrm_queue.c:148-167 | refines clearing a slot; its message is freed |
| AlarmQueue.AlarmSlots.Take | src/engine/ddp_alrm_queue.c:182-190 | the first lock region of "up": hands the message over once, and only from an armed slot |
| AlarmQueue.AlarmSlots.Countdown | src/engine/ddp_alrm_queue.c:205-223 | counts down and reports "up" at zero |
| AlarmSystem.StepPlaces | src/engine/ddp_alrm_queue.c:129-196 | no step of any thread duplicates or loses a message |
| AlarmSystem.RunConserves | src/engine/ddp_alrm_queue.c:251-258 | over all interleavings every issued message is in exactly one place: slot, hand, queue, delivered, freed (also by a receiver that a full queue refuses), or leaked by the alarm thread at a full queue |
| AlarmSystem.AcceptedOnce | src/engine/ddp_alrm_queue.c:183-194 | a message is enqueued at most once |
| AlarmSystem.ExactDelay | src/engine/ddp_alrm_queue.c:205-223 | an armed message is due on exactly the d-th countdown of its slot, over any interleaving that leaves the slot alone, and has been sent before the next one |
| AlarmSystem.AddKeepsDelay | src/engine/ddp_alrm_queue.c:176-223 | an added alarm is never sent early if and only if the thread is not between countdown and "up" of that slot |
| AlarmSystem.WindowOpens | src/engine/ddp_alrm_queue.c:205-223 | two steps from the start that window is open, and an alarm added then is sent early |
| AlarmSystem.RoundsAreEven | src/engine/ddp_alrm_queue.c:251-259 | the alarm thread counts slots 0, 1 and 2 down in turn: over any run from the start of a round none is ahead by more than one, and at the end of a round all are equal |
| AlarmSystem.ThreadCounts | src/engine/ddp_alrm_queue.c:251-259 | over any interleaving and from any place, k times nine lock regions of the thread count every slot down at least k times |
| AlarmSystem.AlarmIsSent | src/engine/ddp_alrm_queue.c:176-259 | an alarm of d countdowns added outside its window, in a slot that is left alone, is sent before the thread has gone through 9(d + 1) lock regions |
| AlarmSystem.DeletedIsFreed | src/engine/ddp_alrm_queue.c:148-167 | a deleted alarm is freed and never sent |
| AlarmSystem.ProcessTakes | src/engine/ts_queue.c:75-102 | the processing thread takes the message at the front of the queue |
| AlarmSystem.RoomDecides | src/engine/ts_queue.c:42-66 | what comes in and what the alarm thread holds is queued at the end exactly when there is room; else a receiver frees it and the alarm thread leaks it |
| Header.WireOrder16 | include/ddp_general.h:20-29 | swapping and storing put little-endian bytes on the wire on both kinds of machine, and back |
| Header.WireOrder32 | include/ddp_general.h:20-29 | the same for the four bytes of a delay |
| Header.PackHeader | src/engine/util.c:52-88 | the packet gets the wire form of the header, the same on both byte orders, and nothing behind it |
| Header.ExtractHeader | src/engine/util.c:99-152 | parses the wire form, or reports a short packet; says which accepted packets end before their header does |
| Header.ReadsInside | src/engine/util.c:110-149 | an accepted packet is read inside its bounds if and only if its identifier has a top nibble or it has 34 bytes |
| Header.ParseWire | src/engine/util.c:63-149 | extracting a packed header gives it back if and only if its IP version agrees with the top bits of its identifier |
| Header.WireParse | src/engine/util.c:63-149 | packing an extracted header reproduces its 22 or 34 bytes |
| Header.WireBytes | src/engine/util.c:52-88 | the 22 or 34 bytes of a header, one by one |
| Header.ParsedBytes | src/engine/util.c:99-152 | the fields of a packet from its bytes, one by one, and its version from its second byte |
| DelayedCommand.CreateDelayMsg | src/engine/util.c:339-421 | the copy of the request that is queued, which has no sender |
| DelayedCommand.DelayedMessageParses | src/engine/util.c:360-411 | it parses to the same opcode, sequence number and credentials, with 132 body bytes, mode 0 and delay 0 |
| DelayedCommand.DelayedBytes | src/engine/util.c:360-411 | its bytes: a header with identifier 0xFDFD or 0x0DFD, a MAC of 255s, code 0 and length 132, then user name, password and four zeros |
| DelayedCommand.Handle | src/engine/ddp_proto_basic.c:1701-1814 | the handler's decision, its return code and the replies it sends, with code and address, in every case, and that it touches the alarm slots exactly when it delays |
| DelayedCommand.RequestHandled | src/engine/ddp_proto_opt.c:85-184 | byte by byte, with authentication on: user name in bytes 0 to 63 of the body, password in 64 to 127, delay little-endian in 128 to 131; rejected exactly when the pair is no user, else delayed by that number, else executed; return code and replies |
| DelayedCommand.RequestUnchecked | src/engine/ddp_proto_opt.c:85-184 | the same with authentication off: nobody is rejected, and the delay is read from the first four bytes of the user name |
| DelayedCommand.RequestRefused | src/engine/ddp_proto_basic.c:1701-1736 | which lengths are refused, with which codes; and a reboot without a wait time with authentication off |
| DelayedCommand.RebootRefused | src/engine/ddp_proto_basic.c:1709-1736 | the same for a reboot with authentication on, where an unknown user comes first |
| DelayedCommand.ReplyGoes | src/engine/util.c:531-628 | where a reply goes, by the family of the sender and the version of the header, and that none goes exactly without a sender |
| DelayedCommand.Dispatched | src/engine/ddp_proto.c:337-420 | these handlers get a message exactly when its interface is known and its operation is enabled and one of the three |
| DelayedCommand.SecondPass | src/engine/ddp_proto_opt.c:112-187 | the delayed message is executed when authentication is on, and is delayed again just as before when it is off |
| DelayedCommand.OneReply | src/engine/util.c:531-628 | whoever asks for a delay gets one reply, with code 0, over both passes, whatever the second pass comes to in whatever environment |
| DelayedCommand.SecondPassSucceeds | src/engine/ddp_proto_basic.c:1701-1814 | with authentication on, the second pass returns 0 if and only if the user is still known, a reboot's wait time can be told, and the setter succeeds |
| DelayedCommand.ArmLeavesSpent | src/engine/util.c:358-411 | whatever request is delayed, the message left behind has the same operation, interface, user and header address, mode 0 and delay 0, and no sender |
| DelayedCommand.SpentNeverArms | src/engine/ddp_proto_basic.c:1701-1814 | such a message is never delayed with authentication on, whatever has become of users, interfaces and platform: it is executed without a reply, rejected, or dropped |
| DelayedCommand.DelayedTwice | src/engine/util.c:360-411 | delaying a delayed message gives the same message |
| DelayedSystem.RunsSystem | src/engine/ddp_thread.c:632-667 | the processing thread, the handlers and what comes in run the step system of queue and alarms, lock region by lock region |
| DelayedSystem.NextIsHandled | src/engine/ddp_thread.c:632-667 | the message at the front of the queue is fetched, and handled by what it says |
| DelayedSystem.OtherActs | src/engine/ddp_thread.c:300-311 | what comes in is stored and queued, and cancelling and the alarm thread are steps of the alarm system |
| DelayedSystem.ExecKeepsInv | src/engine/ddp_proto.c:320-440 | over all interleavings every message delivered has been handled by what it says or is in hand, and all that was delayed is spent |
| DelayedSystem.NeverDelayedTwice | src/engine/ddp_thread.c:632-667 | in every reachable state no message has been handled twice, none that was delayed was answered when it was handled, and none was delayed again with authentication on |
| DelayedSystem.ExecKeepsStore | src/engine/util.c:339-421 | no run changes the contents of a message that is in the system |
| DelayedSystem.DelayedEndToEnd | src/engine/ddp_proto_opt.c:112-187 | a request delayed by d is answered once, is neither sent nor handled before the d-th countdown of its slot, is on its way with it, has been sent by the next, and then is executed without an answer and not delayed again, over every run that leaves the slot alone |
| SnmpNames.NameTable.Set | src/vclient/ddp_platform.c:2551-2573 | a name goes to the first free slot, cut at the given length and at 32, with the three error codes; used slots stay a prefix |
| SnmpNames.PadBytes | src/vclient/ddp_platform.c:2551-2573 | a slot is the name and zeros up to 32 |
| SnmpNames.NameTable.Get | src/vclient/ddp_platform.c:1675-1700 | count and blocks are those of the configured names; the copies stay inside the allocated memory if and only if the last name is shorter than 32 |
| SnmpNames.NameTable.CopyString | src/vclient/ddp_platform.c:1686-1691 | a string copy ends inside its memory if and only if a zero comes before its end, and then has copied what is in front of the zero |
| SnmpReply.FillFrom | src/engine/ddp_proto_basic.c:1509-1521 | a loop moves records from the end of its list to the packet until one of the two is exhausted |
| SnmpReply.FillPacket | src/engine/ddp_proto_basic.c:1508-1560 | the four loops take the next records in order, and leave early only with a full packet |
| SnmpReply.SendPacket | src/engine/ddp_proto_basic.c:1562-1615 | state byte, records and trailer make up the body, which never overruns its buffer |
| SnmpReply.SnmpGet | src/engine/ddp_proto_basic.c:1506-1618 | the loop ends and has sent all the records, cut into packets |
| SnmpReply.ReadPacketBack | src/engine/ddp_proto_basic.c:1562-1580 | a reader of 33-byte records gets the records and the trailer of a packet back |
| SnmpReply.PacketsReadBack | src/engine/ddp_proto_basic.c:1506-1618 | a reader of the packets gets every record once, in order, and nothing else |
| SnmpReply.PacketsShape | src/engine/ddp_proto_basic.c:1569-1580 | max(1, ceil(n / 32)) packets; all but the last hold 32 records and end in 00 00 FF FF, the last in 00 00 00 00; bodies are 33c + 5 bytes, at most 1061, and begin with the state |
| SnmpReply.PacketsBytes | src/engine/ddp_proto_basic.c:1509-1560 | record j of packet k is record 32k + j: its tag at byte 1 + 33j, its 32 characters behind |
| SnmpReply.TaggedOrder | src/engine/ddp_proto_basic.c:1509-1521 | of a table the name set last is sent first |
| SnmpReply.Query | src/engine/ddp_proto_basic.c:1447-1618 | end to end: whoever reads the packets has the names of the four tables, under tags 1 to 4, each list last to first; there are packets if and only if all four getters stay inside their memory |
| TftpWait.WaitReply | src/engine/tftp_cli.c:530-567 | the receive loop is the wait on the script of polls |
| TftpWait.PollsBounded | src/engine/tftp_cli.c:304-349 | a wait makes at most limit + 3 polls, whatever the network does |
| TftpWait.DefaultPolls | include/tftp_cli.h:26-26 | with the default timeout at most 53 |
| TftpWait.TimesOutExactly | src/engine/tftp_cli.c:554-566 | without a shutdown, it fails if and only if limit + 3 polls in a row bring nothing |
| TftpWait.ArrivesInTime | src/engine/tftp_cli.c:530-567 | a datagram within limit + 1 polls arrives and leaves the run flag up |
| TftpWait.ArrivesExactly | src/engine/tftp_cli.c:530-567 | for each of the limit + 3 polls, what becomes of a datagram that comes with it and of the run flag |
| TftpWait.FlagIsDown | src/engine/tftp_cli.c:530-567 | a wait with the run flag down ends with its first poll |
| TftpPackets.NetworkOrder | src/engine/tftp_cli.c:516-522 | the machine's own order and its htons give big-endian bytes on both kinds of machine |
| TftpPackets.PacketBytes | src/engine/tftp_cli.c:476-527 | the packets of RFC 1350, section 5, byte by byte |
| TftpPackets.ReadBytes | src/engine/tftp_cli.c:533-548 | opcode and block number from the first four bytes of a datagram of any length |
| TftpPackets.SegmentBytes | src/engine/tftp_cli.c:499-522 | block b is bytes 512(b - 1) to 512b of the file, or up to its end |
| TftpPut.SendNext | src/engine/tftp_cli.c:476-527 | the request, or the data packet of the block, for which the bytes read at the computed file position are exactly its own |
| TftpPut.TakeReply | src/engine/tftp_cli.c:533-548 | what an acknowledgement makes of the block counter, modulo 2 to the 16 |
| TftpPut.Send | src/engine/tftp_cli.c:472-572 | the loop sends and returns what the transfer function says, for every script of replies |
| TftpPut.PutSafe | src/engine/tftp_cli.c:496-522 | whatever the server answers, every packet is the request or carries exactly the block, at least 1, that it is numbered with |
| TftpPut.PutAnswers | src/engine/tftp_cli.c:533-572 | whatever the server answers, an acknowledgement of a is followed by block a + 1 and an unknown reply by the block that the byte order makes of the last number; an error and nothing else ends the transfer with -6, and silence ends it with -7 |
| TftpPut.FirstReplyDecides | src/engine/tftp_cli.c:572-572 | a first reply, if no error, ends the transfer in success with nothing sent if and only if it is not the acknowledgement of block 0 |
| TftpPut.LateReplyFails | src/engine/tftp_cli.c:533-566 | a reply that comes with the last poll ends the transfer with -7, or -6 if it is an error |
| TftpPut.SilenceFails | src/engine/tftp_cli.c:554-566 | without any reply it ends with -7 after one request |
| TftpPut.UnknownReplySwaps | src/engine/tftp_cli.c:518-518 | in every transfer, the packet after a data packet answered by an unknown opcode carries the block that the byte-swapped number names, and is the same packet if and only if the machine is big-endian or the two bytes agree |
| TftpPut.SwapHappens | src/engine/tftp_cli.c:518-518 | a transfer that does so: request, block 1, block 256 |
| TftpPut.PutExactly | src/engine/tftp_cli.c:472-586 | for every script, the request and the blocks of the file are sent once, in order, and success returned, if and only if the file is shorter than 65535 * 512 bytes and what comes in time acknowledges the request and each block but the last in order, and then is no error and asks for no block 1 |
| TftpPut.SuccessEnds | src/engine/tftp_cli.c:572-586 | for every script, a success in which data was sent ends with a block of fewer than 512 bytes |
| TftpPut.SkippingSucceeds | src/engine/tftp_cli.c:533-572 | for every file of three blocks or more, replies after which request, block 1 and the last block are sent and success is returned |
| TftpPut.PutCompletes | src/engine/tftp_cli.c:472-586 | with each packet acknowledged once and in time, exactly the request and the blocks in order are sent, and success returned, if and only if the file is shorter than 65535 * 512 bytes |
| TftpPut.PayloadsAreFile | src/engine/tftp_cli.c:499-522 | size / 512 + 1 data packets carry the file, the empty last one at exact multiples included |
| TftpGet.StoreBlock | src/engine/tftp_cli.c:306-328 | what a datagram adds to the file and to the block counter |
| TftpGet.Receive | src/engine/tftp_cli.c:260-354 | the loop sends, writes and returns what the transfer function says, for every script of datagrams |
| TftpGet.StoresCarried | src/engine/tftp_cli.c:304-354 | whatever arrives, the file is what the data packets taken carry, repeats included; one is taken for each packet sent, and success takes a short one |
| TftpGet.CarriedBytes | src/engine/tftp_cli.c:306-328 | a datagram carries bytes 4 to 516, or up to its end, when it begins with 0 and 3, and else nothing |
| TftpGet.GetAnswers | src/engine/tftp_cli.c:262-354 | whatever arrives, the request is followed by acknowledgements, one for each full datagram: of the next block when it is that, and of the last one again when not |
| TftpGet.ShortDatagramSucceeds | src/engine/tftp_cli.c:330-354 | a first datagram ends the transfer in success, with what it carries, if and only if it is short, even an error packet |
| TftpGet.LateDatagramFails | src/engine/tftp_cli.c:304-350 | a datagram that comes with the last poll is stored, and the transfer fails with -10 |
| TftpGet.SilenceFails | src/engine/tftp_cli.c:336-349 | without any datagram it fails with -10 after one request |
| TftpGet.GetCompletes | src/engine/tftp_cli.c:260-354 | blocks that arrive once, in order and in time give the file, of any length, and success; the packets sent never include the acknowledgement of the last block that RFC 1350, section 6, asks for, and are the others of the standard's if and only if the file is shorter than 65536 * 512 bytes |
| UpgradeFlag.Upgrade.SetFlag | src/engine/ddp_proto_upgrade.c:46-70 | the flag changes, with success returned, only from 0 to 1 and from 1 to 0 |
| UpgradeFlag.SetCases | src/engine/ddp_proto_upgrade.c:46-70 | the four cases of the setter, in numbers |
| UpgradeFlag.Upgrade.TftpCli | src/engine/tftp_cli.c:732-806 | -2 unless action is 1 or 2, there is a mode and a remote name; -3 without a thread; a refused transfer leaves the flag alone |
| UpgradeFlag.Upgrade.StartTransfer | src/engine/ddp_proto_upgrade.c:262-285 | the block that the handlers share, run without interference: flag, shared info and return code in each of its four outcomes |
| UpgradeFlag.BlockComesTo | src/engine/ddp_proto_upgrade.c:262-285 | its four outcomes, with the conditions of the launch written out |
| UpgradeFlag.AloneIsBlock | src/engine/ddp_proto_upgrade.c:262-285 | the steps of an undisturbed handler of the step system have exactly these outcomes |
| UpgradeFlag.StepKeepsInv | src/engine/ddp_proto_upgrade.c:262-285 | every step of every handler and worker keeps at most one owner of the flag and the shared info |
| UpgradeFlag.AtMostOneTransfer | src/engine/ddp_proto_upgrade.c:46-70 | over all interleavings at most one worker is live, and then the flag is up, the shared info is about its transfer, and no handler is at it |
| UpgradeFlag.RaceHasOneWinner | src/engine/ddp_proto_upgrade.c:263-284 | of two handlers that both saw the flag down, the first to set it owns the transfer and the other returns -7, leaving the shared info alone |
| UpgradeFlag.LiveInfoUntouched | src/engine/ddp_proto_upgrade.c:265-266 | from a worker's start to its end nobody but this worker writes the shared info, and action, mode and both file names stay; the server address too, unless it is a worker of the built-in client, which overwrites it with the source of each datagram (src/engine/tftp_cli.c:305 and 531) |
| UpgradeFlag.StuckStays | src/engine/tftp_cli.c:745-762 | once the flag is up without an owner, no interleaving starts a transfer again |
| UpgradeFlag.StuckExactly | src/engine/tftp_cli.c:745-762 | that has happened if and only if some request was refused by the launch function's own checks; otherwise the flag is up exactly while someone owns it |
| UpgradeFlag.StuckByRefusal | src/engine/tftp_cli.c:745-762 | the same with the conditions written out: another action than 1 or 2, no mode, or an empty remote name |
| UpgradeFlag.AloneStarts | src/engine/ddp_proto_upgrade.c:262-285 | when an undisturbed request starts a worker, when it reports success, and when it leaves the flag stuck, each exactly |
| UpgradeFlag.AloneComesTo | src/engine/ddp_proto_upgrade.c:262-285 | flag, shared info, workers and return code of an undisturbed request in each case, with the conditions of the launch written out |
| UpgradeFlag.AsksAndEnds | src/engine/tftp_cli.c:590-596 | a request starts an idle handler, and a worker that ends takes the flag down |
| Base64.TableIsAlphabet | src/engine/base64.c:12-17 | the table is the standard's alphabet |
| Base64.LettersAreStandard | src/engine/base64.c:12-17 | the 64 characters of the standard, for encoder and decoder |
| Base64.TestVectors | src/engine/base64.c:111-145 | the test vectors of RFC 4648, section 10 |
| Base64.OrAdds | src/engine/base64.c:122-125 | bits that do not overlap add up |
| Base64.OrBits | src/engine/base64.c:122-125 | or is or of the bits, for negative numbers too |
| Base64.DigitsJoin | src/engine/base64.c:122-125 | the shifts, masks and ors give the four digits of the 24-bit group |
| Base64.Encode | src/engine/base64.c:111-145 | an output buffer of any size gets the first characters of the encoding of RFC 4648, counted, and is otherwise unchanged, for every string of octets up to 127; a string with another is exactly one for which the table is left |
| Base64.IndicesInside | src/engine/base64.c:122-129 | the four indices of a group stay inside the table if and only if no character of it is negative |
| Base64.DecodeWord | src/engine/base64.c:187-210 | the classification loop and the joining of digits |
| Base64.OtherCharacters | src/engine/base64.c:187-205 | a character outside the alphabet stands for itself, padding for 0 |
| Base64.JoinedBits | src/engine/base64.c:208-210 | each bit of the three octets, from the bits of four digits of any value |
| Base64.ShortWord | src/engine/base64.c:182-210 | a last word of fewer than four characters counts as filled up with zero digits |
| Base64.WordByWord | src/engine/base64.c:182-217 | any string is decoded word by word, dropping what is not positive |
| Base64.Decode | src/engine/base64.c:176-223 | likewise the first characters of the decoding, for any string of characters, -128 to 127 |
| Base64.DecodesStandard | src/engine/base64.c:182-222 | decoding the encoding of any octets gives those of 1 to 127, in order; padding leaves nothing behind |
| Base64.RoundTrip | src/engine/base64.c:114-223 | decoding an encoding gives the string back if and only if all its octets are 1 to 127 |
| Base64.BuffersRoundTrip | src/engine/base64.c:134-139 | with room for the encoding, the string comes back if and only if the second buffer has room for it |
| Base64.Stored | src/engine/base64.c:212-217 | what a buffer of any size takes is a prefix, and is everything exactly when there is room |
| Base64.Lengths | src/engine/base64.c:39-81 | both calculators give the true lengths |
| Base64.DecodedLengthExact | src/engine/base64.c:72-81 | the decoder stores as much as its calculator says if and only if nothing is dropped |

## Left out

- NeighbourList.PortList.Drop: does not model that freed memory could be reused; a freed node is only no longer in the list.
- NeighbourDb.Database.AgeNode: a purge through a dangling pointer reads the zeros that were left there, as assumed above; what an allocator may write into freed memory is not modelled.
- NeighbourDb.Database.Insert: the recovery branch for an invalid count (src/engine/ddp_proto_switch.c:786-799) cannot be reached in a valid database and is not modelled, nor is the deletion of a whole list that it calls.
- DelayedCommand.Handle: of a reply only its return code and IP address are modelled, and that it is handed to the socket; users, operation table and the platform's answers are given by the environment; a failed alarm cannot happen for the three opcodes with a positive delay.
- DelayedSystem.DelayedEndToEnd: messages come in with the header and body that they announce; one that ends before them is excluded (for the header, Header.ReadsInside says which).
- SnmpNames.NameTable.Get: what lies behind the allocated memory is not modelled; the result is none when the copies would run on into it.
- TftpWait.TimesOutExactly: a shutdown, which ends a wait with the next poll, is left out of all waits.
- AlarmSystem.RunConserves: follows the message itself; the payload of a message that a full queue refuses to a receiver is lost.
- Base64.DecodeWord: the small word buffers inside a loop are sequences that are reassigned, not arrays; so are the packet buffers of the TFTP client.
- TftpPut.Send: the status text and the local file's own errors (open, seek, read) are left out; the file does not change during a transfer.
- TftpGet.Receive: the status text, the byte count kept beside the file and write errors are left out.
- UpgradeFlag.Upgrade.StartTransfer: the transfers run by the external program only appear as workers that end by taking the flag down.
- Base64.Encode: what lies in front of the table is not modelled, so the result is none when an index leads there; a character is signed, as on the usual platforms.
- Base64.Lengths: of a lone "=" the calculator reads the byte in front of the string, which is excluded.
- Handing a received report to the database (src/engine/ddp_proto_switch.c:503-580): copies fields to an entry.
- The handlers that copy fields at fixed offsets (discovery, basic information, date, addresses, VLAN and ASV): long, but easy.
- Sockets, timers and signals, thread creation, the shell, /etc and shadow access: only the steps that they trigger appear.
- Retransmission and the final acknowledgement that RFC 1350 asks for: the client has neither.
- The shutdown bits of the main loop, debug printing, and memory lost on error paths other than a full queue.
