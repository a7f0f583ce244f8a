# A reliable byte stream over UDP, verified

The repository carries a byte stream over a network that loses, repeats, reorders and
damages datagrams. This project models its four parts and proves what they are for:

* **The sender's buffer** (cbuffer.c): a ring of 64000 bytes, a linked list of packet nodes
  laid over the first 20000 bytes held, an acknowledgement state per node and a table of
  twenty send times. `WindowBuffer` is the code, a class over heap nodes and arrays;
  `Window` says what each call does to the stream of bytes ever added.
* **The receiver's buffer** (sbuffer.c): a circular list of filled nodes and holes over a
  second ring. `ReassemblyBuffer` is the code; `Reassembly` says what each call does to a
  map from packet numbers to packets.
* **The two daemons and the network between them** (tcpdc.c, tcpds.c): `Protocol` joins the
  two abstract buffers in a step system; `Daemons` shows that the daemons' methods on the
  heap are steps of that system.
* **The checksum** (crc32.c) and **the timer queue** (timerprocess.c), which stand alone. The
  checksum is the CRC-32 of section 8.1.1.6.2 of ITU-T V.42, in the table form of section 8
  of RFC 1952. Times are real numbers; the one conversion to a C `int` is written out.

Each class method is proved against a specification function, and the theorems are about
those functions over every run. The main ones are

* `Protocol.ServedIsAPrefix`: the bytes the receiving application gets are a prefix of the
  bytes the sending application handed over, in every run of the system;
* `Protocol.ReleasedIsReceived`: the sender never drops a packet the receiver lacks;
* `Completion.CompletesExactly`: after any run of full chunks, everything handed over can
  still be served and released if and only if no packet is stuck - outstanding, no longer
  acknowledged by the receiver, its acknowledgement lost. `Stuck.StuckForever`: a stuck
  packet stays so. `Completion.NoLossCompletes`: nothing is stuck while no acknowledgement
  is lost, whatever happens to the datagrams;
* `FreedRoomRuns.ReadsEndExactly`, `FreedRoomRuns.AddsEndExactly`,
  `FreedRoomRuns.ServedExactly`: with sbuffer.c:56 and 115 as written, which calls never
  return and which packets already read are acknowledged again, in every run;
* `ReassemblyRuns.ServedIsAPrefix`: the first again for the receiver alone, against whatever
  is thrown at it;
* `WindowRuns.SentAgainAsBefore`, `WindowRuns.SlotsMatchSent`, `WindowRuns.NeverOutOfSlots`:
  what the sender keeps over every run of calls;
* `Crc32.BurstsAreDetected`: no error burst of up to 32 bits goes unseen;
* `Daemons.PlanPasses`: what one pass of the client's loop does to every packet;
* `TimerExpiry.DecrementExactly` and `TimerExpiry.CancelsDriftLessThanTheirNumber`: when
  timers fire on time, and how far they can drift, whatever the list.

`dafny verify dfyconfig.toml` checks everything.

## Files

`Parameters`, `Wrappers`, `Lists`, `Rings` - sizes, Option, sequences, bytes around a ring.
`Crc32Register`, `Crc32Table`, `Crc32` - the checksum. `Reassembly` (specification),
`ReassemblyCells` (the list as values), `ReassemblyBuffer` (the code), `ReassemblyRuns` (whole
runs) - the receiver. `Window` (specification), `WindowSlots`, `WindowChunks`, `WindowRuns`,
`WindowAcks`, `WindowPasses` (its properties), `WindowNodes` (the list as values), `WindowBuffer` (the code) -
the sender. `TimerList`, `TimerExpiry` (the list as values), `TimerQueue` (the code) - the
timers. `Protocol`, `Stuck`, `Completion`, `Delivery`, `Daemons` - both ends joined.
`AsWritten`, `FreedRoom`, `FreedRoomPasses`, `FreedRoomCalls`, `FreedRoomRuns` - lines whose
behaviour differs from what is modelled.

## Lines modelled repaired

Some lines of the two buffers break the properties above. The classes model the line as
repaired here. The lemmas in the last column are about the line as it is written: an input
on which it goes wrong, and exactly when it does not.

| line | as written | as modelled | about the line as written |
|---|---|---|---|
| cbuffer.c:253 | `dend` is left at 64000 when a chunk ends the ring | reduced modulo the ring | `AsWritten.SpaceAfterExactly`, `AsWritten.EmptyReadsAsFull` |
| cbuffer.c:262 | an empty chunk clears `isEmpty` | chunks have at least one byte | `AsWritten.EmptyChunkExactly`, `AsWritten.EmptyChunkFills` |
| cbuffer.c:399 | the scan for a free slot has no bound | bounded by the table | `WindowChunks.SlotsSufficeExactly`, `WindowRuns.OneByteChunks` |
| cbuffer.c:491 | the scan for a number has no bound | bounded by the table | `WindowAcks.FoundExactly`, `WindowAcks.ExpiryFindsExactly`, `Delivery.OldAcksOverrun`, `WindowAcks.LateExpiryLoses` |
| sbuffer.c:56 | the first hole ends at packet 64 | open-ended, as at sbuffer.c:118 | `FreedRoomRuns.RefusedExactly`, `FreedRoomRuns.Packets65And1`, `FreedRoomRuns.LastFirstHangs` |
| sbuffer.c:115 | a hole at the head may not absorb | it may | `FreedRoomRuns.ReadsEndExactly`, `FreedRoomRuns.AddsEndExactly`, `FreedRoomRuns.ServedExactly`, `FreedRoomRuns.AgainHangs`, `FreedRoomRuns.Packets65And1`, `AsWritten.AbsorbsExactly` |
| sbuffer.c:164, 181 | a packet that takes the last room closes the open hole | the open hole stays, with size 0 | `AsWritten.FrontPiecesExactly`, `AsWritten.ExactFitLosesTheHole` |
| sbuffer.c:168 | the rest of the hole may start beyond the ring | reduced modulo the ring | `AsWritten.FrontPiecesExactly`, `AsWritten.OffsetLeavesTheRing` |
| sbuffer.c:328 | a served node gives back only what was left of it | its whole room | `AsWritten.GivesBackExactly`, `AsWritten.PartReadLosesRoom` |
| sbuffer.c:341 | a partial read tests the node's size for wrapping | tests the requested size | `AsWritten.PartCopiesExactly`, `AsWritten.ShortReadOverruns` |
| sbuffer.c:353 | a partial read moves `data` beyond the ring | reduces it | `AsWritten.WholeCopiesExactly`, `AsWritten.ReadsExactly`, `AsWritten.DataLeavesTheRing`, `AsWritten.GrowthMakesItWrap` |

The `FreedRoom` modules treat sbuffer.c:56 and 115 alone: each of the two is as written or
repaired there, in any combination, and the other repairs are in place.

The repair of sbuffer.c:115 decides which repetitions are acknowledged. With it a packet
already read is refused whenever it comes again: `ReassemblyRuns.RefusedExactly`, `Stuck` and
`Completion` speak of that receiver. With the line as written the room of a packet read can
stay in the list for a while; until it is absorbed the packet is stored there once more and
acknowledged, or recognised (`FreedRoomRuns.ServedExactly`), and once it is absorbed the
packet is refused for good (`FreedRoomRuns.GoneForever`). The packet that
`Completion.LostAckSticks` shows to be stuck is refused either way: packet 2 has arrived and
the room of packet 1 is gone (`FreedRoomRuns.Packets65And1`).

The timer queue, the checksum and the two daemons are modelled as written; where
timerprocess.c misses what its comments ask for, the lemma gives the exact condition.

## Model

| member | source | states |
|---|---|---|
| `Crc32.Crc32` | crc32.c:91-103 | The loop over the table computes the reflected CRC fed one bit at a time, for every buffer and every starting register. |
| `Crc32.ChecksumOfNothing` | crc32.c:91-103 | The checksum of an empty buffer is the register it starts from. |
| `Crc32.ChecksumInParts` | crc32.c:91-103 | Going on from the checksum of one buffer with another gives the checksum of both together, for every start. |
| `Crc32.CheckValue` | crc32.c:91-103 | The nine digits 1 to 9 from register 0 give 0xCBF43926, the check value of the CRC-32. |
| `Crc32Table.EntryIsEightShifts` | crc32.c:45-89 | Each of the 256 table entries is what eight shift/xor steps with polynomial 0xEDB88320 make of its index, as crc32.c:28-31 promises. |
| `Crc32.TableStepIsEightClocks` | crc32.c:99-100 | One turn of the loop is eight clock steps of the register on the bits of the byte, lowest first. |
| `Crc32Register.ShiftsLinear` | crc32.c:28-37 | Shifting the sum of two registers is the sum of shifting each: why a table indexed by one byte is enough. |
| `Crc32Register.FeedIsShifts` | crc32.c:91-103 | Feeding up to 32 bits is adding them to the register as a word and shifting. |
| `Crc32Register.ShortRunsDiffer` | crc32.c:91-103 | From one register, different runs of up to 32 bits end in different registers. |
| `Crc32.BurstsAreDetected` | crc32.c:91-103 | Buffers of one length that differ only within 32 consecutive bits have different checksums, whatever the start. |
| `ReassemblyBuffer.Buffer.constructor` | sbuffer.c:48-61 | A new buffer is well formed and stands for the empty receiver expecting packet 1. |
| `ReassemblyBuffer.Buffer.MergeList` | sbuffer.c:103-124 | The pass ends, keeps the circular list well formed, its tiling and the set of packets it holds, and leaves no two neighbours of one kind. |
| `ReassemblyBuffer.Buffer.MergeRun` | sbuffer.c:106-113 | The inner loop joins everything that continues the current node. |
| `ReassemblyBuffer.Buffer.MergeHoles` | sbuffer.c:114-121 | The second loop gives the room of a served node back to the open hole and afterwards owes nothing. |
| `ReassemblyCells.MergeNeighbours` | sbuffer.c:106-113 | Joining two neighbours keeps the tiling, the held numbers and what has been joined before; neighbours by number never lie across the head. |
| `ReassemblyCells.MergeTrailing` | sbuffer.c:114-121 | The open hole with the served node's room merged in is again a properly sized open hole. |
| `ReassemblyBuffer.Buffer.FillFront` | sbuffer.c:162-186 | A packet at the start of a hole replaces the hole by the packet and what is left of it. |
| `ReassemblyBuffer.Buffer.FillMiddle` | sbuffer.c:188-232 | A packet inside a hole replaces it by a hole, the packet and a hole. |
| `ReassemblyBuffer.Buffer.FillBack` | sbuffer.c:235-260 | A packet at the end of a hole replaces it by a hole and the packet. |
| `ReassemblyCells.PiecesReplace` | sbuffer.c:160-260 | In each of the four cases the pieces cover the numbers of the hole, are filled at that packet alone, have the sizes their ranges ask for and lie where their numbers belong in the ring. |
| `ReassemblyBuffer.Buffer.FillHole` | sbuffer.c:160-260 | The packet goes into the hole if and only if the hole covers its number; then the list holds exactly one more number, otherwise nothing changes. |
| `ReassemblyBuffer.Buffer.Accept` | sbuffer.c:262-283 | The packet's bytes are in the ring, every other stored packet is as before, and the list is merged. |
| `ReassemblyCells.WriteKeeps` | sbuffer.c:263-271 | Packets with different numbers in the window lie apart in the ring, so writing one changes no byte of another. |
| `ReassemblyCells.FirstsAreRecognised` | sbuffer.c:150-154 | A number is the first of a filled node if and only if it is held and its predecessor is not: exactly these duplicates are acknowledged again. |
| `ReassemblyCells.NowhereToPut` | sbuffer.c:148-295 | A scan that ends without success met a number that is neither recognised nor acceptable. |
| `ReassemblyBuffer.Buffer.AddData` | sbuffer.c:135-296 | Refines insertion into the map: a packet in [dstart, dstart+63] not yet held is stored, a recognised duplicate is acknowledged, anything else leaves the state alone and returns 0. |
| `ReassemblyCells.HeadIsBlock` | sbuffer.c:299-312 | The head node is filled if and only if the next packet is held, and then ends where the held numbers first break off. |
| `ReassemblyBuffer.Buffer.GetSize` | sbuffer.c:298-304 | The number of bytes that can be read now. |
| `ReassemblyBuffer.Buffer.CopyFront` | sbuffer.c:316-325 | What is copied out of the ring, around its end if need be, is what comes next in the joined packets. |
| `ReassemblyCells.SliceIsJoined` | sbuffer.c:316-325 | The ring from a node's offset on, around its end, reads as the stored packets joined. |
| `ReassemblyBuffer.Buffer.ServeBlock` | sbuffer.c:312-336 | Serving the whole front node returns the whole block, drops its packets and returns its room to the open hole. |
| `ReassemblyCells.RetireOk` | sbuffer.c:327-332 | After the head moves on, the rest tiles from the new dstart and owes just the served node's room. |
| `ReassemblyBuffer.Buffer.ServePart` | sbuffer.c:339-357 | A partial read returns that many of the next bytes and moves the reader on by as many. |
| `ReassemblyBuffer.Buffer.RequestData` | sbuffer.c:308-362 | Refines reading: the next bytes of the stream, all of the front block or as many as asked for, or none when the next packet is missing. |
| `ReassemblyRuns.ArrivalKeeps` | sbuffer.c:135-296 | Any arrival keeps that all bytes served are the first accepted packets joined, up to the reader's position. |
| `ReassemblyRuns.ReadKeeps` | sbuffer.c:308-362 | Any read keeps it too. |
| `ReassemblyRuns.ServedIsAPrefix` | sbuffer.c:135-362 | After any arrivals and reads in any order the bytes served are a prefix of the first accepted packets 1, 2, 3, ... joined, exactly as long as the reader's position. |
| `ReassemblyRuns.AcceptedOnce` | sbuffer.c:148-289 | What was first accepted under a number is never replaced. |
| `ReassemblyRuns.NothingOnlyWhenMissing` | sbuffer.c:311-361 | A read of a positive size returns nothing if and only if the next packet is missing. |
| `ReassemblyRuns.ReadServesExactly` | sbuffer.c:308-362 | A read of n bytes serves n bytes, or all there are, of the packets held without a gap from dstart on, each byte as it arrived; the reader moves on by as many, and just the packets behind it are dropped. |
| `ReassemblyRuns.AskedServes` | sbuffer.c:308-362 | In every run that is what a read adds to the bytes served. |
| `ReassemblyRuns.RefusedExactly` | sbuffer.c:148-295 | A packet is refused if and only if it is beyond the window, already served, or stored behind its predecessor; with sbuffer.c:115 repaired. As written one already served is not while its room is in the list. |
| `ReassemblyRuns.NeverAcknowledgedAgain` | sbuffer.c:148-295 | A packet refused for one of the last two reasons is refused ever after, whatever arrives and is read: if its acknowledgement was lost, no repetition is acknowledged; with sbuffer.c:115 repaired. |
| `ReassemblyRuns.SecondIsRefused` | sbuffer.c:150-154 | Packets 1 and 2 arrive, and packet 2 again: it is refused. |
| `WindowBuffer.Buffer.constructor` | cbuffer.c:181-194 | A new buffer is well formed and stands for the empty sender. |
| `WindowBuffer.Buffer.SpaceLeft` | cbuffer.c:212-232 | The free space is 64000 less the bytes added and not released, in every state, also when the two indices coincide. |
| `WindowNodes.IndexDistance` | cbuffer.c:212-232 | The distance between the indices determines the bytes held except that equal indices mean none or all. |
| `WindowBuffer.Buffer.IsFull` | cbuffer.c:235-242 | Full if and only if 64000 bytes are held. |
| `WindowBuffer.Buffer.Write` | cbuffer.c:250-260 | The chunk is in the ring from `dend` on, around its end, and every other byte is as before. |
| `WindowBuffer.Buffer.AddData` | cbuffer.c:245-270 | Refines appending: the chunk is taken whole if it fits and not at all otherwise, then the window is laid anew. |
| `WindowNodes.Appends` | cbuffer.c:248-263 | Appending keeps the nodes describing their packets, every held byte in its place in the ring and the indices right, `isEmpty` included. |
| `WindowBuffer.Buffer.ReleaseFront` | cbuffer.c:276-303 | Exactly the run of acknowledged nodes at the front is dropped. |
| `WindowBuffer.Buffer.Distance` | cbuffer.c:307-324 | The window reaches min(20000, bytes held) from its start. |
| `WindowBuffer.Buffer.ExtendWindow` | cbuffer.c:325-353 | Nodes of up to 1000 bytes are added behind the last one until they cover the window. |
| `WindowBuffer.Buffer.CheckWindow` | cbuffer.c:274-364 | The nodes on the heap are those of the abstract window pass. |
| `Window.CheckWindowSettles` | cbuffer.c:274-364 | Afterwards the packets tile exactly min(20000, bytes held) from the first byte not released, each of 1 to 1000 bytes with consecutive numbers, and the front one is not acknowledged; bytes and numbering of older packets stay. |
| `Window.NewPacketsAreFull` | cbuffer.c:325-353 | Of the packets cut in one call every one but the last takes 1000 bytes. |
| `Window.AddDataSettles` | cbuffer.c:245-270 | A chunk is taken if and only if it fits; a refused chunk changes nothing; the state stays settled. |
| `Window.RecvAckSettles` | cbuffer.c:485-518 | An acknowledgement keeps the state settled and the stream as it is. |
| `Window.TimerExpireSettles` | cbuffer.c:520-541 | So does an expiry, also when it takes a packet back from acknowledged to be sent. |
| `Window.SendFromSettles` | cbuffer.c:368-420 | A pass marks exactly the packets that were to be sent as sent and changes no other. |
| `Window.SentIsGenuine` | cbuffer.c:378-393 | Whatever a pass sends is a packet of the stream with its own number and checksum. |
| `Window.SentExactly` | cbuffer.c:368-420 | It sends the packets that are to be sent and no others, each once and in ascending order. |
| `Window.PacketsStay` | cbuffer.c:439-461 | A packet once cut keeps its bytes while the stream grows. |
| `WindowBuffer.Buffer.RequestSize` | cbuffer.c:423-436 | The size of the packet with that number, which is marked as sent, or 0 and no change. |
| `WindowBuffer.Buffer.RequestData` | cbuffer.c:439-461 | The bytes of the packet as they were added, wherever they lie in the ring. |
| `WindowNodes.SliceIsPacket` | cbuffer.c:446-454 | What the ring holds at a node's offset, around its end, is that packet of the stream. |
| `WindowBuffer.Buffer.SendWindow` | cbuffer.c:368-420 | Refines the abstract pass: state and packets sent agree with it, and the method succeeds if and only if the pass never lacks a slot. |
| `WindowBuffer.Buffer.RecvAck` | cbuffer.c:485-518 | Refines the abstract acknowledgement; the result tells whether the packet was outstanding. |
| `WindowBuffer.Buffer.TimerExpire` | cbuffer.c:520-541 | Refines the abstract expiry: the packet is to be sent again and every slot with its number is free. |
| `WindowSlots.ScanFindsLive` | cbuffer.c:490-500 | Among slots with one number the one in use comes first, so the scan by number finds it whatever stale slots there are. |
| `WindowSlots.SendFromCorresponds` | cbuffer.c:398-417 | A pass keeps slots in use and sent packets in one-to-one correspondence. |
| `WindowSlots.AckCorresponds` | cbuffer.c:490-511 | Freeing the first slot with the number and acknowledging the packet keeps it. |
| `WindowSlots.TimerExpireCorresponds` | cbuffer.c:520-539 | An expiry keeps it. |
| `WindowSlots.ExpireIdle` | cbuffer.c:520-539 | An expiry of a number that is not outstanding changes nothing. |
| `WindowSlots.ExpireTakesOne` | cbuffer.c:520-539 | An expiry puts its own packet back, frees its own slots, and changes no other packet's mark and no other slot. |
| `WindowSlots.CheckWindowCorresponds` | cbuffer.c:274-353 | Releasing and cutting packets keeps it. |
| `WindowChunks.SlotsSufficeExactly` | cbuffer.c:398-402 | The scan for a free slot stays inside the table throughout a pass if and only if there are as many free slots as packets to send. |
| `WindowChunks.AtMostTwenty` | cbuffer.c:307-353 | With full chunks but for the last there are never more than twenty packets in the window. |
| `WindowChunks.FreeSlotExists` | cbuffer.c:398-402 | With at most twenty packets a free slot exists whenever one is to be sent. |
| `WindowChunks.FullChunksAlwaysSend` | cbuffer.c:368-420 | With full chunks a pass never lacks a slot and leaves every packet sent or acknowledged. |
| `WindowChunks.AddDataFull` | cbuffer.c:245-270 | Adding full chunks, and a short one last, keeps every packet but the last full. |
| `WindowRuns.DoKeeps` | cbuffer.c:245-541 | Every call keeps the state settled, the slots matched, all that was ever sent genuine, and only grows the stream. |
| `WindowRuns.SlotsMatchSent` | cbuffer.c:398-539 | After any calls every slot in use is found by its number and times a sent packet, and every sent packet's scan finds a slot in use. |
| `WindowRuns.SentAgainAsBefore` | cbuffer.c:368-541 | Any two packets sent under one number in a run are equal. |
| `WindowRuns.PacketIsFixed` | cbuffer.c:245-541 | From when it is cut, a packet has the same bytes after any further calls. |
| `WindowRuns.NeverOutOfSlots` | cbuffer.c:368-420 | A run with full chunks, and a short one last, never runs out of slots and never has more than twenty packets outstanding. |
| `WindowRuns.OneByteChunks` | cbuffer.c:398-402 | k chunks of one byte and then a pass: it runs past the table if and only if k is more than twenty. |
| `WindowAcks.RunRecords` | cbuffer.c:398-416 | After any calls each slot holds the number of the last packet sent that took it, or none. |
| `WindowAcks.FoundExactly` | cbuffer.c:490-492 | After any calls the scan for a packet's number stays inside the table if and only if some sending of it took a slot that no packet sent since has taken. |
| `WindowAcks.SentIsFound` | cbuffer.c:490-500 | After any calls, none of them an expiry of a packet already acknowledged, it does for every packet sent and not acknowledged, also while it waits to be sent again. |
| `WindowAcks.ExpiryFindsExactly` | cbuffer.c:520-541 | An expiry leaves all of these in the table if and only if its own packet, when sent and not released, is in it. |
| `WindowAcks.LateExpiryLoses` | cbuffer.c:520-541 | Packets 1 and 2 are sent, 2 is acknowledged, packet 3 takes its slot, and an expiry of 2 comes: it is to be sent again and in no slot. |
| `TimerQueue.Queue.InsertValue` | timerprocess.c:46-131 | Every branch keeps the list doubly linked with head and tail at its ends, and the times are those of the list as values. |
| `TimerList.InsertKeepsDeadlines` | timerprocess.c:62-128 | Wherever the new timer goes, no other timer's deadline changes. |
| `TimerList.InsertedDeadline` | timerprocess.c:62-128 | The place and the deadline the new timer gets, for any list, told from the deadlines of the others: in front and due at once when it is due with the head, and case by case behind it. |
| `TimerList.WellPlacedExactly` | timerprocess.c:62-128 | That is the deadline asked for if and only if a condition on the list and the time holds, spelled out case by case. |
| `TimerList.MisplacedTimer` | timerprocess.c:93-98 | Three timers 10 s apart: a timer for 15 s is put at 25 s. |
| `TimerList.InsertKeepsNonNegative` | timerprocess.c:62-128 | Inserting into a list without negative times leaves none negative if and only if the time asked for is not negative in front, and the timer it is put before last has enough time to give. |
| `TimerList.NegativeTime` | timerprocess.c:93-98 | Timers for 10, 20, 30, 30.5 and 15 s, set in that order: one of them then waits -4.5 s after another. |
| `TimerQueue.Queue.RemoveValue` | timerprocess.c:134-183 | The first timer with the number is unlinked, or the list stays as it is and the result says why. |
| `TimerExpiry.RemoveUnknown` | timerprocess.c:139-150 | Cancelling a number that no timer carries leaves the list as it is; the result is 0 for an empty list and -1 otherwise. |
| `TimerExpiry.RemoveFirst` | timerprocess.c:146-183 | Otherwise the first timer with the number is gone, all others stay in order, and the result is 0. |
| `TimerExpiry.RemoveMovesDeadlines` | timerprocess.c:174-182 | Earlier deadlines stay; every later one moves earlier by exactly the fractional part of the removed time. |
| `TimerExpiry.CancelsDriftLessThanTheirNumber` | timerprocess.c:134-183 | After k cancels no timer is k or more seconds early or late, whatever the list. |
| `TimerExpiry.CancelsMakeNoneLate` | timerprocess.c:134-183 | From a list without negative times, cancels make no timer late. |
| `TimerExpiry.CancelMakesLate` | timerprocess.c:174-182 | With the negative time of `NegativeTime`, one cancel makes a timer half a second late. |
| `TimerExpiry.IntegralTimersDoNotDrift` | timerprocess.c:174-182 | Whole-second timers stay exact through any cancels, whatever their signs. |
| `TimerQueue.Queue.Decrement` | timerprocess.c:217-255 | The doubly linked list after the call and the numbers fired, in order, are those of the list as values. |
| `TimerExpiry.RunOutIsExact` | timerprocess.c:238-249 | If none of the timers due one after the other from the head on is a second late, the loop fires exactly those, in order, and the others keep their deadlines. |
| `TimerExpiry.DecrementIsExact` | timerprocess.c:217-255 | If none of those is a second late, or the head is due just now, every survivor waits exactly the elapsed time less, and those due fire in order, or the head alone if it is due just now. |
| `TimerExpiry.DecrementExactness` | timerprocess.c:237-250 | With an overdue head, and whatever the list, the call is exact if and only if none of the timers due one after the other is a second late, or all timers are due. |
| `TimerExpiry.RunOutExactly` | timerprocess.c:238-249 | Whatever the list, the loop fires timers in order up to the first that is not due; the others are due earlier than they should by the truncated overdue times of those fired, which count twice. |
| `TimerExpiry.DecrementExactly` | timerprocess.c:217-255 | With an overdue head the same of a whole call, in terms of the deadlines before it. |
| `TimerExpiry.AscendingDue` | timerprocess.c:230-250 | In a list without negative times those are all the timers due, and none is a second late if and only if the head is not. |
| `TimerExpiry.LateCheck` | timerprocess.c:237-250 | Timers for 1 s and 5 s, looked at after 2.5 s: the second is left with 1.5 s instead of 2.5 s. |
| `TimerExpiry.OneSecondTimersGoNegative` | timerprocess.c:46-131 | One-second timers alone, which is what the sender sets (cbuffer.c:412), lead to a negative time too. |
| `Protocol.ClientStepKeeps` | tcpdc.c:107-178 | Every action keeps each byte the application handed over once and in order in the stream or waiting, and sends only packets of the stream. |
| `Protocol.RightChecksumIsIntact` | tcpds.c:155-176 | A datagram whose checksum is right carries its packet unchanged. |
| `Protocol.ArriveKeeps` | tcpds.c:152-191 | An arrival, new, repeated, late or damaged, keeps the invariant: only packets of the stream are stored, and only packets the receiver has are acknowledged. |
| `Protocol.ReadKeeps` | tcpds.c:102-130 | A read of any size keeps it: what is served is the next part of the stream. |
| `Protocol.StepKeeps` | tcpdc.c:92-179 | Every step of either end or of the network keeps the invariant. |
| `Protocol.ServedIsAPrefix` | tcpds.c:102-191 | In every run the bytes served are a prefix of the bytes handed over by the sending application, as many as the reader's position. |
| `Protocol.ReadServes` | tcpds.c:102-130 | In every run of the system a read can be done at any time and serves as many of the bytes held without a gap as were asked for. |
| `Protocol.ReleasedIsReceived` | cbuffer.c:274-304 | In every run a packet the sender has released is stored at the receiver or has been read. |
| `Protocol.NothingIsLost` | cbuffer.c:274-353 | In every run each packet is outstanding at the sender or has reached the receiver, and a stored packet is that packet. |
| `Protocol.DamagedIsNeverStored` | tcpds.c:155-176 | In every run, a datagram in the network whose payload is not its packet's is neither stored nor acknowledged. |
| `Stuck.StepStaysStuck` | tcpds.c:152-191 | Whatever either end or the network does next, a stuck packet is stuck afterwards; with sbuffer.c:115 repaired. |
| `Stuck.StuckForever` | cbuffer.c:274-304 | A packet that is outstanding, silent at the receiver and without an acknowledgement in the network is never released, in any continuation of any run; with sbuffer.c:115 repaired. |
| `Completion.RunIsFull` | tcpdc.c:107-178 | In every run of full chunks the sender's slots match its sent packets and all its packets are full. |
| `Completion.Recover` | cbuffer.c:520-541 | While no packet is stuck, expiring and resending brings back every lost acknowledgement. |
| `Completion.Finish` | tcpdc.c:92-179 | Once every waiting packet that was received is acknowledged in the network, reading, acknowledging, resending and offering serves and releases everything handed over; each acknowledgement is taken while its number is in the sender's table. |
| `Completion.CompletesExactly` | tcpdc.c:92-179 | After any run of full chunks, with any losses, repetitions, reorderings and damage, a continuation that serves and releases everything handed over exists if and only if no packet is stuck; it then hands over nothing new and takes only acknowledgements that are in the sender's table. With sbuffer.c:115 repaired. |
| `Completion.NoLossCompletes` | tcpdc.c:92-179 | It exists after every run of full chunks that loses no acknowledgement. |
| `Completion.LostAckSticks` | sbuffer.c:150-154 | One chunk sent, delivered and read, its acknowledgement lost, and a second sent and delivered: packet 1 is stuck, with sbuffer.c:115 repaired or not. |
| `Delivery.FaultlessRoundTrip` | tcpdc.c:92-179 | One schedule: any number of full chunks, each handed over, sent, delivered, acknowledged and read before the next, is a run of the system, serves exactly what was handed over and leaves nothing unreleased. |
| `Delivery.RoundServes` | tcpds.c:102-191 | One such round, from any state of rest of the system, leads to the next state of rest with the chunk served. |
| `Delivery.OldAcksOverrun` | cbuffer.c:491-492 | After any number of such rounds the acknowledgement of every packet but the last, come again, is in no slot: the scan runs past the table. |
| `Daemons.ClientRunKeeps` | tcpdc.c:92-179 | Any sequence of client actions that sees only acknowledgements in the network keeps the system's invariant. |
| `Daemons.AcksInOrder` | tcpdc.c:153-158 | The plan of a pass has every acknowledgement received, in order. |
| `Daemons.ExpiriesInOrder` | tcpdc.c:166-172 | And every expiry. |
| `WindowPasses.RecvAckTakes` | cbuffer.c:485-518 | An acknowledgement marks its packet, if it is cut; the marks of all others stay, packets newly cut are to be sent, and none unacknowledged is released. |
| `WindowPasses.AddDataTakes` | cbuffer.c:245-270 | A chunk goes in and takes its size of the room, or nothing changes because it is larger than what is left. |
| `Daemons.AcksTake` | tcpdc.c:149-161 | After any batch of acknowledgements every packet in it that was cut is acknowledged or released, and the others are as they were. |
| `Daemons.ExpiriesPutBack` | tcpdc.c:162-176 | After any batch of expiries every outstanding packet in it is to be sent again, and the others are as they were. |
| `Daemons.HostPlanOffers` | tcpdc.c:107-148 | A chunk read is in the ring after the pass or does not fit; one is read when none waits after the waiting one has been offered. |
| `Daemons.PlanPasses` | tcpdc.c:92-179 | After a whole pass, of the packets still in the window those acknowledged are so, those expired and those never sent have gone out, once and in order, and the others are as they were and have not; what still waits of the application's did not fit. |
| `Daemons.ClientDaemon.HostPass` | tcpdc.c:107-148 | The waiting chunk goes first and a new one is read only when none waits; each chunk taken is answered once, and what waits afterwards does not fit. |
| `Daemons.ClientDaemon.AckPass` | tcpdc.c:149-161 | The acknowledgements received are taken in order; every packet among them that was cut is then acknowledged or released, and no other. |
| `Daemons.ClientDaemon.ExpiryPass` | tcpdc.c:162-176 | The expiries received are taken in order; every outstanding packet among them is then to be sent again, and no other is touched. |
| `Daemons.ClientDaemon.ReceiveAndSend` | tcpdc.c:92-179 | One pass of the loop on the heap is the planned run of protocol actions: state and packets sent agree, with the effects of `Daemons.PlanPasses`, and every chunk read is answered once it is in the ring. |
| `Daemons.ServerDaemon.RemoteIsSet` | tcpds.c:133-191 | A full datagram is stored and acknowledged as the protocol's delivery says, and refused when its checksum is wrong. |
| `Daemons.ServerDaemon.HostIsSet` | tcpds.c:102-130 | The application gets the next bytes, as many as it asked for or the front block has. |
| `AsWritten.AddStands` | cbuffer.c:250-262 | Adding without the reduction keeps the indices standing for the bytes added and released; `dend` reaches 64000 if and only if the chunk ends the ring. |
| `AsWritten.ReleaseStands` | cbuffer.c:276-303 | So does releasing the front packet. |
| `AsWritten.SpaceLawExactly` | cbuffer.c:212-253 | As written the free space is right if and only if it is not the case that everything is released with `dend` at 64000. |
| `AsWritten.SpaceAfterExactly` | cbuffer.c:212-303 | After any offers and releases the indices stand for what is held, and the free space is right in just these cases. |
| `AsWritten.EmptyReadsAsFull` | cbuffer.c:253 | Up to sixty-four rounds, each a chunk of 1000 bytes and its release: all the room is left after each but the sixty-fourth, when the empty ring reads as full. |
| `AsWritten.EmptyChunkExactly` | cbuffer.c:262 | An empty chunk leaves the free space right if and only if something is held. |
| `AsWritten.EmptyChunkFills` | cbuffer.c:262 | An empty chunk into an empty ring: it reads as full. |
| `AsWritten.FrontPiecesExactly` | sbuffer.c:162-186 | As written a packet at the start of a hole leaves a proper list if and only if the rest starts inside the ring, or the hole filled was not the open one. |
| `AsWritten.ExactFitLosesTheHole` | sbuffer.c:181-186 | Packet 64 into a ring of 63 closes the open hole. |
| `AsWritten.OffsetLeavesTheRing` | sbuffer.c:168 | A hole at offset 64000 passes on the offset 65000. |
| `AsWritten.AbsorbsExactly` | sbuffer.c:114-121 | As written, in the pass right after a read, the open hole takes the room back if and only if something stands in front of it. |
| `FreedRoom.PassKeepsShape` | sbuffer.c:103-124 | With sbuffer.c:56 and 115 each as written or repaired, every pass that ends keeps the list in two parts: from dstart to 64 or without end, and the room of packets already read. |
| `FreedRoomPasses.PassEnds` | sbuffer.c:103-124 | With something still to be read, and nothing in the freed room that joins, the pass ends. |
| `FreedRoomPasses.TailEndsExactly` | sbuffer.c:105-113 | Through the freed room it does not end if and only if the last two nodes join and are of the head's kind: then they swallow the head. |
| `FreedRoomCalls.ReadEndsExactly` | sbuffer.c:308-336 | In a list where nothing is left to join, a read never ends if and only if it takes the whole front block, holes stand behind the block and at the end of the list, and the last one ends just before dstart. |
| `FreedRoomCalls.AddEndsExactly` | sbuffer.c:148-289 | There an arrival never ends if and only if a block is in front to be read, and the packet, already read, closes the last gap of the freed room beside a packet stored there. |
| `FreedRoomRuns.ReadsEndExactly` | sbuffer.c:308-336 | The first of these in every run, with sbuffer.c:56 and 115 each as written or repaired. |
| `FreedRoomRuns.AddsEndExactly` | sbuffer.c:148-289 | The second in every such run. |
| `FreedRoomRuns.RefusedExactly` | sbuffer.c:50-160 | In every such run a packet of the window that is not held is refused if and only if it is past 64 and the last hole still ends there. |
| `FreedRoomRuns.ServedExactly` | sbuffer.c:148-289 | In every such run a packet already read is stored or acknowledged when it comes again if and only if its number is still in freed room, in a hole or first of what is stored there. |
| `FreedRoomRuns.GoneForever` | sbuffer.c:103-160 | A packet already read whose room is gone is refused ever after. |
| `FreedRoomRuns.Packets65And1` | sbuffer.c:50-121 | With sbuffer.c:115 as written: packet 1 arrives and is read; come again it is stored, until packet 2 arrives, and then refused for good. With sbuffer.c:56 as written too packet 65 is refused in between, and stored afterwards. |
| `FreedRoomRuns.LastFirstHangs` | sbuffer.c:56-121 | With sbuffer.c:56 as written, sbuffer.c:115 either way: packets 1 and 64 arrive, 1 is read, 2 arrives; packet 65 is refused and the read of packet 2 never ends. |
| `FreedRoomRuns.AgainHangs` | sbuffer.c:103-121 | With sbuffer.c:115 alone as written: packets 1 and 2 are read, 1 comes again, 3 arrives; then neither a read of packet 3 nor packet 2 come again ever ends. |
| `AsWritten.PartCopiesExactly` | sbuffer.c:341-350 | As written both copies of a partial read have a length if and only if the node does not wrap, or it starts inside the ring and the request reaches the ring's end. |
| `AsWritten.WholeCopiesExactly` | sbuffer.c:316-325 | Both copies of a whole read have a length if and only if the node starts inside the ring. |
| `AsWritten.ReadsExactly` | sbuffer.c:316-354 | As written a block read in any parts and then to its end, with arrivals in between that make it grow, is copied right throughout if and only if each part taken while it wraps ends at the ring's end. |
| `AsWritten.ShortReadOverruns` | sbuffer.c:341-350 | 25 bytes from a wrapping block of two packets: 1000 bytes are copied, then -975. |
| `AsWritten.DataLeavesTheRing` | sbuffer.c:353 | 1500 bytes of that block go right; then neither 100 more nor the rest do. |
| `AsWritten.GrowthMakesItWrap` | sbuffer.c:341-353 | Two reads of 25 bytes of the packet that ends the ring go right; if the next packet arrives between them, the second copies 975 bytes and then -950. |
| `AsWritten.GivesBackExactly` | sbuffer.c:327-332 | As written a served node gives back all its room if and only if none of it was served before. |
| `AsWritten.PartReadLosesRoom` | sbuffer.c:327-354 | A packet read in two parts, 25 bytes first: 25 bytes of room are gone. |

## Left out

- Sockets, `select`, addresses, byte order, `malloc`/`free`, printing and the programs in tcpapi.c, ftpc.c, ftps.c, timerDEMO.c and Troll/: messages are values; freed nodes are simply no longer in the list.
- The short last packet of tcpds.c:196-232: its buffer is unset when no full packet comes before it. In `Protocol` a datagram that is not full stays in the network; the sender alone may have short packets.
- Several datagrams in one receive (tcpds.c:152-192): one receive brings one datagram, as UDP does, so the checksum at tcpds.c:158 covers just its payload.
- Completion.CompletesExactly: full chunks only, because a short datagram is never stored, and fewer than 2147483647 packets in all. That something can still happen is proved, not that it does.
- Corruption of packet numbers and acknowledgements: the checksum covers the payload only. One burst of at most 32 bits may hit a datagram.
- Integer widths: numbers and offsets are unbounded. `seqnum < 2147483647` is required where the number marks the end of the open hole, and `dstart + 63` does not overflow.
- Time stamps and the round-trip estimate (cbuffer.c:463-482, 494-498): their result is not used. The slots keep the number and whether they are in use.
- The timer daemon as a partner of the protocol (cbuffer.c:412, 502): in `Protocol` any timer may expire at any time, which includes what the daemon does.
- Ports and the sending of expiration notices (timerprocess.c:185-195): the numbers fired are returned.
- Rounding of times: they are real numbers, so equality at timerprocess.c:63 and 232 is exact.
- `sbuffer.c:139-146`, a loop that counts nodes for printing, and the final loop of cbuffer.c:354-360.
- Failed receives (tcpdc.c:127-130) and zero-length chunks: a chunk read has between 1 and 1000 bytes.
- Buffers handed over by address: data is passed and returned as sequences, so aliasing with the caller's memory is not captured; the rings themselves are arrays updated in place.
- WindowBuffer.Buffer.SendWindow: says nothing about the state when a packet finds no free slot, because the original then reads and writes past its table; `WindowChunks.SlotsSufficeExactly` says when.
- WindowBuffer.Buffer.RecvAck: a number in no slot leaves the table alone, where the original reads and writes past it; `WindowAcks.FoundExactly` says when. The runs of `Protocol` take such acknowledgements in this way. The continuations `Completion` finds take none.
- ReassemblyBuffer.Buffer.AddData: only full packets, as the full-packet branch at tcpds.c:175 hands over.
- TimerQueue.Queue.InsertValue: refines the code as written, which misplaces some timers; `TimerList.WellPlacedExactly` says which.
- FreedRoom.Pass: a pass in which a node swallows the head is taken not to end, since no node leads to the head afterwards; the endless walk itself is not modelled. The other repairs are in place there.
- WindowBuffer.Buffer.AddData: requires a chunk of at least one byte; `AsWritten.EmptyChunkExactly` says what an empty one does.
- Daemons.ClientDaemon.ReceiveAndSend: requires chunks of 1 to 1000 bytes, and claims no state when a pass runs out of slots; `WindowRuns.NeverOutOfSlots` says when it cannot.
- Daemons.ServerDaemon.RemoteIsSet: one full datagram with a number below 2147483647.
