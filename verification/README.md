# Verification of the Nox server core

Dafny models of the stateful and arithmetic parts of the server, with proofs about every input, every
run or every reachable state. `dafny verify dfyconfig.toml` checks them all.

| file | what it covers |
|---|---|
| Basics.dfy, Words.dfy, Bits.dfy | what several components share, bytes of a word and bits of a byte |
| NoxCipher.dfy | the file cipher, proved equal to textbook Blowfish and undone by its other mode |
| BitPacking.dfy | the in-place 7-bit packer and unpacker |
| NodeLists.dfy | MLIST, FASTLIST with its speed index, and QUEUE, on heap nodes |
| PacketBatching.dfy | how messages become datagrams |
| PacketDispatch.dfy | how a datagram becomes messages again |
| MapTransfer.dfy | the chunked download of the map file |
| WorldSession.dfy | the session's methods for all three |
| RandomGenerators.dfy | rand32 and irand in machine integers |
| TimedEvents.dfy, PeriodicIds.dfy | the order of one-shot events and the ids of periodic ones |
| EventSystem.dfy | the linked lists behind both |
| ObjectRegistry.dfy | the registry of objects by extent |
| UpdateMask.dfy | the update bit mask as a set of indices |
| Inventory.dfy | who holds and wears what |

Methods follow the source's statements. Each is proved against a function on values, and the lemmas are
about that function. Some long loop bodies are cut into several methods so that each proof stays small.

## Where the code does less than it seems to

The model follows the code. These are the places where a natural expectation is false. Each has its exact
condition and, where that can fail, an input that fails it.

- The packer's write index is an unsigned char. Every payload comes back (all but its last byte) exactly
  when there are at most 256 groups: `BitPacking.AlwaysRestoresIff`, with a destroyed payload for every
  greater size in `BitPacking.WrapLosesData`.
- The packer never flushes its last group. The last payload byte comes back exactly when its missing bits
  already lie behind the groups: `BitPacking.WholeRoundTrip`, with a payload of every size whose last byte is
  lost in `BitPacking.TailLost`.
- `MLIST::Remove` never repairs `last`. The list stays usable unless the last of several nodes went:
  `NodeLists.MList.Remove`, `NodeLists.RemoveLastOfTwo`. QUEUE removes only at the front.
- `FASTLIST::Get` ignores a number below 1000 and hands out the cursor's node: `NodeLists.FastList.Get`,
  `NodeLists.GetBelowStride`.
- A message with opcode 0 loses its opcode when it opens a batch, and is harmless inside one. A run conserves
  its messages exactly when none opens a batch: `PacketBatching.ConservesIff`, `PacketBatching.ZeroOpcodeLost`.
- The size test of the map transfer never fires, so only the client's message ends a transfer:
  `MapTransfer.OnlyReceivedStops`.
- A due event stays queued exactly when a head that is not due hides it: `TimedEvents.DueStaysIff`,
  `TimedEvents.HiddenDueEvent`.
- Periodic ids stay in order exactly while the 32-bit counter does not wrap: `PeriodicIds.RunKeepsIdsIff`. A run of
  2^32 additions wraps it: `PeriodicIds.AddsWrap`.
- `AddObject` keeps the registry in order exactly for a known mobile object, or for a new object while an
  extent is free: `ObjectRegistry.ObjectMgr.AddObject`. A known immobile object gets a second slot:
  `ObjectRegistry.AddTwice`.
- A mask assigned to itself is cleared: `UpdateMask.UpdateMask.Assign`.
- Only a player unequips what it drops, and something that is itself in an inventory strews its items
  nowhere: `Inventory.Thing.Drop`, `Inventory.Thing.DropAll`, with `Inventory.UnitDropsWornItem`,
  `Inventory.UnitDropsAll` and `Inventory.BagDropsAll`.

## Model

| member | source | states |
|---|---|---|
| NoxCipher.Crypt | src/game/NoxCrypt.cpp:2003-2067 | in place, every block of the buffer becomes its textbook Blowfish encipherment under the schedule its mode selects and the rest stays; an unknown table gives 1 and changes nothing |
| NoxCipher.CryptNext | src/game/NoxCrypt.cpp:2027-2064 | one iteration transforms exactly the next block |
| NoxCipher.RunRounds | src/game/NoxCrypt.cpp:2033-2054 | the eight unrolled double rounds with final key xor, halves exchanged, are sixteen textbook rounds |
| NoxCipher.RunDoubleRound | src/game/NoxCrypt.cpp:2035-2050 | one unrolled double round, in terms of F |
| NoxCipher.DoubleRound | src/game/NoxCrypt.cpp:2035-2050 | two textbook rounds with their swaps are one iteration that never swaps |
| NoxCipher.Sum | src/game/NoxCrypt.cpp:2035-2040 | the accumulated lookups are Blowfish's F |
| NoxCipher.FOfBytes | src/game/NoxCrypt.cpp:2037-2040 | F from the four bytes of its argument: two lookups added, the third xored in, the fourth added |
| NoxCipher.FOfChangedThird | src/game/NoxCrypt.cpp:2039 | a xor into a word of the third S-box shows only where it is looked up, and there goes in before the last addition |
| NoxCipher.FOfChangedFourth | src/game/NoxCrypt.cpp:2040 | a new word in the fourth S-box shows only where it is looked up, and is added instead |
| NoxCipher.EncipherIsRecurrence | src/game/NoxCrypt.cpp:2033-2054 | the network is a recurrence without rounds or swaps: each half is the last but one, xored with f of the last and with a subkey |
| NoxCipher.CryptWords | src/game/NoxCrypt.cpp:2003-2067 | from bytes to bytes: the two big-endian words of every block go through the recurrence under the subkeys at 0x400, or at 0x418 in mode 1, and the bytes behind the blocks stay |
| NoxCipher.Unwind | src/game/NoxCrypt.cpp:2027-2064 | j rounds under the reversed subkeys lead back to the state with j rounds to go, halves exchanged and masked |
| NoxCipher.DecipherUndoesEncipher | src/game/NoxCrypt.cpp:344-354 | reversed subkeys invert the network, for every round function, schedule and block |
| NoxCipher.CryptRoundTrip | src/game/NoxCrypt.cpp:2003-2067 | mode 1 after mode 0, and mode 0 after mode 1, restores every buffer, for all S-boxes and subkeys with the reversed layout |
| NoxCipher.MapBlocksInverse | src/game/NoxCrypt.cpp:2027-2064 | blocks do not affect each other: inverting each block inverts the buffer |
| BitPacking.DecryptBitwise | src/game/NoxCrypt.cpp:21-44 | in place, the buffer becomes the unpacked payload, consumed bytes behind it are zero, the rest is as it was |
| BitPacking.UnpackedBits | src/game/NoxCrypt.cpp:29-43 | bit j of output byte i is bit (8i+j)%7 of original byte (8i+j)/7; bytes m..G-1 are zero; everything behind is unchanged |
| BitPacking.ClearStep | src/game/NoxCrypt.cpp:35 | zeroing a consumed byte touches no decoded byte |
| BitPacking.StoreStep | src/game/NoxCrypt.cpp:42 | storing a decoded byte touches no byte still to be read |
| BitPacking.EncryptBitwise | src/game/NoxCrypt.cpp:47-82 | in place, the buffer holds the payload's groups where the wrapping 8-bit index sent them, and is unchanged elsewhere |
| BitPacking.PackedBits | src/game/NoxCrypt.cpp:61-80 | with at most 256 groups exactly bytes 0..G-1 are written, byte g holding bits 7g..7g+6 of the payload and bit 7 set |
| BitPacking.RoundTrip | src/game/NoxCrypt.cpp:21-82 | unpacking restores every payload byte i with 8i+8 <= 7G, which is every byte but the last |
| BitPacking.LastByte | src/game/NoxCrypt.cpp:61-80 | the last byte's unflushed bits are read from the byte behind the groups |
| BitPacking.WholeRoundTrip | src/game/NoxCrypt.cpp:21-82 | the whole payload comes back if and only if those bits agree |
| BitPacking.TailLost | src/game/NoxCrypt.cpp:61-80 | for every size of at most 256 groups, a buffer whose last payload byte is lost |
| BitPacking.WrapLosesData | src/game/NoxCrypt.cpp:52 | for every size with more than 256 groups, a payload whose first byte is lost |
| BitPacking.AlwaysRestoresIff | src/game/NoxCrypt.cpp:47-82 | all payloads of a size survive, but for the last byte, if and only if there are at most 256 groups |
| NodeLists.MList.Add | src/game/NoxThingClassDefs.h:210-230 | appends one fresh node with the value, keeps all others, sets the cursor only on the first |
| NodeLists.MList.Remove | src/game/NoxThingClassDefs.h:189-209 | unlinks exactly the numbered node, resets the cursor if it stood there, and leaves a list fit for Add if and only if it was not the last of several |
| NodeLists.RemoveLastOfTwo | src/game/NoxThingClassDefs.h:189-209 | with the last of two nodes gone, last is no node of the list and the list is not fit for Add |
| NodeLists.MList.Get | src/game/NoxThingClassDefs.h:232-250 | node number counted from first, or the cursor's node with the cursor moved on |
| NodeLists.MList.Clear | src/game/NoxThingClassDefs.h:255-262 | empties the list and leaves the cursor |
| NodeLists.FastList.Add | src/game/NoxThingClassDefs.h:313-318 | appends and keeps the index exact: entry k is node 1000k, and every such node has one |
| NodeLists.FastList.EntryIs | src/game/NoxThingClassDefs.h:313-318 | there is an entry k exactly while there is a node 1000k, and it is that node |
| NodeLists.FastList.Get | src/game/NoxThingClassDefs.h:320-339 | from 1000 on the node reached by walking number links from first; below 1000 the cursor's node |
| NodeLists.GetBelowStride | src/game/NoxThingClassDefs.h:320-339 | element 1 of two is not what Get(1) hands out |
| NodeLists.FastList.Clear | src/game/NoxThingClassDefs.h:344-353 | both lists are empty and agree |
| NodeLists.ActionQueue.Add | src/game/NoxThingClassDefs.h:396-403 | the message joins the end of the sequence |
| NodeLists.ActionQueue.GetCount | src/game/NoxThingClassDefs.h:404-407 | the length of the sequence |
| NodeLists.ActionQueue.Get | src/game/NoxThingClassDefs.h:408-420 | takes the front of the sequence, or gives EMPTY_QUEUE; the queue is fit for Add again although last is stale |
| NodeLists.ActionQueue.Clear | src/game/NoxThingClassDefs.h:421-424 | the sequence is empty |
| NodeLists.FifoRun | src/game/NoxThingClassDefs.h:393-424 | over every interleaving of calls, departures followed by what is queued are the start followed by arrivals: nothing lost, duplicated or reordered |
| NodeLists.DrainRun | src/game/NoxThingClassDefs.h:408-420 | getting n messages gets the first n in order, or all there are, and leaves the rest |
| PacketBatching.RunGroups | src/game/WorldSession.cpp:302-334 | along every run without a zero opener the datagrams encode batches of whole messages under one key, which with the open batch are all messages in order |
| PacketBatching.ConservesIff | src/game/WorldSession.cpp:302-334 | a flushed run conserves its messages, whole, in order and each under its own account id and unk, if and only if no message with opcode 0 opens a batch |
| PacketBatching.ZeroOpcodeLost | src/game/WorldSession.cpp:330-334 | a lone message with opcode 0 never reaches the socket |
| PacketBatching.RunBytes | src/game/WorldSession.cpp:302-334 | the wire never gains bytes, and has lost some after a zero opener |
| PacketBatching.AllStamped | src/game/WorldSession.cpp:325-335 | over every run each new datagram carries the session's address and xor key, and what was sent stays |
| PacketBatching.ClosedDatagrams | src/game/WorldSession.cpp:302-323 | over every run of messages a datagram is closed exactly where the account id or unk changes, so nothing is split that could travel together |
| PacketDispatch.RestIsLess | src/game/WorldSession.cpp:368-431 | every pass of the loop decreases unread bytes plus queued packets, however far a handler reads |
| PacketDispatch.HandlerRunsIff | src/game/WorldSession.cpp:381-408 | a handler runs exactly for a message that is no join confirmation and whose row asks for authentication, or for a player while there is one; it sees the unread bytes, with the recent logout forgotten only in the first case |
| PacketDispatch.NoHandlerOutcome | src/game/WorldSession.cpp:381-418 | otherwise nothing is read and only a first join confirmation changes the session; a recent logout decides whether a message is skipped or unexpected |
| PacketDispatch.NoPlayerNoGame | src/game/WorldSession.cpp:368-431 | over any queue, without a player and while no handler makes one, only handlers that ask for authentication run |
| PacketDispatch.PlayerIsServed | src/game/WorldSession.cpp:368-431 | over any queue, with a player and while no handler drops it, no message that needs one is turned away |
| PacketDispatch.EveryByteIsRead | src/game/WorldSession.cpp:368-431 | for any handlers: if server and socket are still there, every byte of the queue was an opcode or read by its handler |
| PacketDispatch.DispatchUndoesEncode | src/game/WorldSession.cpp:368-431 | dispatching a batch's datagram handles exactly its messages in order, each as the session stands after the one before, and then goes on with the queue |
| PacketDispatch.DispatchUndoesBatching | src/game/WorldSession.cpp:302-431 | whatever a run sends and flushes is handled message by message, in order and under the same keys, by handlers that read exactly their payload and may log the player in or out on the way |
| WorldSession.Session.SendPacket | src/game/WorldSession.cpp:302-323 | an admitted packet takes the session's unk if asked and is one Send step of the wire; otherwise nothing changes |
| WorldSession.Session.FlushPacket | src/game/WorldSession.cpp:325-335 | with a socket, one datagram: the combined packet, with this session's address and xor key; and an empty combined packet |
| WorldSession.Session.FinishUpdate | src/game/WorldSession.cpp:433-436 | one Flush step of the wire and one Tick of the transfer |
| WorldSession.Session.QueuePacket | src/game/WorldSession.cpp:337-341 | a copy joins the end of the queue |
| WorldSession.Session.CallHandler | src/game/WorldSession.cpp:379-418 | the outcome, the bytes read, and the status, player, recent logout and socket after one message |
| WorldSession.Session.HandleFront | src/game/WorldSession.cpp:379-430 | one pass: its outcome, how the session stands, and the packet left with the next byte as its opcode |
| WorldSession.Session.ReceiveAll | src/game/WorldSession.cpp:368-431 | the loop terminates and does to queue and session exactly what Dispatch says, up to the loss of the socket; without a socket it touches nothing |
| WorldSession.Session.SendMapSendStart | src/game/WorldSession.cpp:1186-1200 | an idle transfer starts at chunk 1 with the session's unk, and its announcement is sent; a running one is left alone |
| WorldSession.Session.SendMapSendPacket | src/game/WorldSession.cpp:1201-1221 | sends exactly the next chunk and counts up, never back to 0 |
| WorldSession.Session.HandleReceivedMapOpcode | src/game/WorldSession.cpp:901-907 | stops the transfer |
| MapTransfer.ReadNxzBytes | src/game/NoxMap.cpp:132-139 | the bytes of the file from the offset on, fewer than asked for only at its end |
| MapTransfer.NextPrefix | src/game/WorldSession.cpp:1206-1208 | chunk k + 1 is what the first k chunks leave off with |
| MapTransfer.SizeTestNeverFires | src/game/WorldSession.cpp:1219-1220 | for every file and chunk number the product stays within the file size |
| MapTransfer.OnlyReceivedStops | src/game/WorldSession.cpp:1186-1221 | a running transfer's counter becomes 0 if and only if the client's message arrives |
| MapTransfer.TransferRun | src/game/WorldSession.cpp:1201-1221 | after any run of k ticks the chunks' data is the first min(512k, size) bytes of the file, for every k |
| MapTransfer.TransferFromRequest | src/game/WorldSession.cpp:1186-1221 | from a request on an idle session, after any run of k ticks, packets 1 to k have gone out with unks counting up from the session's, and their data is the first min(512k, size) bytes |
| MapTransfer.ChunkPacketsInOrder | src/game/WorldSession.cpp:1201-1221 | over any run one data packet a tick, numbered without a gap |
| MapTransfer.ChunkPacketFields | src/game/WorldSession.cpp:1208-1216 | marker, 16-bit number and size, least significant byte first, and exactly bytes 512(k-1) to 512k of the file or what there is of them |
| MapTransfer.StartPacketFields | src/game/WorldSession.cpp:1190-1194 | marker, 0x13, the 32-bit size of the file, least significant byte first, and its name |
| MapTransfer.IdleSendsNothing | src/game/WorldSession.cpp:433-436 | without a request no run of an idle session sends data |
| RandomGenerators.Generators.Rand32 | src/shared/Util.cpp:107-123 | the state becomes 48271 s mod 2^31-1 without int32 overflow and stays in 1..2^31-2; the result is in 0..RAND32_MAX |
| RandomGenerators.Schrage | src/shared/Util.cpp:114-121 | the split difference is never 0 and is congruent to 48271 s |
| RandomGenerators.NextIsState | src/shared/Util.cpp:107-123 | no state leads to 0 |
| RandomGenerators.NextInjective | src/shared/Util.cpp:107-123 | distinct states have distinct successors |
| RandomGenerators.NextOnto | src/shared/Util.cpp:107-123 | every state has a predecessor |
| RandomGenerators.IterateIsPower | src/shared/Util.cpp:107-123 | after n calls the state is 48271^n s mod 2^31-1, in range, for every n |
| RandomGenerators.Generators.RandInit | src/shared/Util.cpp:84-87 | the seed becomes the state |
| RandomGenerators.Generators.Irand | src/shared/Util.cpp:91-99 | one step of the 32-bit generator, no overflow in the product, a result within min..max |
| RandomGenerators.ScaledInRange | src/shared/Util.cpp:98 | in every generator state the product fits 32 bits and the result is in the range |
| RandomGenerators.ScaledIff | src/shared/Util.cpp:98 | v is returned exactly in its part of the states, which are cut into max-min+1 equal parts by their bits 17 to 31 |
| RandomGenerators.ScaledOnto | src/shared/Util.cpp:91-99 | every value of the range is returned from some generator state |
| RandomGenerators.LcgOnto | src/shared/Util.cpp:96 | every state has a predecessor |
| TimedEvents.PushKeepsSorted | src/shared/EventSystem.cpp:113-137 | the list behind the head stays sorted with ties in arrival order, and the head stays |
| TimedEvents.TickFiresDuePrefix | src/shared/EventSystem.cpp:377-393 | a tick fires a prefix, none of it early, and stops at an event that is not due |
| TimedEvents.DueStaysIff | src/shared/EventSystem.cpp:377-393 | a due event remains if and only if a head that is not due hides it; a tick that fires leaves a fully sorted list |
| TimedEvents.HiddenDueEvent | src/shared/EventSystem.cpp:377-393 | after pushes for 10 and 5 and a tick at 7 the event for 5 is still queued |
| TimedEvents.RunKeepsOrder | src/shared/EventSystem.cpp:113-137 | every run of pushes and ticks, among pushes to other lists, keeps the order, fires nothing early, and neither loses nor repeats an event |
| EventSystem.PushEvent | src/shared/EventSystem.cpp:113-137 | the new node is linked exactly where the specification puts it |
| EventSystem.Serve | src/shared/EventSystem.cpp:368-396 | the events run and the list left are those of the specification |
| EventSystem.SingleEvents.AddEvent | src/shared/EventSystem.cpp:230-263 | the event joins the one list its delay selects, due at now plus the delay in 32 bits; all three lists stay in order |
| EventSystem.SingleEvents.Tick | src/shared/EventSystem.cpp:368-396 | one list fires its due prefix, nothing early; all three lists stay in order |
| EventSystem.PeriodicEvents.AddEvent | src/shared/EventSystem.cpp:187-228 | the event joins the front of its list under the recycled or the next id, which is returned |
| EventSystem.PeriodicEvents.RemovePeriodicEvent | src/shared/EventSystem.cpp:274-366 | the first list that holds the id loses it, and the id is kept for recycling if there was none |
| EventSystem.RemoveFrom | src/shared/EventSystem.cpp:276-303 | unlinks the first event with the id and nothing else |
| PeriodicIds.AddKeepsIdsIff | src/shared/EventSystem.cpp:187-228 | live ids stay distinct, nonzero, at most the counter and apart from the recycled one, if and only if the counter does not wrap |
| PeriodicIds.RemoveKeepsIds | src/shared/EventSystem.cpp:274-366 | removal keeps that, and the id is live no more |
| PeriodicIds.NextIdIs | src/shared/EventSystem.cpp:187-206 | the recycled id goes first and only once, otherwise the counter counts on by one |
| PeriodicIds.AddedToList | src/shared/EventSystem.cpp:206-228 | the period chooses the list, the event goes to its front, and nothing else is gained or lost |
| PeriodicIds.RemoveTakesOne | src/shared/EventSystem.cpp:274-366 | a removal takes one event with the id out if and only if one is live, and nothing else |
| PeriodicIds.RemovedIsNext | src/shared/EventSystem.cpp:187-366 | a removed id is handed out next, unless another one is waiting |
| PeriodicIds.RunConserves | src/shared/EventSystem.cpp:187-366 | over any run, what is live and what was taken out are together what was added |
| PeriodicIds.RunKeepsIdsIff | src/shared/EventSystem.cpp:187-366 | over any run of additions and removals the ids are in order throughout if and only if the counter never wraps |
| PeriodicIds.AddsWrap | src/shared/EventSystem.cpp:187-228 | a run of 2^32 additions wraps the counter and puts the ids out of order |
| ObjectRegistry.ObjectMgr.AddObject | src/game/ObjectMgr.cpp:187-199 | the whole new registry; a new object keeps its own extent if and only if that is in 1..0x7FFF and no registered object has it, else gets the least free one; and exactly when the array, the table and the player list still agree |
| ObjectRegistry.ObjectMgr.RemoveObject | src/game/ObjectMgr.cpp:200-210 | the object leaves the array, the table and the player list, which still agree |
| ObjectRegistry.ObjectMgr.ChangeObjectExtent | src/game/ObjectMgr.h:172-180 | the object moves if and only if the extent is in 1..0x7FFF and no registered object has it, and all still agree |
| ObjectRegistry.ObjectMgr.AvailableIff | src/game/ObjectMgr.h:195-200 | available are the extents in 1..0x7FFF that no registered object has |
| ObjectRegistry.ObjectMgr.FreeIff | src/game/ObjectMgr.h:181-193 | none is free if and only if every one of them is some registered object's |
| ObjectRegistry.PerformAll | src/game/ObjectMgr.cpp:187-210 | over any sequence of additions, removals and moves the registry agrees, up to the first addition of a known immobile object or without a free extent, which ends it |
| ObjectRegistry.AddTwice | src/game/ObjectMgr.cpp:187-199 | a known immobile object that is added again puts the registry out of order |
| ObjectRegistry.ObjectMgr.RequestExtent | src/game/ObjectMgr.h:181-193 | the least free extent, or 0 if and only if there is none |
| ObjectRegistry.ObjectMgr.LookupIsExact | src/game/ObjectMgr.h:147-169 | extents are distinct, an extent leads back to the object registered under it, and the players are exactly the objects of type 0x2C9 |
| UpdateMask.UpdateMask.SetBit | src/game/UpdateMask.h:38-41 | adds exactly that index to the set |
| UpdateMask.UpdateMask.UnsetBit | src/game/UpdateMask.h:43-46 | removes exactly that index |
| UpdateMask.UpdateMask.GetBit | src/game/UpdateMask.h:48-51 | membership |
| UpdateMask.UpdateMask.SetCount | src/game/UpdateMask.h:58-68 | an empty set with fresh blocks for so many values |
| UpdateMask.UpdateMask.Clear | src/game/UpdateMask.h:70-74 | the empty set |
| UpdateMask.UpdateMask.Assign | src/game/UpdateMask.h:76-82 | a copy, except that a mask assigned to itself is emptied |
| UpdateMask.UpdateMask.AndAssign | src/game/UpdateMask.h:84-89 | intersection, for equal block counts |
| UpdateMask.UpdateMask.OrAssign | src/game/UpdateMask.h:91-96 | union, for equal block counts |
| UpdateMask.MembersAfterStore | src/game/UpdateMask.h:38-46 | storing one byte of one word changes exactly the addressed index |
| UpdateMask.MembersOfAnd | src/game/UpdateMask.h:84-89 | word-wise and is intersection of the byte-addressed sets |
| UpdateMask.MembersOfOr | src/game/UpdateMask.h:91-96 | word-wise or is union |
| UpdateMask.ByteViewIsWordView | src/game/UpdateMask.h:38-51 | the byte view and the 32-bit word view name the same bits |
| UpdateMask.EnoughBlocksIff | src/game/UpdateMask.h:64 | there is a bit for every value if and only if the 32-bit rounding does not wrap |
| Inventory.NewThingJoins | src/game/Object.cpp:41-84 | a newly made thing joins a world in order if and only if its position is not (5880,5880) |
| Inventory.PerformAll | src/game/Object.cpp:111-199 | over any sequence of Pickup, Drop, Equip, Dequip and DropAll on many holders ownership stays exclusive and equipment owned, up to the first step whose check beforehand fails, which ends it |
| Inventory.Thing.Pickup | src/game/Object.cpp:111-118 | taken if and only if it is in no inventory and near enough; every item stays in at most one inventory, and in one exactly when its position is (5880,5880) |
| Inventory.FartherIff | src/game/Object.cpp:115 | too far means that the truncated distance exceeds the limit |
| Inventory.Thing.Drop | src/game/Object.cpp:120-126 | the item leaves for the new position; ownership stays exclusive if and only if that is not (5880,5880), and equipment stays owned if and only if no non-player drops what it has equipped |
| Inventory.UnitDropsWornItem | src/game/Object.cpp:120-126 | a unit that drops what it wears still wears it |
| Inventory.Thing.RemoveFromInventory | src/game/Player.cpp:270-285 | the item is gone from the inventory, and with a player from every slot |
| Inventory.Thing.DropAll | src/game/Object.cpp:190-199 | the inventory is empty and its items lie here, a player's slots are empty, and exactly when ownership and equipment stay in order |
| Inventory.UnitDropsAll | src/game/Object.cpp:190-199 | a unit that drops all still wears it |
| Inventory.BagDropsAll | src/game/Object.cpp:190-199 | what a carried bag drops claims to be in an inventory and is in none |
| Inventory.Thing.Equip | src/game/Unit.cpp:224-258 | an owned item goes to its slot in place of what was there; everything equipped is owned and in its own slot |
| Inventory.SlotOfCases | src/game/Unit.cpp:228-237 | weapons share slot 11, but for flags in 9 and quivers in 10; armor has its own number below 13 |
| Inventory.Thing.Dequip | src/game/Unit.cpp:260-280 | clears the first slot that holds the item and no other |

## Left out

- Sockets, threads, console, logging, databases: the socket is the list of what it was handed, the map file is a byte sequence.
- Physics, collisions, movement and the trigonometry by which `Unit::Drop` moves a far position: the position is a parameter.
- The literal key tables: their layout is a hypothesis (`NoxCipher.HasReversedSchedule`).
- NoxCipher.Crypt: does not model the 32-bit loop counter, which could not pass a buffer of 2 GB.
- BitPacking.EncryptBitwise: lengths below 9 are excluded, because dataLen - 9 wraps in the source.
- NodeLists.MList.Add: numNodes does not overflow; freed nodes are not modelled, so a dangling cursor is only excluded from use.
- FASTLIST::Remove, CHAT_LIST and the searches by ID.
- PacketDispatch.DispatchUndoesBatching: a handler is known by how far it reads and by what it does to the status, the player, the recent logout and the socket. A read past the end fails an assertion that stops the server, and is the outcome Aborted.
- WorldSession.Session.CallHandler: what handlers, and the join confirmation, send and do to the world is not modelled; nor do they queue packets.
- WorldSession.Session.HandleFront: likewise.
- WorldSession.Session.ReceiveAll: likewise; the opcode table does not change.
- WorldSession.Session.SendMapSendPacket: the signed product of chunk number and 512 is not bounded; it would overflow after four million packets.
- WorldSession.Session.FinishUpdate: timestamps, timeouts and logging out.
- The source has no method that takes a sequence of steps; the two named `PerformAll`, and the methods that show a failing input, only run its methods.
- TimedEvents.RunKeepsOrder: times are the stored 32-bit values, so an event whose time has wrapped counts as early.
- EventSystem.Serve: each push, tick and removal is one atomic step; the spin locks and the re-arming of periodic events are not modelled.
- ObjectRegistry.ObjectMgr.constructor: starts with all slots empty, although the source's memset clears only 0x7FFF bytes of the array; the wall object that AddCollisionWalls inserts without a slot is not part of the registry.
- UpdateMask operators & and |, which are an assignment followed by &= or |=.
- Inventory.Thing.Pickup: what a player does with a new item (wearing armor, eating food), EquipSecondary, NewPickup, and the update packets are not modelled; distances are exact.
- Inventory.Thing.Equip: equipment is a sequence field, not an array, because the source's array is part of the object.
