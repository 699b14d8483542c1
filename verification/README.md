# Verified model of the qla2xxx request path and its allocators

The `qla2xxx` driver drives Fibre Channel adapters.  It publishes commands in a circular ring that
firmware reads, hands out identifiers and memory, tears virtual ports down while others walk over
them, and lays out structures that something else later parses: descriptor chains, firmware dumps,
registration blocks.  This project models those parts in Dafny and proves what they are for.

| file | module | subject |
|---|---|---|
| words.dfy | Words | machine words, the word-splitting macros, circular positions |
| iocb_format.dfy | IocbFormat | the four multi-entry command layouts and their reader |
| ring_spec.dfy | RingSpec | the ring as a protocol of driver and firmware, over all runs |
| request_queue.dfy | RequestQueue | the driver's request queue: handle search, builders, submission paths |
| dif_blocks.dfy | DifBlocks | cutting a scatter list into protection intervals |
| dsd_chain.dfy | DsdChain | chained descriptor lists and the walkers that build them |
| dif_command.dfy | DifCommand | a DIF command from slot and room to chains and published entry |
| dsd_pool.dfy | DsdPool | the adapter-wide pool behind Command Type 6 |
| vport.dfy | Vport | virtual-port walks, SRB references and teardown, any number of agents |
| loop_id.dfy | LoopId | the loop-identifier bitmap and the fabric login loop |
| fw_dump.dfy | FwDump | sizing, contents and chain of the firmware dump |
| fw_load.dfy | FwLoad | loading a firmware image |
| fdmi.dfy | Fdmi | FDMI attribute blocks (clause 6 of FC-GS-4) |
| nvram.dfy | Nvram | the NVRAM checksum |

How the parts fit:

* The request ring has a protocol (`RingSpec.Step`) with the firmware as an environment that takes
  published entries, and a driver that may read any out pointer between the last one it read and the
  true one.  Each submission method of `ReqQue` is one step of it, and is granted exactly when the room
  is there.  A reader (`IocbFormat.Decode`) that knows only the words of the ring is the partner of the
  builders, and a completion takes the very command that was submitted.
* The DIF walk has three descriptions: the loop over a cursor object, a recursive function giving
  everything it emits, and a reference reader that accepts a stream block by block.  The chain it is
  written into has two readers, one by slots and one by the stored words (`DsdChain.Follow`, `FollowWords`).
* The teardown protocol is a transition system of arbitrarily many agents; its theorems hold in
  every state of every run.
* The dump chain, the FDMI block and the NVRAM image each have a reader, and the writers are proved
  against it.

Code that updates state in place is modelled as classes and loops; each method is tied to a function
on values or to a step of a protocol, and the laws are proved about those.

Places where the code does less than one might expect; each is stated exactly:

* `qla2x00_alloc_iocbs` asks for no headroom.  A step makes it possible that the next submission
  overwrites an unread entry if and only if it takes the last entry the driver knows to be free
  (`RingSpec.TakesLastIffNextCanLose`, `FullRingIsOverwritten`, `LostCommand`).
* The same function leaves a command in the table when there is no room (`AllocAndStart`).
* The DIF path adds its descriptor counts in sixteen bits.  The walker keeps its 8-bit counter at or above
  zero, and every list inside its pool element, if and only if the true count has sixteen bits
  (`DsdChain.WalkFitsIffCountFits`, `UnderflowsExactly`); a transfer of 32768 blocks never has
  (`CountedBetween`, `LargeTransferDoesNotFit`).
* The counting loop of the DIF path ends inside the scatter list if and only if the block size divides
  the transfer length (`CountEndsIffBlocksDivide`).
* An unhandled login status clears the bit of the identifier in hand, which after a PORT_ID_USED reply
  can be another port's; `LoopId.FreesExactly` says when, from the replies (witness
  `UnhandledStatusCanFreeAnothersId`).  It can also clear low local identifiers, because the reserved
  test of the driver does not cover them; reserved here means that test.
* A deleter that reads a zero count leaves a port whose SRBs are gone for good if and only if the delete
  flag is set by then (`Vport.TeardownSafeIffFlagged`).  The failed-create path does not set it (witness
  `UnflaggedTeardownCanGrant`).  The final zero test of a delete can meet a transient reference
  (`CounterAfterDrain`, `FlaggedCounterCanBeNonzero`).
* The dump's sizing does not count the headers of the extra queues; full queue maps fit if and only if
  the headers fit the share of queue 0 (`FwDump.FullChainFitsIff`).
* The firmware size checks bound the words sent if and only if the byte count fits thirty-two bits
  (`ChecksNeedNarrowCount`, witness `SmallImagePasses`).

Verify everything with `dafny verify dfyconfig.toml`.

## Model

| member | source | states |
|---|---|---|
| Words.HandlePackingIsInvertible | drivers/scsi/qla2xxx/qla_def.h:104-110 | a packed handle names exactly one queue, in its high half, and one slot, in its low half, and every 32-bit word is such a packing |
| Words.SplitAddress | drivers/scsi/qla2xxx/qla_def.h:107-108 | the two halves of a DMA address give the address back if and only if it has at most 64 bits |
| Words.SwabTwice | drivers/scsi/qla2xxx/qla_init.c:5482-5483 | byte reversal is its own inverse, so what the adapter stores determines the image word |
| Words.WordIsLittleEndian | drivers/scsi/qla2xxx/qla_init.c:5482-5483 | the first byte of a word counts ones, the second 256s, and so on |
| Words.WrapIsSlot | drivers/scsi/qla2xxx/qla_iocb.c:481-487 | stepping an index round the ring with a reset at the end is arithmetic on positions modulo the ring length |
| IocbFormat.CalcIsLeastThatFits | drivers/scsi/qla2xxx/qla_iocb.c:51-85 | the three entry-count helpers give the least number of entries that hold the descriptors, both directions, for all counts |
| IocbFormat.EntryCountFitsByte | drivers/scsi/qla2xxx/qla_inline.h:15-28 | the 8-bit entry count keeps the reserved count exactly up to 1781, 1272, 1271 descriptors, and never truncates for the 1024 segments of QLA_SG_ALL |
| IocbFormat.PlaceClosedForm | drivers/scsi/qla2xxx/qla_iocb.c:700-767 | the slot-by-slot rule of the build loops, in closed form |
| IocbFormat.PlacesUseCalcIocbs | drivers/scsi/qla2xxx/qla_iocb.c:2657-2752 | the entries the build loop fills are the entries reserved beforehand, for every number of descriptors |
| IocbFormat.PlacesApart | drivers/scsi/qla2xxx/qla_iocb.c:250-301 | later descriptors never land on an earlier one |
| IocbFormat.EntryIsFull | drivers/scsi/qla2xxx/qla_def.h:1514-1614 | the descriptor slots of a command or continuation entry end exactly at the end of its sixteen words |
| IocbFormat.CarriedIsExact | drivers/scsi/qla2xxx/qla_iocb.c:283-299 | the words of a descriptor carry it unchanged if and only if address and length have the width of the format |
| IocbFormat.PutThenGet | drivers/scsi/qla2xxx/qla_iocb.c:192-241 | the words of a descriptor by position: low address, high address where there is one, length; it reads back from them and no other word of the entry changes |
| IocbFormat.PlaceNext | drivers/scsi/qla2xxx/qla_iocb.c:250-301 | writing the next descriptor keeps every earlier one and adds this one |
| IocbFormat.GatherRecovers | drivers/scsi/qla2xxx/qla_iocb.c:93-144 | a reader walking command and continuation entries recovers the list from wherever it stands |
| IocbFormat.CommandReadsBack | drivers/scsi/qla2xxx/qla_iocb.c:192-301 | decoding the published entries from their words alone, continuation types included, gives format, handle, entry count and both descriptor lists |
| IocbFormat.HeaderLayout | drivers/scsi/qla2xxx/qla_iocb.c:1471-1500 | the header words by their places: type and entry count, handle, and the descriptor counts of each format |
| IocbFormat.HeaderOfCounted | drivers/scsi/qla2xxx/qla_iocb.c:389-425 | the header alone tells format, handle and entry count, whatever follows it |
| RingSpec.RoomFromIsDistance | drivers/scsi/qla2xxx/qla_iocb.c:2805-2813 | the room computed from index and out pointer is the true distance, except that a full ring reads as empty |
| RingSpec.StepKeepsInv | drivers/scsi/qla2xxx/qla_iocb.c:1818-1845 | a step keeps the invariant (estimate within the room known at the last read, that room not used up, unread entries in place) if and only if it does not publish exactly that room |
| RingSpec.TakesLastIffNextCanLose | drivers/scsi/qla2xxx/qla_iocb.c:1820-1845 | from a sound ring, a step makes it possible that the very next submission replaces an unread entry if and only if it takes the last entry the driver knows to be free |
| RingSpec.EstimateIsSafe | drivers/scsi/qla2xxx/qla_iocb.c:2801-2817 | under the invariant the free count never exceeds the true free space, and the ring is never full |
| RingSpec.GrantedIffDeserved | drivers/scsi/qla2xxx/qla_iocb.c:377-387 | on a sound ring a submission is granted if and only if the entries it asks for, headroom included, are there by the estimate or at the out pointer it may read; the pointer is read only if the estimate is too small |
| RingSpec.NeverDeclinedWithRoom | drivers/scsi/qla2xxx/qla_iocb.c:2805-2817 | so a request that fits the room at the out pointer it reads is never declined |
| RingSpec.EstimateStaysExact | drivers/scsi/qla2xxx/qla_iocb.c:2801-2817 | a step whose submission publishes all it reserved keeps the free count at exactly the room known at the last read, less what was taken since |
| RingSpec.EstimateIsExact | drivers/scsi/qla2xxx/qla_iocb.c:2801-2813 | the same over runs that leave one entry free |
| RingSpec.FirmwareReadsWhatWasPublished | drivers/scsi/qla2xxx/qla_iocb.c:1395-1560 | in every interleaving of submissions, abandoned submissions and firmware reads, with stale but monotone reads of the out pointer, the firmware fetches exactly the published entries in order, provided the last free entry is never taken |
| RingSpec.HeadroomSuffices | drivers/scsi/qla2xxx/qla_iocb.c:1677-1687 | submission paths that insist on headroom never take the last entry, so all their runs are safe |
| RingSpec.EffectsAreARun | drivers/scsi/qla2xxx/qla_iocb.c:1395-1560 | any sequence of calls, each an enabled step from the state the last one left, is a run of the protocol |
| RingSpec.FullRingIsOverwritten | drivers/scsi/qla2xxx/qla_iocb.c:1820-1840 | once the last entry is taken, a next submission that reads the same out pointer is granted up to a whole ring, and its entries replace those since that pointer, unread ones included, on every such ring |
| RingSpec.LostCommand | drivers/scsi/qla2xxx/qla_iocb.c:1839-1844 | a concrete run on a two-entry ring in which the firmware never sees a published command |
| RequestQueue.ReqQue.constructor | drivers/scsi/qla2xxx/qla_init.c:2133-2145 | a new queue is a sound ring with an empty table |
| RequestQueue.ReqQue.FindHandle | drivers/scsi/qla2xxx/qla_iocb.c:352-362 | the circular search finds a handle if and only if a slot 1..n-1 is empty, and then the first empty one after the current one |
| RequestQueue.HopsOneByOne | drivers/scsi/qla2xxx/qla_iocb.c:352-362 | the circular order of the search: one slot on, slot 1 following the last |
| RequestQueue.ReqQue.CheckRoom | drivers/scsi/qla2xxx/qla_iocb.c:376-387 | the room check is the refresh step of the ring protocol, for any permitted stale read, and grants as that step says (see RingSpec.GrantedIffDeserved) |
| RequestQueue.ReqQue.PrepCont | drivers/scsi/qla2xxx/qla_iocb.c:116-144 | the next entry round the ring becomes a continuation, nothing else changes |
| RequestQueue.ReqQue.PlaceSegment | drivers/scsi/qla2xxx/qla_iocb.c:280-300 | one turn of the build loop extends the laid-out command by one descriptor |
| RequestQueue.ReqQue.LoadSegments | drivers/scsi/qla2xxx/qla_iocb.c:280-300 | the build loop lays out any list of segments, and counts the continuation entries it opened |
| RequestQueue.ReqQue.BuildScsi | drivers/scsi/qla2xxx/qla_iocb.c:700-767 | for the 32-bit, 64-bit and type-7 builders: exactly the window of the command changes, the index ends on its last entry, the header carries handle and counts with or without data, and with data or without segments the window decodes to the segments |
| RequestQueue.ReqQue.BuildBidir | drivers/scsi/qla2xxx/qla_iocb.c:2657-2752 | write segments then read segments in one stream of entries; the counted entry count is the number of entries used |
| RequestQueue.ReqQue.StartIocbs | drivers/scsi/qla2xxx/qla_iocb.c:473-506 | the index moves past the command modulo the ring length, and the command counts as published |
| RequestQueue.ReqQue.StartScsi | drivers/scsi/qla2xxx/qla_iocb.c:309-478 | a submission is one enabled protocol step, granted exactly when deserved, that keeps a sound ring sound; granted, it installs the command and publishes entries whose first reads back with format, handle and count, data or not; a failed one leaves table, search position and command as they were |
| RequestQueue.ReqQue.HandleWordNames | drivers/scsi/qla2xxx/qla_iocb.c:1478-1478 | the handle word names the slot in its low half and the queue in its high half, or nothing there on the older formats |
| RequestQueue.ReqQue.StartAndComplete | drivers/scsi/qla2xxx/qla_isr.c:1149-1183 | round trip: the handle word standing in the ring, given back in a completion, takes the very command that was submitted and leaves the table as it was |
| RequestQueue.ReqQue.StartBidir | drivers/scsi/qla2xxx/qla_iocb.c:2754-2847 | the same for the bidirectional path |
| RequestQueue.ReqQue.DifReserve | drivers/scsi/qla2xxx/qla_iocb.c:1580-1716 | granted exactly if a slot, the mapping and room are there; then the command is installed and its entry built but not published |
| RequestQueue.ReqQue.NamedNames | drivers/scsi/qla2xxx/qla_iocb.c:1700-1703 | the published DIF entry differs from the built one in its handle word only, which names queue and slot |
| RequestQueue.ReqQue.DifConclude | drivers/scsi/qla2xxx/qla_iocb.c:1718-1755 | publishes the entry, or gives slot and entry back |
| RequestQueue.ReqQue.DifStartScsi | drivers/scsi/qla2xxx/qla_iocb.c:1580-1759 | both halves together are one enabled protocol step; a failed submission leaves the table as it was |
| RequestQueue.ReqQue.WritePackets | drivers/scsi/qla2xxx/qla_iocb.c:122-144 | a command of several entries, as the CT and ELS builders fill them, changes exactly its window of the ring |
| RequestQueue.ReqQue.AllocAndStart | drivers/scsi/qla2xxx/qla_iocb.c:1777-1856 | the path without headroom is an enabled step for any number of entries up to those reserved; a command that finds a slot but no room stays in the table |
| RequestQueue.WithHandleKeeps | drivers/scsi/qla2xxx/qla_iocb.c:1842-1852 | the handle goes into the handle word of the first entry of the packet and nowhere else |
| RequestQueue.ReqQue.TakeByHandle | drivers/scsi/qla2xxx/qla_isr.c:1149-1183 | completion takes exactly the command in the slot named by the low half of the handle and frees that slot only |
| RequestQueue.ReqQue.TableIsInjective | drivers/scsi/qla2xxx/qla_iocb.c:389-394 | the table is injective and each command knows its slot |
| DifBlocks.Sgx.GetOneBlockSg | drivers/scsi/qla2xxx/qla_iocb.c:873-913 | one call of the cursor is one step of the specification cursor, and says exactly when it ends |
| DifBlocks.TakeSplitsRest | drivers/scsi/qla2xxx/qla_iocb.c:884-910 | a fragment is never empty, never crosses a block end, and is exactly the next bytes of the list |
| DifBlocks.CountEndsIffBlocksDivide | drivers/scsi/qla2xxx/qla_iocb.c:1646-1648 | the counting loop stays inside the list if and only if the block size divides the transfer length |
| DifBlocks.CountFragments | drivers/scsi/qla2xxx/qla_iocb.c:1640-1648 | the counting pass counts the fragments |
| DifBlocks.TupleSplitsRest | drivers/scsi/qla2xxx/qla_iocb.c:990-999 | the next eight bytes of the protection list are the next tuple, across segment ends |
| DifBlocks.WalkEmitsBlocks | drivers/scsi/qla2xxx/qla_iocb.c:943-1004 | for any scatter list of non-empty segments and any block size dividing the rest, the walk succeeds and its output is accepted by the reference reader: per block the fragments of exactly that block, then its one tuple |
| DifBlocks.BlocksAreInterleaved | drivers/scsi/qla2xxx/qla_iocb.c:943-1004 | read as bytes, such an output is each block followed by its eight tuple bytes |
| DifBlocks.PassesAgree | drivers/scsi/qla2xxx/qla_iocb.c:1653-1676 | descriptors emitted are the fragments counted plus one per block, before any truncation |
| DsdChain.ChainReadsBack | drivers/scsi/qla2xxx/qla_iocb.c:1012-1150 | following a finished chain by lengths and links recovers exactly the descriptors, visits each of the ceil(n/37) lists once in order, and every list fits its 512-byte element; the same in the 32-bit words; the head says twelve bytes for each slot and the last slot is null |
| DsdChain.WordsReadBack | drivers/scsi/qla2xxx/qla_nx.h:875-881 | a reader of the stored words, bytes by four and three words to a slot, finds the same lists, and of each descriptor what its words carry |
| DsdChain.SlotsOfWords | drivers/scsi/qla2xxx/qla_iocb.c:985-988 | low address, high address and length of each slot read back from the words |
| DsdChain.FollowFrom | drivers/scsi/qla2xxx/qla_iocb.c:979-984 | the same from any list of the chain on |
| DsdChain.OpenKeeps | drivers/scsi/qla2xxx/qla_iocb.c:949-984 | linking a new list where the last one ended keeps the layout |
| DsdChain.AppendKeeps | drivers/scsi/qla2xxx/qla_iocb.c:985-988 | writing a descriptor extends the layout by it |
| DsdChain.CloseKeeps | drivers/scsi/qla2xxx/qla_iocb.c:1005-1009 | the null terminator completes the chain |
| DsdChain.ChainWriter.Emit | drivers/scsi/qla2xxx/qla_iocb.c:947-988 | one descriptor with the eight-bit and sixteen-bit counters of the walkers, wrap-around included, is one step of the writer on values |
| DsdChain.EmitAllValid | drivers/scsi/qla2xxx/qla_iocb.c:943-1004 | a walk told at least what it emits never takes its counter below zero, keeps the chain layout, and fails only for want of lists |
| DsdChain.ExactWalk | drivers/scsi/qla2xxx/qla_iocb.c:915-1010 | a walk told the right count completes if and only if the pool has ceil(n/37) lists, and then its chain is finished and other memory untouched |
| DsdChain.ChainWriter.Terminate | drivers/scsi/qla2xxx/qla_iocb.c:1005-1009 | the null terminator at the write pointer |
| DsdChain.WalkFitsIffCountFits | drivers/scsi/qla2xxx/qla_iocb.c:916-1010 | for every stream and the sixteen-bit count of it: a completed walk keeps every list inside its 512-byte element, and its counter at or above zero, if and only if the true count has sixteen bits |
| DsdChain.UnderflowsExactly | drivers/scsi/qla2xxx/qla_iocb.c:949-988 | completed or not, the counter goes below zero if and only if the count does not have sixteen bits and the pool holds a list beyond those of the told count |
| DsdChain.WrappedWalk | drivers/scsi/qla2xxx/qla_iocb.c:949-988 | a walk told 256 or more too few overfills a list |
| DsdChain.WalkSglist | drivers/scsi/qla2xxx/qla_iocb.c:1012-1150 | the bundling walkers succeed if and only if the pool has enough lists, and build a finished chain of exactly the segments |
| DsdChain.TakeTuple | drivers/scsi/qla2xxx/qla_iocb.c:990-999 | the next tuple and the advance of the protection cursor |
| DsdChain.WalkOne | drivers/scsi/qla2xxx/qla_iocb.c:943-1004 | one turn of the walk emits a fragment and, at a block end, its tuple, and keeps walk and writer in step |
| DsdChain.WalkNoDifb | drivers/scsi/qla2xxx/qla_iocb.c:915-1010 | the no-bundling walker terminates for any sixteen-bit count it is told, and ends where the specified stream takes the writer |
| DsdChain.CountedIsEmitted | drivers/scsi/qla2xxx/qla_iocb.c:1635-1676 | the number counted beforehand is the number emitted, and the stream is block by block |
| DsdChain.SumWraps | drivers/scsi/qla2xxx/qla_iocb.c:1653-1676 | the two counts added in sixteen bits are the count of the whole, in sixteen bits |
| DsdChain.FragmentsBounded | drivers/scsi/qla2xxx/qla_iocb.c:1640-1648 | there are at most as many fragments as segments and blocks together |
| DsdChain.CountedBetween | drivers/scsi/qla2xxx/qla_iocb.c:1640-1676 | from 32768 blocks on the count never has sixteen bits; with segments and twice the blocks below 65536 it always has |
| DsdChain.BuildNoBundling | drivers/scsi/qla2xxx/qla_iocb.c:1635-1721 | both passes together, on every transfer: with a sixteen-bit count following the built chain gives each block followed by its tuple; a completed walk fits its elements if and only if the count has sixteen bits |
| DsdChain.LargeTransferDoesNotFit | drivers/scsi/qla2xxx/qla_os.c:278-278 | a transfer of 32768 blocks, which the host template admits: the walker is told zero, its counter goes below zero at once, and a list overfills |
| DifCommand.BuildContext | drivers/scsi/qla2xxx/qla_iocb.c:1160-1386 | the chains of the CRC context, interleaved or bundled: built if and only if the pool has the lists they need, and then both read back |
| DifCommand.StartDif | drivers/scsi/qla2xxx/qla_iocb.c:1564-1759 | the whole DIF submission: one protocol step of the ring, and on success what the adapter finds through the context is each block followed by its tuple, or both lists |
| DsdPool.GlobalPool.EnsureLists | drivers/scsi/qla2xxx/qla_iocb.c:2275-2309 | grows the free list by exactly what is missing, taking elements in order; succeeds if and only if the limit and the memory allow; no element is lost |
| DsdPool.GlobalPool.TakeList | drivers/scsi/qla2xxx/qla_iocb.c:631-651 | moves the first free list, and no other, to the command, links it in, and keeps all other commands intact |
| DsdPool.GlobalPool.BuildType6 | drivers/scsi/qla2xxx/qla_iocb.c:577-670 | builds the chain from the front of the free list without popping an empty list, taking exactly ceil(n/37) lists |
| DsdPool.GlobalPool.Submit | drivers/scsi/qla2xxx/qla_iocb.c:2269-2440 | the type-6 submission keeps free count, in-use count, the limit and every chain in flight; says exactly when it succeeds; owned, free and unallocated lists together stay the same elements |
| DsdPool.GlobalPool.Release | drivers/scsi/qla2xxx/qla_os.c:640-651 | release splices the lists back and conserves the total |
| DsdPool.InFlightReadsBack | drivers/scsi/qla2xxx/qla_iocb.c:625-667 | in every valid state each command in flight reads back its own descriptors from lists no one else owns |
| DsdPool.InUseWithout | drivers/scsi/qla2xxx/qla_os.c:645-647 | the in-use count falls by exactly the released command's lists |
| Vport.StepKeepsInv | drivers/scsi/qla2xxx/qla_mid.c:64-87 | every atomic step of walkers, SRB users and deleters keeps the invariant |
| Vport.RunKeepsInv | drivers/scsi/qla2xxx/qla_mid.c:236-263 | every state of every run of any number of agents satisfies the invariant |
| Vport.WalkersStandOnTheList | drivers/scsi/qla2xxx/qla_mid.c:371-383 | a port that a walk holding the lock or a reference stands at, works on unlocked, or steps on from is on the list, so no such walk resumes from a removed port |
| Vport.WalksVisitEveryPortOnce | drivers/scsi/qla2xxx/qla_init.c:4509-4540 | stepping on, a walk comes to a port it has not been at, and when there is none it has been at every port then listed |
| Vport.WalkFromStartToEnd | drivers/scsi/qla2xxx/qla_mid.c:236-263 | a whole walk, from taking the lock to its end, interleaved with anything: every port then on the list has been stood at under the lock since the walk began, and only such ports count as seen |
| Vport.WalkTurn | drivers/scsi/qla2xxx/qla_mid.c:242-259 | one turn of a walk, counting the port, dropping and retaking the lock, giving the count back, leaves list, counters and lock as they were |
| Vport.HoldersOnlyShrink | drivers/scsi/qla2xxx/qla_def.h:3531-3540 | from the moment the delete flag is set the holders of SRBs of the port only shrink, over every run, so once there is none there is none ever |
| Vport.GetAndReturn | drivers/scsi/qla2xxx/qla_inline.h:196-226 | asking for an SRB raises the count by one and is refused exactly when the flag is set; refused or given back, everything but the agent is as before |
| Vport.LostBlocksDeletion | drivers/scsi/qla2xxx/qla_bsg.c:1907-1907 | an SRB freed without lowering the count (also line 2028) keeps the count above zero in all later states, and no deleter ever gets past its test |
| Vport.BusyPortIsKept | drivers/scsi/qla2xxx/qla_mid.c:72-80 | a deleter that reads a nonzero count gives the lock back, goes on waiting, and changes nothing else |
| Vport.DeletionRemovesItsPort | drivers/scsi/qla2xxx/qla_mid.c:81-82 | a deleter that reads zero takes exactly its port off the list and frees the lock |
| Vport.DrainedPortsGrantNothing | drivers/scsi/qla2xxx/qla_inline.h:196-226 | after a flagged deleter has read a zero count, no SRB of the port is held in any later state, and a get_sp under way on it is refused |
| Vport.CounterAfterDrain | drivers/scsi/qla2xxx/qla_attr.c:2149-2159 | the final zero test of the delete passes if and only if no get_sp is in transit on the port |
| Vport.TeardownSafeIffFlagged | drivers/scsi/qla2xxx/qla_attr.c:2118-2146 | in every state of every run in which a deleter reads a zero count under the lock, no continuation ever grants an SRB of the port if and only if the flag is set by then |
| Vport.UnflaggedGrants | drivers/scsi/qla2xxx/qla_inline.h:196-219 | from any state two steps of an idle agent obtain an SRB of a port whose flag is not set, listed or not |
| Vport.UnflaggedTeardownCanGrant | drivers/scsi/qla2xxx/qla_attr.c:2118-2122 | a run of the failed-create path, as a witness: an SRB is granted on a removed port |
| Vport.FlaggedCounterCanBeNonzero | drivers/scsi/qla2xxx/qla_attr.c:2139-2159 | a run in which the final zero test sees a transient count |
| Vport.ZeroMeansAlone | drivers/scsi/qla2xxx/qla_mid.c:72-81 | a zero count read under the lock means no reference and no walker at the port |
| Vport.CountedMoves | drivers/scsi/qla2xxx/qla_def.h:3531-3544 | the counter is exactly the number of references raised, SRBs freed without lowering it included |
| LoopId.GrantFailsIffNoneFree | drivers/scsi/qla2xxx/qla_init.c:3750-3761 | testing only the first zero bit, the allocator fails if and only if no unreserved identifier is free; what it grants was free and unreserved |
| LoopId.TakenUntilCleared | drivers/scsi/qla2xxx/qla_inline.h:118-128 | over any sequence of uses an identifier in use is not granted again unless it is cleared in between |
| LoopId.GrantTakesFirst | drivers/scsi/qla2xxx/qla_init.c:3752-3759 | a grant takes the head of the free unreserved identifiers |
| LoopId.ReservedIs | drivers/scsi/qla2xxx/qla_inline.h:108-116 | the identifiers never given to a port, by number |
| LoopId.ClearFreesExactly | drivers/scsi/qla2xxx/qla_inline.h:118-128 | clearing frees the one bit named, and only if it is neither reserved nor the sign for none |
| LoopId.LoginRunsAsRead | drivers/scsi/qla2xxx/qla_init.c:3863-3970 | identifiers taken, attempts made and the identifier dropped are read off the replies: the first ending reply, and the last PORT_ID_USED value or grant before it |
| LoopId.LoginEndsAsRead | drivers/scsi/qla2xxx/qla_init.c:3895-3970 | result, next identifier and the identifier the port is left with, from the replies alone: a completed login names the identifier set aside by the last PORT_ID_USED reply, or without one its own plus one in sixteen bits; the five other endings by their code |
| LoopId.LoginAttemptsBounded | drivers/scsi/qla2xxx/qla_init.c:3850-3973 | for any replies: attempts are at most identifiers taken plus PORT_ID_USED replies plus one, and those taken are the first free ones, one for each LOOP_ID_USED reply that did not end the loop |
| LoopId.LoginBits | drivers/scsi/qla2xxx/qla_init.c:3926-3969 | every bit afterwards, from the old bitmap, the port's identifier and the replies alone |
| LoopId.FreesExactly | drivers/scsi/qla2xxx/qla_init.c:3950-3964 | an identifier in use is freed if and only if the ending reply is an unhandled status, the identifier then in hand is that one, and it may be cleared |
| LoopId.LoginTouchesOnlyItsBits | drivers/scsi/qla2xxx/qla_init.c:3926-3969 | what a login does to each bit, in terms of its own outcome |
| LoopId.UnhandledStatusCanFreeAnothersId | drivers/scsi/qla2xxx/qla_init.c:3885-3964 | a concrete run in which that identifier belongs to another port |
| LoopId.Adapter.constructor | drivers/scsi/qla2xxx/qla_inline.h:92-105 | the initial bitmap of both adapter families |
| LoopId.Adapter.FindNewLoopId | drivers/scsi/qla2xxx/qla_init.c:3741-3773 | the allocator on the bitmap and the port |
| LoopId.Adapter.ClearLoopId | drivers/scsi/qla2xxx/qla_inline.h:118-128 | the release, a no-op without an identifier and on reserved ones |
| LoopId.Adapter.FabricLogin | drivers/scsi/qla2xxx/qla_init.c:3850-3973 | the login loop is the specification run on the same replies, and ends as the replies say: result, next identifier, attempts, bitmap, the port's identifier |
| FwDump.WalkReadsChain | drivers/scsi/qla2xxx/qla_dbg.h:225-260 | walking a finished chain by its size fields yields exactly the records written, in order, and stops at the marked one |
| FwDump.MarkLast | drivers/scsi/qla2xxx/qla_dbg.c:1529-1532 | setting the LAST bit through the saved pointer turns the chain into the one whose final record, and no other, is marked |
| FwDump.AddRecord | drivers/scsi/qla2xxx/qla_dbg.c:516-542 | a record written at the end extends the chain and the saved pointer |
| FwDump.QueuesFit | drivers/scsi/qla2xxx/qla_init.c:1504-1513 | the extra queues of one kind, headers included, fit the room reserved for them |
| FwDump.ChainFits | drivers/scsi/qla2xxx/qla_init.c:1489-1515 | under the stated conditions all records stay inside the allocation |
| FwDump.FullQueuesFitIff | drivers/scsi/qla2xxx/qla_init.c:1508-1513 | with every extra queue present and of queue 0's length, one kind fits its room if and only if the headers fit queue 0's share |
| FwDump.FullChainFitsIff | drivers/scsi/qla2xxx/qla_init.c:1504-1513 | the same for the whole chain: both kinds together fit if and only if all headers fit the two shares |
| FwDump.Dumper.DumpChunk | drivers/scsi/qla2xxx/qla_dbg.c:244-247 | a chunk of adapter memory is copied with its bytes reversed |
| FwDump.Dumper.DumpRam | drivers/scsi/qla2xxx/qla_dbg.c:187-257 | success means every read completed and the whole range is in place whatever the chunk size; the first incomplete read ends the dump; nothing outside changes |
| FwDump.Dumper.DumpMemory | drivers/scsi/qla2xxx/qla_dbg.c:264-284 | external memory follows code RAM directly |
| FwDump.Dumper.CopyBase | drivers/scsi/qla2xxx/qla_dbg.c:90-106 | base queues and trace follow one another |
| FwDump.Dumper.CopyMq | drivers/scsi/qla2xxx/qla_dbg.c:570-602 | the optional multiqueue record opens the chain with count and registers |
| FwDump.Dumper.CopyFce | drivers/scsi/qla2xxx/qla_dbg.c:471-497 | the optional event record |
| FwDump.Dumper.CopyKind | drivers/scsi/qla2xxx/qla_dbg.c:510-536 | one record per extra queue up to the first empty map entry, in order, and nothing else changes |
| FwDump.Dumper.CopyMqueues | drivers/scsi/qla2xxx/qla_dbg.c:499-568 | request queues then response queues |
| FwDump.ChainTakes | drivers/scsi/qla2xxx/qla_init.c:1485-1515 | with an event buffer of the full size the chain takes exactly the words counted for its records |
| FwDump.SizeLeaves | drivers/scsi/qla2xxx/qla_init.c:1504-1515 | what the reserved size leaves free with full queue maps: the base queues share less five words for each extra queue; without extra queues, nothing |
| FwDump.DumpedRecords | drivers/scsi/qla2xxx/qla_dbg.c:471-602 | the records of a finished dump word by word: the registers with their count, the event buffer with size, address and mailbox words, and one record per queue with kind, number from one, byte size and ring |
| FwDump.RecordBytes | drivers/scsi/qla2xxx/qla_dbg.h:225-258 | the size word of a record counts its bytes, type and size included; the top bit of the type marks the last |
| FwDump.LiveIs | drivers/scsi/qla2xxx/qla_dbg.c:511-514 | the queues dumped are those before the first empty entry of the map |
| FwDump.MqCountIsMax | drivers/scsi/qla2xxx/qla_dbg.c:585-587 | the count of the register record is the larger of the two queue limits |
| FwDump.CompletedIs | drivers/scsi/qla2xxx/qla_dbg.c:240-247 | a memory read has completed when the low fourteen bits of its status are zero |
| FwDump.Dumper.Dump | drivers/scsi/qla2xxx/qla_dbg.c:1509-1535 | on success memories, base queues and trace end exactly at the chain offset, the chain stays inside the buffer, and its walk gives the multiqueue, event and queue records in order, each with its stated words; the version word is marked if and only if there is a chain |
| FwLoad.ChecksKeepInside | drivers/scsi/qla2xxx/qla_init.c:5471-5478 | with a byte count of thirty-two bits the size checks hold if and only if every word sent lies in the image |
| FwLoad.ChecksNeedNarrowCount | drivers/scsi/qla2xxx/qla_init.c:5471-5478 | the checks guarantee that for every image size if and only if the count fits thirty-two bits |
| FwLoad.SmallImagePasses | drivers/scsi/qla2xxx/qla_init.c:5471-5478 | an image of 64 bytes that passes every check although its first segment reaches past its end |
| FwLoad.HeaderBytes | drivers/scsi/qla2xxx/qla_init.c:5467-5469 | a segment keeps its load address in bytes 8 to 11 and its size in bytes 12 to 15, highest byte first |
| FwLoad.StoresAt | drivers/scsi/qla2xxx/qla_init.c:5481-5504 | word k of a run is stored, byte-reversed, k addresses on |
| FwLoad.ImageAt | drivers/scsi/qla2xxx/qla_init.c:5466-5509 | what a loaded image has stored, word by word, in both segments |
| FwLoad.PlainImage | drivers/scsi/qla2xxx/qla_init.c:5440-5509 | a 48-byte image of two segments passes the checks, lies inside, and starts at its first address |
| FwLoad.PlainStores | drivers/scsi/qla2xxx/qla_init.c:5466-5509 | the address and word of each of its twelve stores |
| FwLoad.VersionBad | drivers/scsi/qla2xxx/qla_init.c:5450-5463 | an image is rejected exactly when its four version words are all zeros or all ones |
| FwLoad.StoresSplit | drivers/scsi/qla2xxx/qla_init.c:5481-5504 | cutting a segment anywhere and continuing at the advanced address stores the same words at the same addresses |
| FwLoad.AtWraps | drivers/scsi/qla2xxx/qla_init.c:5502-5502 | the advanced load address is the wrapping 32-bit sum |
| FwLoad.Loader.LoadSegment | drivers/scsi/qla2xxx/qla_init.c:5480-5505 | if no command is refused the adapter has stored the byte-swapped segment as one piece, for every non-zero transfer size |
| FwLoad.Loader.CheckVersion | drivers/scsi/qla2xxx/qla_init.c:5450-5463 | rejects exactly the images whose four version words are all zeros or all ones |
| FwLoad.Loader.LoadSegments | drivers/scsi/qla2xxx/qla_init.c:5466-5509 | both segments, each at its header address, with the size check before it |
| FwLoad.Loader.LoadBlob | drivers/scsi/qla2xxx/qla_init.c:5412-5513 | which error for which image; on success the stores are exactly the two swapped segments, and the start address is the first segment's, or the second's if that is zero |
| Fdmi.WalkReadsBlock | drivers/scsi/qla2xxx/qla_gs.c:1317-1461 | walking a block by its length fields gives back every type and value and ends where the block ends |
| Fdmi.AttributeStandsAt | drivers/scsi/qla2xxx/qla_gs.c:1317-1461 | attribute k begins at a multiple of four, behind the attributes before it |
| Fdmi.PaddedReads | drivers/scsi/qla2xxx/qla_gs.c:1330-1337 | a string field keeps a terminating zero inside its padding and reads back as the string |
| Fdmi.TextReads | drivers/scsi/qla2xxx/qla_gs.c:1330-1337 | what a reader sees is what the bounded print kept |
| Fdmi.CountsAreDeclared | drivers/scsi/qla2xxx/qla_gs.c:1318-1325 | the arguments read back: port name, for an adapter one port entry and its name, and a count that is the number of attributes in all four forms |
| Fdmi.FieldsReadBack | drivers/scsi/qla2xxx/qla_gs.c:1324-1325 | two- and four-byte fields read back as the number put in, the first byte counting most |
| Fdmi.CodesAre | drivers/scsi/qla2xxx/qla_def.h:2110-2188 | the attribute codes of all four forms, in order |
| Fdmi.HbaReadsBack | drivers/scsi/qla2xxx/qla_gs.c:1328-1392 | what the fabric reads of the adapter: node name, manufacturer, serial number, model and description |
| Fdmi.HbaVersionsReadBack | drivers/scsi/qla2xxx/qla_gs.c:1398-1455 | the hardware, driver, option ROM and firmware versions |
| Fdmi.HbaV2ReadsBack | drivers/scsi/qla2xxx/qla_gs.c:1888-1985 | what the second form adds: system, frame size, symbolic name, vendor and port numbers, fabric, boot code, vendor |
| Fdmi.PortReadsBack | drivers/scsi/qla2xxx/qla_gs.c:1540-1674 | what the fabric reads of the port: FCP alone among the protocols, speeds, frame size, device and host name |
| Fdmi.PortV2ReadsBack | drivers/scsi/qla2xxx/qla_gs.c:2261-2360 | what the second form adds: names, type, class, state, ports and address |
| Fdmi.Request.Store | drivers/scsi/qla2xxx/qla_gs.c:1317-1325 | an attribute extends the block, and the buffer behind it stays zero |
| Fdmi.Request.PutText | drivers/scsi/qla2xxx/qla_gs.c:1330-1337 | a string attribute relies on the zeroed buffer for its padding and never exceeds its field |
| Fdmi.Request.PutFields | drivers/scsi/qla2xxx/qla_gs.c:1317-1461 | a list of fields becomes exactly its attributes, in order |
| Fdmi.Request.Rhba | drivers/scsi/qla2xxx/qla_gs.c:1294-1461 | adapter registration, version 1 and 2 (lines 1714-1991): the command carries exactly the listed attributes and its size is the size reported |
| Fdmi.Request.Rpa | drivers/scsi/qla2xxx/qla_gs.c:1505-1670 | port registration, version 1 and 2 (lines 2083-2367): the same |
| Nvram.ChecksumIsUnique | drivers/scsi/qla2xxx/qla_attr.c:267-288 | two consistent images that agree outside the checksum field are equal |
| Nvram.ConsistentIsPlain | drivers/scsi/qla2xxx/qla_init.c:4910-4925 | an image is consistent if and only if its plain sum, of little-endian words or of bytes, is a multiple of the width |
| Nvram.Adapter.PatchWords | drivers/scsi/qla2xxx/qla_attr.c:267-275 | the 32-bit patch makes the sum zero and changes the last word only |
| Nvram.Adapter.PatchBytes | drivers/scsi/qla2xxx/qla_attr.c:276-287 | the 8-bit patch makes the sum zero and changes the last byte only |
| Nvram.Adapter.Configure | drivers/scsi/qla2xxx/qla_init.c:4910-4925 | the configuration-time test, also lines 2564-2578 for bytes, is the consistency of the image |
| Nvram.Adapter.WriteNvram | drivers/scsi/qla2xxx/qla_attr.c:250-309 | refused requests change nothing; otherwise the buffer becomes consistent, a consistent buffer is left alone, and the adapter gets the buffer |

## Left out

- RequestQueue.ReqQue.AllocAndStart: the entries the login, abort, marker, ELS and CT builders fill are given, all but the handle word of the first, which carries the bare handle; what else they write is not modelled, nor that the marker, abort and task-management builders put the queue number above the handle.
- RequestQueue.ReqQue.BuildScsi: only type, handle, counts and descriptors; addressing, tags, byte counts, timeouts and `entry_status` of the headers are not modelled. Without data the builders return early and one entry is published whatever was reserved.
- RequestQueue.ReqQue.StartIocbs: the doorbell writes, the 82xx variant and the FX00 continuation code are not modelled.
- DifCommand.StartDif: the CRC command entry is one arbitrary entry; tags, byte counts and the rest of the context are not modelled, nor the strip and insert operations without a host protection list. When the descriptor count does not have sixteen bits the contract says that a list overfills, and not what a reader then finds.
- RingSpec.FirmwareReadsWhatWasPublished: memory barriers are not modelled; a published entry is visible as a whole.
- DsdChain.BuildNoBundling: DMA mapping and pool allocation are parameters. A list written past its element goes on in the model; what the memory behind the element holds is not modelled.
- DsdChain.ChainWriter.Emit: the lists already linked when the pool runs dry are returned by the release path, which is not part of this model.
- DsdPool.GlobalPool.Submit: ring room, context memory and the CDB length check are one flag.
- Vport.StepKeepsInv: atomic operations are sequentially consistent; the `vport_lock` mutex between deleters is not modelled, which only allows more runs.
- Vport.WalkersStandOnTheList: covers the walks that hold the lock or a reference; `qla2x00_quiesce_io` (`qla_init.c` line 4466) walks the list with neither.
- Vport.CountedMoves: the two bsg paths that free an SRB without lowering the count are a step of their own that remembers the loss.
- LoopId.Adapter.ClearLoopId: the source clears a bit even for an identifier beyond the map; in the model that changes no bit.
- LoopId.Adapter.FabricLogin: replies are a list, and the result is None when it runs out; port type, classes, logout and device state are not modelled.
- FwDump.Dumper.Dump: words are in host order, the big-endian stores are not modelled; the register windows, the header fields other than the version, and the soft reset itself are not modelled. It covers the 25xx, 81xx and 83xx dumps; the contiguous part is also that of 24xx.
- FwDump.Dumper.DumpRam: the polling loop is one reply per chunk.
- The 83xx continuation after a failed reset (`qla_dbg.c` lines 2331-2334), which advances by bytes instead of words.
- FwDump.ChainFits: holds under conditions on the configuration (extra queues no longer than queue 0, headers within queue 0's share, at most 32 queue pairs, at most 64 event buffers), which the sizing does not check.
- FwLoad.Loader.LoadBlob: little-endian host; the mailbox command is an environment that stores the staged words or refuses; the header of the second segment is read without a check that it lies in the image, and is then whatever stands behind it; the 27xx dump template is not modelled.
- Fdmi.Request.Rhba: the formatted strings, speeds and names are parameters; the CT header and the reply are not modelled.
- Nvram.Adapter.WriteNvram: flash is assumed to return what was written; the identity and version tests beside the checksum are not modelled.
- The flash firmware loader, the 16-bit loader, sysfs attributes, BSG job handling, the 83xx inter-driver state handler and the DPC thread: easy members, or code that would only be environment here.
- Uniqueness of virtual-port identifiers under concurrent create and delete: the bit is cleared twice (`qla_attr.c` line 2165).
