# Verified models of the simulator

MGSim simulates a many-core chip: a kernel that runs processes in clock domains, the devices and
memories of the chip, and the programs that boot on it. This project models the parts of it that
carry state or a data structure with a simple meaning, and proves that meaning for all inputs, all
runs and all interleavings.

Code that works by changing things in place is modelled by classes, fields and loops, each proved
against a specification function or predicate. What the source promises is then proved about the
specification. Where the source meets an obvious property only sometimes, the exact condition is
proved instead.

| files | about |
|---|---|
| `PtIndex`, `PageTable`, `MissHandler`, `PageSession` | the manager's six-level page table: a radix tree of tables in physical memory, built from a bump allocator, read by an independent walk |
| `RomLayout`, `RomWriter`, `RomReader`, `RomText`, `RomImage`, `RomBoot` | the configuration ROM: a small linker on one side, boot code that only knows offsets on the other |
| `RpcChunks`, `RpcFetch`, `Rpc`, `RpcTimes`, `RpcDevice` | the RPC device: four queues, split-phase reads answered in any order, a hand-made sleep and wake-up, a write barrier, and when memory takes the writes |
| `Simulation`, `ClockQueue`, `MasterClock`, `RunList`, `TwoPhase`, `LinkedLists`, `Chains` | the kernel: the sorted clock list, run lists with activation counts, storages that change between cycles, the master frequency |
| `Arbitration`, `WritePorts` | ports: priority, turns, both, and two-level write arbitration |
| `BlobText`, `BlobIo`, `BitVectorText`, `ScalarText`, `TextForms` | the serialization language: printers and loaders |
| `SparseMemory`, `Reservations`, `OrderedKeys` | sparse memory as a flat array, and the map of reserved ranges |
| `FpuUnits`, `Fpu`, `BankSelectors` | pipelines of the floating point unit, and address hashing |
| `Arith`, `Bits`, `Options` | arithmetic on words, and options |

Heap structures follow one pattern: a class keeps a ghost value that its fields mirror, one
predicate for each field; lemmas are about the value, and small methods write one field each.

Where code and documentation disagree the code is followed: the bank folds do not use all bits of
an address (`BankSelectors.FoldUsesWholeAddress`, `BankSelectors.RestDoesNotCount`); the updates that
are to wake the initial processes before the first cycle find no clock due (`Simulation.Begin`); the
comment above the first mapping speaks of a
2 MiB page but a 4 KiB page is mapped (`PageTable.PageTableSet.InitPtSet`); the second argument of
an RPC is capped by the limit of the first (`RpcDevice.SecondSizeFits`); repetitions of a byte are counted
in a compact text from two bytes on, not from three (`TextForms.CompactForms`).

## Model

| member | source | states |
|---|---|---|
| PtIndex.KeyIsSum | manager/pt_index.c:3-19 | for a context below 2^18 and an address below 2^48 the key is address / 4096 plus context * 2^36: the two fields never overlap |
| PtIndex.SamePage | manager/pt_index.c:3-19 | two (context, address) pairs share the first levels of their path exactly if the contexts are equal and the addresses agree above the page offset |
| PtIndex.HighBitsMergeIntoContext | manager/pt_index.c:3-19 | address bits at 2^48 and above are or-ed into the context instead of being cut off |
| PtIndex.SamePath | manager/pt_index.c:74-78 | two keys with the same six 9-bit sections are the same key |
| PtIndex.WalkOffsetIsSection | manager/manager.c:107-121 | the shift the walk computes from the remaining length picks the same section as the builder's section number |
| PageTable.PointerRoundTrip | manager/pagetable.c:3-10 | a pointer survives a page-table entry exactly if it is 4 KiB aligned |
| PageTable.QuickLog2 | manager/PTBuilder.c:5-9 | position of the highest set bit of any number |
| PageTable.ReserveSize | manager/PTBuilder.c:13-16 | the initial reserve is 512 tables |
| PageTable.LinkTable | manager/PTBuilder.c:61-69 | linking a fresh zeroed table keeps the tree: disjoint aligned tables below next_table, each reached by exactly one path |
| PageTable.MapPage | manager/PTBuilder.c:47-58 | writing a leaf keeps the tree and adds exactly one page to what it maps |
| PageTable.LookupAfterWrite | manager/PTBuilder.c:37-72 | a new page answers for every key below its prefix; every other key keeps its answer |
| PageTable.AddressSeesPage | manager/PTBuilder.c:37-72 | the same for contexts and addresses and for all page sizes: exactly the addresses of the context inside the page see it |
| PageTable.ReserveAccounted | manager/PTBuilder.c:47-69 | tables used plus tables free stay 512 after a call exactly if the page does not overdraw the reserve, that is unless it is new and exactly the tables above its leaf are free; then the call still answers 1 and the count of free tables wraps around |
| PageTable.MissingCounts | manager/PTBuilder.c:61-69 | the tables a call needs above its leaf are the levels of its path that have none yet |
| PageTable.LastTableOverdrawn | manager/PTBuilder.c:50-51 | a page of the greatest size overdraws a reserve that has no table left |
| PageTable.PageTableSet.Descend | manager/PTBuilder.c:59-69 | one level of the way down: a present entry is followed whether it is a table or a page, an absent one gets a table if the reserve has one; nothing else changes |
| PageTable.PageTableSet.ConstructPt | manager/PTBuilder.c:74-79 | the next table is zeroed and nothing below it changes |
| PageTable.PageTableSet.ReachTable | manager/PTBuilder.c:44-70 | the level loop above the leaf, for a key with no page above: follows or creates tables down to the leaf's table, keeps every mapping, and stops with 0 exactly when the reserve runs out |
| PageTable.PageTableSet.WriteEntry | manager/PTBuilder.c:37-72 | for a key with no page above: keeps the tree; answers -32, 0 or 1 exactly as what is there and the reserve decide; the abstract map of pages gains exactly this page on 1 and nothing otherwise |
| PageTable.PageTableSet.WalkPageTable | manager/manager.c:101-129 | on any tree and key returns what the abstract map of page prefixes gives, with its level and mapping; -16 is never returned |
| PageTable.PageTableSet.InitPtSet | manager/PTBuilder.c:12-28 | builds a tree that maps exactly one page, with 505 tables left |
| MissHandler.MissKeyIsBuilderKey | manager/manager.c:54-57 | the key of a miss is the key the builder would use |
| MissHandler.RequestParts | manager/MgtMsg.h:53-61 | a request that is the sum of its parts, each in its place, gives each part back |
| MissHandler.FieldsOf | manager/MgtMsg.h:53-86 | the bit fields as quotients and remainders of the word |
| MissHandler.HandleMiss | manager/manager.c:36-94 | the message is rewritten in place, and both its words are stated in numbers: the walk is for the context in bits 28-43 and the reply goes to the caller in bits 48-63 of the request; the reply is of type 3 with the same line index, bit 27 says whether a page is there, bits 28-35 are the number of levels walked less 4, and then bit 36 is read and bit 37 write for data, or bit 36 execute for instructions; all other bits stay |
| PageSession.FoundAbove | manager/manager.c:101-129 | what the walk finds tells exactly whether a page lies above a path |
| PageSession.RoomIsEnough | manager/PTBuilder.c:37-72 | with as many tables free as the path is long, a call takes what it needs from the reserve and no more |
| PageSession.MapIfClear | manager/PTBuilder.c:37-72 | a call made after looking for a page above and for room keeps the tree, the sizes a refill can express, and tables used plus tables free at 512; it answers 1 or -32 |
| PageSession.MapPages | manager/PTBuilder.c:37-72 | the same over any run of calls: the pages afterwards are the old ones with those of the calls that succeeded, and a call only succeeds where nothing is mapped |
| PageSession.AddressAfterRun | manager/PTBuilder.c:37-72 | after any such run the last successful call whose page contains an address of its context answers for it; without one, the tables answer as before the run |
| PageSession.Session | manager/PTBuilder.c:12-28 | from initialization through any such run to a miss at any address: the reply says, bit by bit, what the last successful call whose page contains the address mapped, or the first page, or that nothing is there |
| RomLayout.OrderedKeys | sim/config.cpp:12-33 | the iteration order of the ordered containers: every key once, ascending |
| RomLayout.LastValueMeans | sim/config.cpp:133-143 | the value kept for an attribute is the last one registered |
| RomLayout.ValueOfMeans | sim/config.cpp:133-143 | the value of a registered object is that of its last property with the label |
| RomLayout.AttrsMean | sim/config.cpp:20-33 | a type has an attribute exactly if some object of the type has a value for it |
| RomWriter.CollectPropertiesByType | sim/config.cpp:9-34 | for every registry, the sorted attribute list of each type and the position of each attribute in it |
| RomWriter.FillSlots | sim/config.cpp:129-143 | slot by slot, the last value given to each attribute of the type |
| RomWriter.Emitter.Patch | sim/config.cpp:236-245 | every reference word is overwritten with the place of what it refers to, and no other word changes |
| RomWriter.EmitAttrTables | sim/config.cpp:84-109 | appends exactly the attribute-table blocks, for the types that have attributes |
| RomWriter.EmitObjects | sim/config.cpp:111-169 | appends exactly the object blocks, in object order |
| RomWriter.EmitSymbols | sim/config.cpp:197-231 | appends exactly the symbol blocks, with packed characters |
| RomWriter.GetConfWords | sim/config.cpp:36-248 | the words produced are the resolved block chain of the registry; what each word of it is stands in RomImage |
| RomReader.FollowVisitsBlocks | programs/mtconf.c:257-257 | following the next words from offset 1 visits exactly the emitted blocks in order and stops at the zero tag |
| RomReader.ChainOfRegistry | sim/config.cpp:36-248 | the same for the image of any registry that fits 32 bits |
| RomReader.LinkLeadsTo | sim/config.cpp:236-245 | a reference is resolved to the payload of a block that defines it |
| RomReader.RefPayload | sim/config.cpp:236-245 | each symbol, attribute-table and object reference leads to the block made for that name |
| RomReader.SymbolReads | programs/mtconf.c:259-259 | what lies behind a symbol reference is the text of that symbol |
| RomReader.AttrTableReads | programs/mtconf.c:269-276 | an attribute-table reference leads to the count and the symbols of the type's attributes |
| RomReader.TypeTableReads | programs/mtconf.c:263-270 | the first block lists every type's symbol and attribute table, 0 for a type without attributes |
| RomReader.ObjectReads | programs/mtconf.c:302-324 | payload[1+2j+1] of an object is the last value registered for the j-th attribute of its type |
| RomImage.KindsOfBlocks | programs/mgsim.h:64-73 | following the next words one meets, behind the magic number 0x53474d23, a block tagged 1 with the types, one tagged 2 for each type with attributes, one tagged 4 for each object, one tagged 3, and one tagged 5 for each string |
| RomImage.ListsMean | sim/config.cpp:9-34 | the types listed are those of the objects, the attributes of a type the labels that its objects use, the objects all of them; each once and in ascending order |
| RomImage.StringImage | sim/config.cpp:197-231 | behind a string reference: tag 5, the length in 32 bits, and the characters four to a word from the low end, up to the first above 127 |
| RomImage.TypesImage | sim/config.cpp:59-109 | of each type the name, and 0 or a block tagged 2 with the number of its attributes, its own number, and their names |
| RomImage.ObjectImage | sim/config.cpp:111-121 | the first word of an object is the place of its type among the types |
| RomImage.PropertyImage | sim/config.cpp:146-166 | the two words of an attribute are 0 and 0 without a value, 1 and 0 for void, 2 and a reference to the string, 3 and the place of the block of the object, 4 and the number |
| RomImage.RawImage | sim/config.cpp:172-195 | the raw configuration: tag 3, the number of entries, and references to the key and the value of each |
| RomText.TextWordExact | sim/config.cpp:221-228 | a packed word holds its four characters exactly if no character above 127 spills over a following one |
| RomText.TextReadsExactly | sim/config.cpp:213-228 | the words of a stored string read back as its bytes exactly where no character spills |
| RomText.TextReads | sim/config.cpp:213-228 | a stored string reads back character by character and zero-terminated |
| RomText.PrefixReads | sim/config.cpp:213-228 | any stored string reads back up to and including its first character above 127 |
| RomText.AsciiIsPlain | sim/config.cpp:213-228 | strings of 7-bit characters always read back |
| RomBoot.StrEq | programs/mtconf.c:271-297 | comparing any stored string without zeros with a literal succeeds exactly if the texts are equal, even where characters spill |
| RomBoot.ScanAttrs | programs/mtconf.c:274-297 | for each wanted name, the first attribute with that name, or -1 |
| RomBoot.TableInImage | programs/mtconf.c:269-276 | the attribute table of a type, as the code finds it, lies within the image exactly if the type has an attribute; for one without, the magic number is taken for the count |
| RomBoot.ReadTypes | programs/mtconf.c:263-301 | finds the system and cpu types, which are to have attributes, and the positions of their attributes |
| RomBoot.ReadAttrIsWord | programs/mtconf.c:307-324 | the word read for an attribute is the object's value; for a missing attribute the index wraps to the type number |
| RomBoot.WordTells | programs/mtconf.c:302-324 | what that word is, from the properties alone: the last value given under the name, 0 if only other objects of the type have one, and the number of the type if none has |
| RomBoot.ReadObject | programs/mtconf.c:302-349 | one object block changes the configuration as the registry says |
| RomBoot.SysConfInit | programs/mtconf.c:257-351 | booting from the image of any registry whose system and cpu types have attributes: the master frequency is what the first object of type "system" was last given as "masterfreq", and the core configuration what the first of type "cpu" with a frequency was last given as "freq", "threads" and "families"; without such an object, or with cores known already, nothing changes |
| RomBoot.BootedSystem | programs/mtconf.c:305-318 | the master frequency is that of the first system object, whatever follows |
| RomBoot.BootedCore | programs/mtconf.c:319-348 | the core configuration is that of the first core whose frequency is not 0xFFFFFFFF |
| RpcChunks.ChunksPartition | arch/dev/RPC.cpp:199-204 | transfers are non-empty, stay inside one line and partition the area |
| RpcChunks.NextAligned | arch/dev/RPC.cpp:355-356 | every transfer but the first starts on a line boundary |
| RpcFetch.RespondKeeps | arch/dev/RPC.cpp:466-497 | any response, in any order, keeps: each byte asked for is in its buffer, as memory held it at some moment since the fetch began, or on its way |
| RpcFetch.LostIsNotStored | arch/dev/RPC.cpp:473-497 | with overlapping areas, the bytes called lost are stored by no response to any transfer |
| RpcFetch.AllFetched | arch/dev/RPC.cpp:459-508 | when all is answered, every byte of argument 1 is one that memory held at its address during the fetch, and so is every byte of argument 2 unless it is lost |
| RpcFetch.LostExactly | arch/dev/RPC.cpp:473-497 | overlapping areas lose a byte exactly if the first byte past the end of area 1 is lost |
| RpcFetch.SomeByteIsLost | arch/dev/RPC.cpp:473-497 | areas [0, 4) and [0, 16) lose byte 4 |
| RpcFetch.MemoryChangeKeeps | arch/dev/RPC.cpp:459-508 | memory may change at any time during a fetch |
| RpcFetch.DisjointLosesNothing | arch/dev/RPC.cpp:468-471 | disjoint areas lose nothing |
| Rpc.FrontFinalize | arch/dev/RPC.cpp:237-267 | with nothing outstanding, every planned read was made, and each byte forwarded is one that memory held at its address while the request was at the front or, if it is lost, what the buffer held before |
| Rpc.SteadyArguments | arch/dev/RPC.cpp:237-267 | if the argument areas did not change meanwhile, and pass the test for lost bytes, the service gets them as they are in memory |
| Rpc.SteadyWork | arch/dev/RPC.cpp:162-447 | then the bus work before the notification is that of the service's results for these arguments |
| Rpc.WritesCarry | arch/dev/RPC.cpp:331-389 | the write requests of a result carry its bytes, each once, to consecutive addresses |
| Rpc.CarriedToMemory | arch/dev/RPC.cpp:331-389 | performing them leaves exactly the result in memory |
| Rpc.BarrierComesLast | arch/dev/RPC.cpp:313-430 | a response with a result ends with one barrier and its answer after all of its writes; one without has no bus work |
| Rpc.InOrder | arch/dev/RPC.cpp:162-447 | every notification sent is that of an accepted request, in order and without gaps, after that request's own bus work; no request is lost or doubled |
| RpcTimes.TakenGives | arch/dev/RPC.cpp:331-389 | an address that only the writes of some bus work have changed since a moment holds what they made of it |
| RpcTimes.BusWorkGives | arch/dev/RPC.cpp:313-430 | performing the bus work of a response changes memory to the second result, the first where that does not lie over it, and nothing else |
| RpcTimes.ResultInMemory | arch/dev/RPC.cpp:309-430 | once memory has taken the writes of a response, an address that nothing else has changed since before them holds the byte of the result, or what it held before outside the result areas |
| RpcTimes.ServiceInMemory | arch/dev/RPC.cpp:273-430 | what a client finds: if its argument areas held some bytes while they were fetched, and lost none, then after its writes were taken the result areas hold what the service makes of these bytes and the extra arguments, the second result over the first, and none at address 0 |
| RpcTimes.TimesTaken | arch/dev/RPC.cpp:354-373 | the taking of a write keeps the order of all times: each after the fetch of its request and after those before it |
| RpcDevice.LatchReadsBack | arch/dev/RPC.cpp:553-597 | a register read gives what was last written to that word, the sizes capped, and a write changes no other word |
| RpcDevice.LatchDetermined | arch/dev/RPC.cpp:655-690 | the words read determine the latch |
| RpcDevice.SecondSizeFits | arch/dev/RPC.cpp:569-569 | the second size fits its buffer for every write exactly if the first buffer's limit does; otherwise a write of that limit to word 7 exceeds it |
| RpcDevice.Device.OnWriteRequest | arch/dev/RPC.cpp:519-600 | word 0 issues the command, unless the flag has been updated in this cycle, when the command is dropped without an error; the others change the latch; the word number wraps at 32 bits; unaligned, wrong-sized and unknown words are errors that change nothing |
| RpcDevice.Issue | arch/dev/RPC.cpp:519-600 | what a client does: after each part of a request was written last to its own word, in any order, and then word 0, exactly that request is queued, with its sizes cut to the limit of the first buffer |
| RpcDevice.Device.OnReadRequest | arch/dev/RPC.cpp:607-723 | answers, if the network takes the answer, with the word of the latch, the flag, the limits, or the number of entries and the size of each queue, by the number of the register; unaligned, wrong-sized and unknown words are errors |
| RpcDevice.Device.DoQueue | arch/dev/RPC.cpp:162-172 | the latched command joins the incoming queue if there is room, and if it is the first its stretch of fetching begins now; otherwise nothing that was asked for or noted changes |
| RpcDevice.Device.DoArgumentFetch | arch/dev/RPC.cpp:174-270 | one step of the fetch stage, which is awake in the last state exactly if no read is pending: it asks for the next transfer of the front request and for nothing else, or forwards the request with what was fetched from the moment it reached the front until now, when the next one reaches the front |
| RpcDevice.Device.OnReadResponse | arch/dev/RPC.cpp:449-511 | an answer to any outstanding read, with data of any moment since the request reached the front, keeps the invariant, and nothing but that read is taken off the log; the pending count never underflows and the last answer wakes the stage |
| RpcDevice.Device.OnBarrierResponse | arch/dev/RPC.cpp:449-458 | an answer, which comes once memory has taken the writes before the barrier, only ever meets the state the source asserts; it alone notes the answer and wakes the stage |
| RpcDevice.Device.OnMemoryWrite | arch/dev/RPC.cpp:354-373 | memory takes the next write that was sent: the present moment is noted for it, and memory is what it was overlaid with the data |
| RpcDevice.Device.DoProcessRequests | arch/dev/RPC.cpp:273-307 | the service is called with the procedure, the limits of both results, both arguments and both extra arguments, in this order, and its results are queued with the addresses, tag and channel of the request |
| RpcDevice.Device.DoWriteResponse | arch/dev/RPC.cpp:309-430 | one step of the writeback stage: it sends exactly the next write or barrier of the plan and never notes an answer or the taking of a write itself; after the barrier it sleeps; it queues the notification only when the bus work is complete, no barrier is out, and memory has taken every write |
| RpcDevice.Device.DoSendCompletionNotifications | arch/dev/RPC.cpp:432-447 | the oldest notification is sent or kept |
| RpcDevice.Run | arch/dev/RPC.cpp:162-511 | over any schedule of steps, answers and changes of memory, the device's own writes included: notifications in queue order, one each, after the request's own writes and barrier, whose data the service made of bytes that memory held while the request was fetched; requests are fetched one after the other, each after it was accepted; the writes of each were taken by memory one by one, after its fetch and after those of the requests before it; as many answers to barriers are noted as were given; every request accounted for |
| ClockQueue.NextTickIsLeast | sim/kernel.cpp:306-306 | the activation time is the least multiple of the period after now |
| ClockQueue.FinishedOnTicks | sim/kernel.cpp:247-275 | after a cycle every waiting clock waits for one of its own ticks, and time has advanced |
| ClockQueue.RunsOnOwnTicks | sim/kernel.cpp:123-275 | over any run time strictly advances and a clock only runs at multiples of its period |
| ClockQueue.BusyClockRunsEveryTick | sim/kernel.cpp:252-275 | a clock that stays busy is next run exactly one period later, and no cycle steps over that tick |
| ClockQueue.Kernel.FindPlace | sim/kernel.cpp:309-314 | the first clock in the list that is not due before a time, and its predecessor |
| ClockQueue.Kernel.ActivateClock | sim/kernel.cpp:301-319 | the sorted intrusive list gains exactly this clock at its next tick, unless it is on it already |
| ClockQueue.Kernel.FinishCycle | sim/kernel.cpp:251-275 | all clocks that ran leave the list, exactly those with active processes or storages to update return one period later, the others stay, and time moves to the earliest; the assertion that time advances holds |
| ClockQueue.Kernel.AdvanceTime | sim/kernel.cpp:120-125 | time moves to the earliest clock, which is never in the past |
| MasterClock.ComputeGcd | sim/kernel.cpp:32-44 | Euclid's loop |
| MasterClock.Bezout | sim/kernel.cpp:32-44 | its result divides both numbers and is a combination of them |
| MasterClock.GcdIsGreatest | sim/kernel.cpp:32-44 | every common divisor divides it |
| MasterClock.LcmIsMultiple | sim/kernel.cpp:46-51 | a * b / gcd is a common multiple |
| MasterClock.LcmIsLeast | sim/kernel.cpp:46-51 | it divides every common multiple |
| MasterClock.Kernel.CommonMultiple | sim/kernel.cpp:74-87 | finds the clock of a frequency, or the least common multiple of it and all others |
| MasterClock.Kernel.CreateClock | sim/kernel.cpp:53-103 | one clock for each frequency; the master frequency is the least common multiple of all; period times frequency is the master frequency for every clock, old ones included |
| Chains.InsertLinked | sim/kernel.cpp:316-318 | linking an element between two neighbours of an intrusive list |
| Chains.RemoveLinked | sim/process.hpp:20-25 | unlinking any element of an intrusive list |
| RunList.CountedAfter | sim/storage.h:60-64 | when a storage fills or drains, one step of its process's count keeps every count right |
| RunList.RunListNotEmpty | sim/clock.hpp:43-58 | a clock has an active process exactly if some sensitive storage is occupied |
| RunList.Domain.Reasons | sim/storage.h:60-64 | the activation count of a process is the number of its storages that hold something: a set flag, a full register, a buffer or list with an item |
| RunList.Domain.ActivateProcess | sim/clock.hpp:43-58 | the count goes up; the process is linked exactly when it was zero |
| RunList.Domain.DeactivateProcess | sim/process.hpp:13-27 | the count goes down; the process is unlinked exactly when it reaches zero |
| RunList.Domain.RegisterUpdate | sim/storage.hpp:28-34 | a storage joins the update list of its clock, once |
| RunList.Domain.Request | sim/storage.hpp:28-34 | an operation is accepted or refused by the state of the storage, changes nothing visible before the end of the cycle, puts the storage on the update list once, and keeps all counts |
| RunList.Domain.UpdateSimple | sim/flag.cpp:6-16 | flags and registers: the new content, and the count of the process moved by exactly the change in occupation |
| RunList.Domain.UpdateBuffer | sim/buffer.hpp:10-41 | the same for a buffer, with any number of pushes and a pop |
| RunList.Domain.UpdateList | sim/linkedlist.hpp:10-38 | the same for a linked list |
| RunList.Domain.UpdateStorages | sim/kernel.cpp:326-332 | for one clock: every storage with a pending change is updated exactly once and no other; afterwards each process counts its occupied storages and is linked exactly once if there are any |
| RunList.Domain.InitFlag | sim/flag.cpp:25-37 | a flag constructed set has its set state pending |
| RunList.Domain.Run | sim/kernel.cpp:110-335 | after any run of operations and ends of cycles every storage holds what the accepted operations asked for, every process counts its occupied storages, and all lists are well linked |
| RunList.UpdateListNotEmpty | sim/clock.hpp:24-31 | a clock has a storage on its update list exactly if something is asked of one |
| RunList.Domain.Awaits | sim/storage.hpp:28-34 | a storage is on the update list exactly if a change of it is pending: an update of the flag, a write or clear, a push, append or pop |
| Simulation.BusyAre | sim/kernel.cpp:262-266 | the clocks kept on the queue are exactly those with an occupied or pending storage |
| Simulation.Ask | sim/clock.hpp:24-31 | an operation on a storage of any domain puts the storage on its update list and its clock on the queue, once each, and touches no other domain |
| Simulation.InitFlag | sim/flag.cpp:25-37 | a flag constructed set is pending and its clock is on the queue |
| Simulation.RequestArbitration | sim/arbitrator.hpp:11-18 | an arbitrator that is asked puts its clock on the queue, and nothing else changes |
| Simulation.QuietWorld | sim/kernel.cpp:105-125 | with an empty queue and storages that neither hold nor await anything, everything that holds over a run holds |
| Simulation.Start | sim/kernel.cpp:105-125 | a new kernel over idle clocks starts that way at time 0 |
| Simulation.UpdateStorages | sim/kernel.cpp:321-335 | walks the queue and updates the pending storages of exactly the clocks that are due now; the clock of a process that wakes is activated already |
| Simulation.Begin | sim/kernel.cpp:112-125 | time moves to the first clock; the updates before the first cycle change nothing |
| Simulation.EndCycle | sim/kernel.cpp:223-275 | updates, rescheduling and the move of time together take one step of the abstract machine of schedules and contents |
| Simulation.EndedOk | sim/kernel.cpp:247-275 | after it every clock with an active process or a pending storage is scheduled on one of its own ticks, and time has advanced |
| Simulation.Run | sim/kernel.cpp:105-335 | any run over any number of domains follows the abstract machine step by step |
| Simulation.PendingUntilTick | sim/kernel.cpp:321-335 | what is asked of a storage waits for the next tick of its own clock, and time does not pass over that tick |
| Simulation.UpdatedAtTick | sim/kernel.cpp:321-335 | at the end of a cycle a pending storage is updated exactly if its clock is due |
| Simulation.EmptyQueueIsIdle | sim/kernel.cpp:234-244 | when no clock is scheduled no storage anywhere holds or awaits anything |
| TwoPhase.RequestedIsLegal | sim/buffer.hpp:84-123 | an accepted operation leaves the storage legal, pending, and looking as before |
| TwoPhase.Perform | sim/flag.hpp:15-53 | the operations of flags, registers, buffers and lists are accepted and recorded as the laws below take them to be |
| TwoPhase.FlagCycle | sim/flag.hpp:15-53 | after a cycle a flag is what the first operation made it, and every other operation of the cycle is refused |
| TwoPhase.RegisterCycle | sim/register.hpp:25-90 | after a cycle a register holds what was written, cleared or not, is empty if only cleared, and is as it was otherwise; it can be written once and, if full, cleared once |
| TwoPhase.ListCycle | sim/linkedlist.hpp:10-98 | after a cycle a list has lost its head if popped and gained the chain appended, in whatever order |
| TwoPhase.BufferCycle | sim/buffer.hpp:10-123 | after a cycle a buffer has lost its front if popped and gained the items taken; a push is taken exactly if as many places are left as it wants and the pushes of the cycle are not used up |
| TwoPhase.BufferIsFifo | sim/buffer.hpp:10-52 | over any run, what is popped is a prefix of what was accepted, and a buffer never exceeds its size |
| LinkedLists.JoinThreaded | sim/linkedlist.hpp:24-34 | storing the head of one chain behind the tail of another joins them |
| LinkedLists.LinkedList.Append | sim/linkedlist.hpp:70-82 | a chain is queued for the end of the cycle |
| LinkedLists.LinkedList.Pop | sim/linkedlist.hpp:84-98 | a pop is queued, and the successor remembered |
| LinkedLists.LinkedList.Update | sim/linkedlist.hpp:10-38 | in place in the table: the list becomes what stays plus the appended chain, also when the last item goes; notifies and unnotifies accordingly; only the old tail's entry changes |
| LinkedLists.UpdateAll | sim/kernel.cpp:321-335 | lists that share a table: at the end of a cycle each is updated as if it were alone, and all stay well threaded |
| LinkedLists.LinkedList.Walk | sim/linkedlist.hpp:144-153 | the iterator gives the items in order; with a pop pending, if the head's entry still leads to the second item |
| Arbitration.TurnsIsDistance | sim/ports.cpp:132-144 | the modular distance is the number of turns to wait, and adding it to the last winner gives the process |
| Arbitration.LoserMovesUp | sim/ports.cpp:106-149 | a requester that loses has strictly fewer turns to wait |
| Arbitration.BoundedWaiting | sim/ports.cpp:157-228 | whoever requests in every round wins within as many rounds without priority requests as there are cyclic processes |
| Arbitration.RunPort | sim/ports.cpp:40-228 | over any run of requests and arbitrations: in each round with a request the requests are exactly those made by processes of the port, a priority process that asks wins by its place, and a cyclic process that asks in every round has won after as many rounds without priority requests as there are cyclic processes |
| Arbitration.CyclicWaiting | sim/ports.cpp:106-149 | in a purely cyclic port, within as many rounds as there are processes |
| Arbitration.PickFirst | sim/ports.cpp:77-88 | the requester with the lowest position, if any has one |
| Arbitration.PickNext | sim/ports.cpp:120-144 | the requester whose turn comes first, never the last winner while another asks |
| Arbitration.Port.AddRequest | sim/ports.cpp:40-56 | a process is listed once however often it asks |
| Arbitration.Port.ArbitratePriority | sim/ports.cpp:65-93 | the winner asked and no one before it in the list did; requests are consumed |
| Arbitration.Port.ArbitrateCyclic | sim/ports.cpp:106-149 | the winner asked and no one between the last winner and it, going round, did; it is remembered |
| Arbitration.Port.ArbitratePriorityCyclic | sim/ports.cpp:157-228 | a priority process that asked wins if none before it did, without disturbing the turns; otherwise as cyclic |
| WritePorts.ChosenOnce | sim/ports.h:420-442 | no two ports are chosen for an index |
| WritePorts.ChosenForIndex | sim/ports.h:420-442 | an index that is asked for has a chosen port exactly if one of its ports has a priority |
| WritePorts.WritePort.Request | sim/ports.h:552-556 | a process is registered once and its index recorded, over the one of an earlier request |
| WritePorts.WritePort.RequestDedicated | sim/ports.h:675-690 | the process of a dedicated port and its index are registered |
| WritePorts.WritePort.Arbitrate | sim/ports.h:583-596 | the port asks for the index of the process it picked |
| WritePorts.Structure.CollectRequests | sim/ports.h:410-418 | the ports grouped by the index they ask for, none left out |
| WritePorts.Structure.PickPort | sim/ports.h:423-438 | the earliest port of a group in the priority list |
| WritePorts.Structure.Decide | sim/ports.h:420-442 | every request is consumed and answered by priority; ports without one are untouched |
| WritePorts.Structure.OnArbitrate | sim/ports.h:401-443 | after both levels no port holds a request, so the next one meets its assertion; of the ports that asked for an index exactly the earliest is chosen |
| WritePorts.Structure.EarliestIsChosen | sim/ports.h:420-442 | a port that asked is chosen exactly if it has a place in the priority list and no port before it asked for the same index |
| WritePorts.Structure.OneWriter | sim/ports.h:562-690 | no two processes may both write the same index in a round, through arbitrated or dedicated ports |
| WritePorts.Structure.SomeWriter | sim/ports.h:401-443 | an index that is asked for has a writer exactly if one of the ports that ask for it has a priority |
| WritePorts.Structure.WritesOwnIndex | sim/ports.h:583-596 | a process of an arbitrated port writes the index it asked for itself |
| WritePorts.Structure.Round | sim/ports.h:401-690 | over a whole round, from any requests to the answers: each process with access to its port has a request taken, and a later one in another cycle replaces its index; whoever may write asked last for that index in this round, no index has two writers, and each port with a request comes out asking for an index, which has a writer if the port has a priority |
| BlobText.ReadDecimal | sim/serializationlanguage.cpp:435-436 | a printed number reads back, whatever digits follow are added to it |
| BlobText.LoadCompactItem | sim/serializationlanguage.cpp:171-220 | the text of one string, zero run, byte or repetition takes the loader exactly as many bytes further |
| BlobText.RoundTrip | sim/serializationlanguage.cpp:151-222 | loading any printed byte string, compact or not, gives it back and leaves what follows; an empty one leaves its blank |
| BlobIo.QuotedLength | sim/serializationlanguage.cpp:176-189 | how far a quoted string goes |
| BlobIo.RenderBinaryData | sim/serializationlanguage.cpp:151-222 | the printing loops, with their look-ahead for strings, zero runs and repetitions, produce the text that the round trip is about |
| BlobIo.LoadString | sim/serializationlanguage.cpp:424-430 | the string loop, including a text that ends inside a string |
| BlobIo.LoadRepeat | sim/serializationlanguage.cpp:432-453 | skip, position, zero and repeat, with the number wrapped to 64 bits |
| BlobIo.LoadBinaryData | sim/serializationlanguage.cpp:383-468 | on any text the loader terminates, although +N@ moves back, and gives exactly what reading the text item by item gives: it fails, or succeeds with the buffer filled as far as the text goes and leaves the rest |
| BlobIo.Reload | sim/serializationlanguage.cpp:151-468 | printing and loading, into a buffer of any contents, restores the bytes |
| TextForms.DecimalForm | sim/serializationlanguage.cpp:151-156 | numbers are printed in decimal digits without leading zeros |
| TextForms.NumberForm | sim/serializationlanguage.cpp:432-437 | digits are read as the number they stand for, up to what is no digit |
| TextForms.ByteForm | sim/serializationlanguage.cpp:455-462 | two hexadecimal digits, small or capital, are a byte |
| TextForms.BinaryForm | sim/serializationlanguage.cpp:414-422 | a star, binary digits and a point are the byte of the last eight of them |
| TextForms.StringForm | sim/serializationlanguage.cpp:424-430 | characters in double quotes are those bytes, if there is room, and an error otherwise |
| TextForms.RepeatForm | sim/serializationlanguage.cpp:432-453 | +N. skips, +N@ goes to a place of the buffer, +Nz writes zeros, +Nr repeats the last byte, as far as there is room; N counts in 64 bits, and any other letter is an error |
| TextForms.BlankForm | sim/serializationlanguage.cpp:411-412 | blanks and underscores mean nothing |
| TextForms.WrongForm | sim/serializationlanguage.cpp:464-466 | any other character is an error |
| TextForms.CompactForms | sim/serializationlanguage.cpp:200-219 | compact, a run of n > 1 zeros is +nz, of other bytes the byte and +(n-1)r, unless a string starts there |
| TextForms.StringPrinted | sim/serializationlanguage.cpp:171-199 | compact, in front of three printable bytes that are not alike a string is printed, as far as bytes are printable and no three are alike |
| TextForms.PlainForm | sim/serializationlanguage.cpp:166-221 | otherwise each byte is two digits, with an underscore in front of every eighth |
| BitVectorText.RoundTripBits | sim/serializationlanguage.cpp:102-134 | loading any printed bit vector gives it back and leaves what follows |
| BitVectorText.RenderBitVector | sim/serializationlanguage.cpp:102-134 | the printing loop, with its look-ahead for runs, produces the text that the round trip is about |
| BitVectorText.LoadBitVector | sim/serializationlanguage.cpp:471-517 | the same for bit vectors, on any text |
| TextForms.BitForm | sim/serializationlanguage.cpp:510-511 | 0 and 1 are a bit |
| TextForms.BitRunForm | sim/serializationlanguage.cpp:497-508 | +N. is as many set bits and -N. as many clear ones, as far as there is room |
| TextForms.BitsPrinted | sim/serializationlanguage.cpp:102-134 | compact, three or more bits alike are a sign and their number; otherwise each is a digit, and not compact an underscore comes in front of every eighth |
| ScalarText.StoredWidened | sim/serializationlanguage.cpp:237-248 | all-ones of a narrow type, widened to 64 bits, stores back as all-ones |
| ScalarText.RoundTripInteger | sim/serializationlanguage.cpp:233-363 | an integer of any width, printed either way and followed by a blank or the end, loads back and leaves exactly the rest |
| ScalarText.RoundTripBoolean | sim/serializationlanguage.cpp:224-320 | the same for booleans |
| TextForms.ValueIs | sim/serializationlanguage.cpp:237-250 | the bytes of an integer count from the lowest, for every width of a machine |
| TextForms.IntegerPrinted | sim/serializationlanguage.cpp:233-263 | all ones of any width count as all ones of 64 bits; compact, numbers below ten are one digit and all ones is -1; all else is 0x and hexadecimal digits |
| TextForms.IntegerLoaded | sim/serializationlanguage.cpp:322-363 | a word in decimal, octal behind 0 or hexadecimal behind 0x is stored, cut to the width; beyond 64 bits it is an error |
| TextForms.NegativeLoaded | sim/serializationlanguage.cpp:322-363 | behind a minus sign the negative number is stored, in two's complement; below the least of 64 bits it is an error |
| TextForms.BooleanLoaded | sim/serializationlanguage.cpp:308-320 | yes, true and 1, no, false and 0 are read whatever their case, and nothing else |
| SparseMemory.ReadIsFlat | arch/VirtualMemory.cpp:145-184 | a read that starts on a block boundary or stays in one block returns the flat memory |
| SparseMemory.ReadIffInStep | arch/VirtualMemory.cpp:165-183 | exactly those reads are right for all memory contents: any other runs past the end of its first block when that exists |
| SparseMemory.VirtualMemory.Read | arch/VirtualMemory.cpp:145-184 | the loop over existing and missing blocks: flat memory for a read in step; for any other, the parts it copies or its running past the end of a block |
| SparseMemory.VirtualMemory.WriteBlock | arch/VirtualMemory.cpp:212-218 | the unmasked bytes of one block's part, and no others |
| SparseMemory.VirtualMemory.Write | arch/VirtualMemory.cpp:186-227 | the flat memory changes in exactly the unmasked bytes; blocks stay aligned, exactly the touched ones exist afterwards, and the allocated total is their size |
| SparseMemory.VirtualMemory.Session | arch/VirtualMemory.cpp:145-227 | after any masked writes a read gives for each byte what the last write that reaches it unmasked put there, or 0 |
| Reservations.TotalWithout | arch/VirtualMemory.cpp:95-97 | the sum of sizes does not depend on the order of removal |
| Reservations.NeighboursDecide | arch/VirtualMemory.cpp:36-55 | the neighbours of an address alone decide whether a range is free |
| Reservations.HolderIsUnique | arch/VirtualMemory.cpp:67-77 | at most one reservation holds a non-empty stretch |
| Reservations.RangeMap.Reserve | arch/VirtualMemory.cpp:32-65 | succeeds exactly if no address is taken; ranges stay disjoint, totals right |
| Reservations.RangeMap.Unreserve | arch/VirtualMemory.cpp:79-98 | succeeds exactly for a whole reservation |
| Reservations.RangeMap.UnreserveAll | arch/VirtualMemory.cpp:100-115 | exactly the owner's ranges go |
| Reservations.RangeMap.GetReservationRange | arch/VirtualMemory.cpp:67-77 | finds a range exactly if some reservation holds the whole query |
| Reservations.RangeMap.CheckPermissions | arch/VirtualMemory.cpp:131-143 | true exactly if the holding reservation allows the access; for an empty stretch that is the last one to start at or before it |
| FpuUnits.WordsHoldBits | arch/FPU.cpp:172-181 | the registers of a result together hold its bits |
| FpuUnits.AdvancedOk | arch/FPU.cpp:205-251 | ages fall from front to back and stay within the latency; a unit that is not pipelined holds one slot at most |
| FpuUnits.AcceptedOk | arch/FPU.cpp:271-289 | a unit that has accepted takes no other operation before it moves on |
| FpuUnits.AdvancedLogOk | arch/FPU.cpp:205-251 | operations complete in issue order, each having written each of its registers once, ascending |
| FpuUnits.RegistersWritten | arch/FPU.cpp:148-195 | the k-th register of the m-th operation completed got the bits from 32 k on, at the k-th address from its own, behind the registers of all operations before it |
| FpuUnits.OnTime | arch/FPU.cpp:199-289 | an operation alone in its unit is worked on for as many cycles as the latency says and then leaves it register by register, one in a cycle |
| FpuUnits.KeepsDistance | arch/FPU.cpp:205-251 | in a cycle all operations of a unit get one cycle older or, while a result takes several registers or cannot be written, none does |
| Fpu.FPU.OnCompletion | arch/FPU.cpp:148-195 | a register is written exactly if no other unit has tried to write to the source in the cycle and the client accepts |
| Fpu.FPU.AdvanceUnits | arch/FPU.cpp:199-252 | all units move on; exactly those with a finished result write, whose client accepts and whose source no earlier unit has a result for; each keeps its invariant and its log |
| Fpu.FPU.IssueFrom | arch/FPU.cpp:255-299 | the front operation of a source is issued exactly if the unit that the mapping gives for its kind and the source can accept it, and leaves the queue then |
| Fpu.FPU.IssueAll | arch/FPU.cpp:255-302 | in turns from the last source on: a source issues exactly if its unit can accept and no source before it has an operation for the same unit; all else stays |
| Fpu.FPU.DoPipeline | arch/FPU.cpp:197-311 | one cycle as a whole: which results are written and which operations issued, exactly, and the turn moves on by one; the unit stays active exactly if work is left, and it reports success exactly if a pipeline moved on or an operation was issued |
| Fpu.FPU.Run | arch/FPU.cpp:95-311 | over any run of cycles, with operations queued in between: each operation a source queued waits in order or was issued once, to its own unit, and each unit completes what it accepted in order; no source has two writes in a cycle, and nothing written or accepted is undone |
| BankSelectors.PowerOfTwoIs | sim/log2.h:6-9 | the bit trick tells exactly the powers of two |
| BankSelectors.Ilog2 | sim/log2.h:15-28 | the least power of two not below a number |
| BankSelectors.ShrIsDiv | arch/BankSelector.cpp:116-120 | the shift is the division |
| BankSelectors.AndIsMod | arch/BankSelector.cpp:116-120 | the mask is the remainder |
| BankSelectors.MakeDirect | arch/BankSelector.cpp:246-249 | the fast form is chosen exactly for powers of two and does the same as the slow one |
| BankSelectors.MakeSelector | arch/BankSelector.cpp:241-258 | the selector for each name, none for an unknown one |
| BankSelectors.UnmapMap | arch/BankSelector.cpp:94-102 | with the direct selector, mapping what was unmapped gives tag and bank back |
| BankSelectors.MapUnmap | arch/BankSelector.cpp:94-234 | unmapping what was mapped gives the address back, with every selector without a loop; the fast direct one does what the slow one does |
| BankSelectors.BankIsOfDigits | arch/BankSelector.cpp:73-187 | the bank is the lowest digit of the address in base n, with addition the sum of the two lowest modulo n, and with exclusive or and a power of two that of the two lowest |
| BankSelectors.RightXorSpreads | arch/BankSelector.cpp:161-165 | with a power of two of banks, an aligned block of as many lines goes to different banks |
| BankSelectors.RightAddSpreads | arch/BankSelector.cpp:179-183 | the same with addition, for any number of banks |
| BankSelectors.DigitsOfAddress | arch/BankSelector.cpp:198-209 | the digits a fold visits, with the rest above them, make up the address |
| BankSelectors.FoldUsesWholeAddress | arch/BankSelector.cpp:190-209 | a fold leaves no rest exactly if the address is below the number of banks, although the comment says all bits are used |
| BankSelectors.RestDoesNotCount | arch/BankSelector.cpp:198-209 | putting any of 2 to n in place of the rest of an address leaves the digits visited, and so the bank, as they are |
| BankSelectors.SameBankTwice | arch/BankSelector.cpp:198-209 | with four banks 8 and 16 get the same bank |
| BankSelectors.MapAddFold | arch/BankSelector.cpp:223-234 | the loop ends and gives the sum of the digits visited modulo the number of banks |
| BankSelectors.MapXorFold | arch/BankSelector.cpp:198-209 | the loop ends and gives the exclusive or of what it visits modulo the number of banks; for a power of two, that of the digits |

## Left out

- PageTable.PageTableSet.WriteEntry: requires that no page is mapped above the key, because the code follows a present entry without looking whether it is a table (manager/PTBuilder.c:59), as `PageTable.PageTableSet.Descend` states, and then writes into the page; and that there is memory for the tables taken, because the leaf takes one without testing the reserve (manager/PTBuilder.c:50-51).
- PageTable.PageTableSet.ReachTable: requires that no page is mapped above the key, for the same reason; one level without that is `PageTable.PageTableSet.Descend`.
- PageTable.PageTableSet.WalkPageTable: the length is fixed at the 54 bits its only caller passes.
- MissHandler.HandleMiss: sending the reply is a parameter; requires pages of the three sizes that the table field can express, which is what the assertion at manager/manager.c:79 needs; invalidations and printing are not modelled.
- RomWriter.GetConfWords: the three maps of back references and the three of places are one map keyed by kind and name; raw configuration strings are taken as memoized.
- RomReader.ObjectReads: images are assumed to have fewer than 2^32 - 1 words.
- RomBoot.SysConfInit: requires that the system and cpu types have an attribute, because the code reads past the image for a type without, as `RomBoot.TableInImage` states; boot messages and the warning about cores that differ are not modelled.
- RomBoot.ReadTypes: requires the same; for a type without, `RomBoot.TableInImage` states where the code looks.
- RpcFetch.AllFetched: addresses do not wrap, and all devices see one memory.
- RpcDevice.Run: the queues change at once instead of between cycles, a step is one commit of a process, and the first buffer's limit does not exceed the second's, which is what `RpcDevice.SecondSizeFits` needs. The network is taken to answer a read from memory as it was at one moment since the request reached the front, to take the device's writes in order, and to answer a barrier after the writes before it. Whether the flag has been updated in the cycle of a register write is a choice of each step.
- Rpc.CarriedToMemory: the two result areas are written one after the other, the second over the first where they overlap.
- ClockQueue.Kernel.FinishCycle: the end-of-run cycle limit, suspension, display and the stop of an idle simulation are not modelled; that an arbitrator puts its clock on the queue is a step of `Simulation.Run`, but the list of a clock's arbitrators, which is emptied within the cycle, is not modelled.
- RunList.Domain.UpdateStorages: one clock with its processes and storages; all clocks together are in `Simulation`. A request must meet the assertions of the source, and a buffer is only popped when it holds something. The acquire and check phases, which change nothing, are not modelled.
- RunList.Domain.Run: one clock, and only the updates at the end of a cycle; the schedule of all clocks is in `Simulation.Run`.
- MasterClock.Kernel.CreateClock: products do not overflow, and clocks are created before the simulation starts.
- LinkedLists.LinkedList.Update: requires that the appended chain does not share an index with what stays on the list; several lists on one table own different entries.
- Arbitration.Port.ArbitratePriorityCyclic: a process is in one of the two lists, and no process is listed twice.
- Arbitration.RunPort: for ports with a cyclic process; a round in which nobody asks leaves no trace in the run.
- WritePorts.Structure.OnArbitrate: read ports, which are plain priority ports, are not repeated; the process of a dedicated port is given when the port is made.
- BlobIo.LoadBinaryData: the size in front of a text has no sign; characters are those of the C locale.
- ScalarText.RoundTripInteger: variables are stored lowest byte first; floating-point text is left to the C library and not modelled.
- SparseMemory.VirtualMemory.Read: addresses do not wrap; a read past the end of a block is a failure here and undefined in the source.
- Reservations.RangeMap.Reserve: addresses do not wrap; an exception is a false result.
- Fpu.FPU.DoPipeline: operations carry the bits of their result, registers are 32 bits wide, clients accept or refuse each write as they like, input queues have no bound, the first cycle is 1, and the acquire phase is not modelled.
- BankSelectors.MapXorFold: additions do not wrap; the rotating selector is not modelled.
- Command line, monitor, statistics, displays, host devices, ELF and ROM loading: user interface, host calls or table lookups.
- Process bodies other than those named above, exceptions' texts and debug output.
- Storage traces: their checks are compiled out in the source.
