# Verification of esprit

A model, in Dafny 4.11, of the parts of the esprit runtime that are algorithms rather than register accesses, with proofs
of what they promise. `dafny verify dfyconfig.toml` checks all of it.

| files | what they model |
|---|---|
| `Common` | integer widths, `Option`, and pieces laid end to end |
| `NvmLayout`, `NvmLog`, `NvmRecovery`, `NvmBytes`, `NvmStore`, `NvmRun` | NeVerMind, the key/value store in flash: its byte layout and scanning loops, the log as a list of slots and the map it stands for, power loss, the same in plain bytes, the store object, whole runs |
| `EventGroup` | `lnFastEventGroup`: one waiting task, any number of setters in tasks and interrupts |
| `RingBuffer`, `SerialTx` | the byte ring and the serial transmitter that DMA drains from it |
| `RttWrite` | the log channel shared with a debug probe |
| `I2cTransmit` | the I2C master sending a list of segments |
| `DhcpCodec`, `DhcpClient` | DHCP messages and the client's state machine |
| `UsbPma`, `UsbRegisters`, `UsbTransfer` | USB packet memory, endpoint registers, transfers |
| `FlashProgram` | programming flash at any address |
| `Ws2812` | LED frames streamed from a ping-pong buffer |

## How the models are built

An object whose methods change its fields is a class with those fields. What the hardware or another task does between
two steps is an operation of its own (`Interrupts`, `Probe`, `HalfSent`, `HostFetches`, `MoveByDma`), so that every
interleaving is a sequence of operations; where several parties run side by side (`EventGroup`, `SerialTx`,
`DhcpClient`) there is also a state machine on values and the results are about all its runs.

NeVerMind keeps the flash as a sequence of sectors of 1024 bytes. The device programs half-word after half-word in the
order of `lnFMC::write`, refuses a half-word that is neither erased nor written to zero, and erases a sector in one
step. `history` records the image after each of these steps, without gaps (`NvmStore.TraceMeans`), so "power is lost at
any point" is "for every image in `history`". A method that reports success has therefore kept to programming each
half-word once. What a log keeps is its list of live records, oldest first; `GoodImage(image, records, writable)` says
that a fresh object mounts this image with these records and can or cannot write, `GoodMeans` spells this out with the
scanning functions, and `NvmBytes` says in plain bytes what these functions find. Payload padding is modelled as the
code leaves it: the byte that follows the data in the caller's buffer, and after garbage collection whatever the scratch
buffer held.

Where a debug probe or completion interrupts come in between the steps of a call, what they do is a `plan`, and the
contracts hold for every plan and say how often it gets a turn. Constants, bit masks, byte orders and field layouts are
told in numbers by lemmas named `...ByNumber`, `...Bits` or `...Means`, which use none of the functions they are about.

## Where the code does not do what one would expect

* The README of NeVerMind allows ids from 1 to 65535. A complete entry for a new id is found again exactly when the id is
  below 65535 and the size stored rounds to at most 64 (`NvmLog.NewIdIsFoundIff`); an entry with id 65535 also hides every
  entry behind it (`NvmLog.LastIdHidesTheRest`).
* A power loss between validating a new entry and killing the old one leaves two live entries. From then on a write of
  that id is not what is read back: it is exactly when the id had at most one live entry (`NvmLog.ReadAfterWriteIff`).
  Over any run there is at most one such entry more for each power loss in a write of the id
  (`NvmRun.CountGrowsByLosses`).
* A power loss right after the first half-word of a header leaves a store that can be read but never again written; it is
  the only flash step of a write that fits with this effect (`tear` in `NvmStore.Nvm.Write`).
* `write` does not look for room again after garbage collection. A restarted store can write after it exactly if the
  entry fits behind the live ones with its end below offset 1014, which can be told from the log before the call: that is
  `Fits`, and the equivalence is part of `NvmStore.Nvm.Write`, as is what happens otherwise, even if the payload runs
  into the next sector. `NvmLog.FourteenFill` is a log on which every write ends like this. For a log without
  duplicates the room needed is that of the map (`NvmLog.LiveFootprint`).
* A second `begin` on the same object keeps the old write index when it finds a torn log (`NvmStore.Nvm.Begin`).
* The ring's constructor accepts a size of zero (`RingBuffer.Ring.constructor`), and consuming more than there is makes
  an almost full ring of it (`RingBuffer.Ring.Consume`).
* A blocking `transmit` makes progress on a full ring exactly when the ring has at least two slots and no callback is
  registered (`SerialTx.FullRingDrainsIff`, `SerialTx.TxOnlyBufferedDma.TakeSemaphore`).
* The retry counter of the DHCP client is not reset when a lease is renewed: the client fails at the second timeout since
  it left IDLE, whatever happened in between (`DhcpClient.FailsAtTheSecondTimeout`). And a renewal asks for the address
  of the last OFFER, which is the leased one exactly if the ACK assigned it (`DhcpClient.RenewalAsksForTheLeaseIff`).
* Setting the status of a USB endpoint goes wrong when a packet changes it between the read and the write. It cannot
  exactly if the status was read while quiet: not VALID, and with no SETUP packet possible that would change it
  (`UsbRegisters.QuietStatusIsSet`, `UsbRegisters.OtherwiseStatusIsLost`).
* The USB receive handler does not compare a packet with what is left of the buffer, and the controller is armed in whole
  blocks. No host can make it store behind the buffer exactly if the last packet fills whole blocks; endpoint 0, always
  armed for a whole packet, needs whole packets (`UsbTransfer.SafeFromEveryHostIff`).
* `lnFMC::write` of no bytes at an odd address programs two (`FlashProgram.Flash.Write`).

## Model

| member | source | states |
|---|---|---|
| NvmStore.Nvm.constructor | libraries/NeVerMind/nvmCore.cpp:29-35 | a fresh object over any flash content knows no sector and no write index |
| NvmStore.Nvm.EraseSector | libraries/NeVerMind/gd32/nvm_gd32.cpp:37-42 | one step that makes one sector all ones |
| NvmStore.Nvm.WriteSector | libraries/NeVerMind/gd32/nvm_gd32.cpp:51-56 | succeeds exactly if every half-word is erased or written to zero; leaves one image for each half-word programmed |
| NvmStore.Nvm.WriteOn | libraries/NeVerMind/gd32/nvm_gd32.cpp:51-56 | a write that runs past the end of its sector succeeds exactly if there is a next sector and all of it can be programmed there; at every step only bytes from its offset on and the sector behind have changed |
| NvmStore.Nvm.Zero | libraries/NeVerMind/nvmCore.cpp:328-343 | programming a half-word to zero always succeeds, in one step |
| NvmStore.Nvm.ReadSector | libraries/NeVerMind/gd32/nvm_gd32.cpp:65-71 | copies exactly the bytes asked for |
| NvmStore.Nvm.SetSectorState | libraries/NeVerMind/nvmCore.cpp:365-383 | only erased to prepared and prepared to active are written, each as one half-word |
| NvmStore.Nvm.PrepareSector | libraries/NeVerMind/nvmCore.cpp:353-358 | an erased sector marked prepared, whatever was there |
| NvmStore.Nvm.SanityCheck | libraries/NeVerMind/nvmCore.cpp:78-127 | fails exactly if there is no sector or the bytes 4 to 11 of it are zero; the write index becomes the end the scan finds, if it finds one |
| NvmStore.Nvm.Begin | libraries/NeVerMind/nvmCore.cpp:50-75 | on any flash content: succeeds exactly if some sector has bytes 0 to 3 zero and a byte among 4 to 11 that is not, mounts the lowest such sector, and of those below it blanks the ones whose first twelve bytes are zero; the write index of a fresh object is zero or the end the scan finds; on an image that holds a log it finds exactly that log and changes nothing, and the object is then consistent exactly if the log is not torn or its write index was zero |
| NvmStore.Nvm.Format | libraries/NeVerMind/nvmCore.cpp:132-150 | from any flash content an empty, writable store in sector 0; cut short when no sector was active, begin still finds none |
| NvmStore.Nvm.FindEntry | libraries/NeVerMind/nvmCore.cpp:159-196 | finds what the recursive reading of the sector bytes finds, which `NvmBytes.FindMeansIff` tells on plain bytes |
| NvmStore.Nvm.Read | libraries/NeVerMind/nvmCore.cpp:204-224 | on any bytes delivers what lies behind the header that is found, if its size is the one asked for; on a consistent store succeeds exactly for an id of the map with the size of its value, and delivers that value |
| NvmStore.Nvm.WriteHeader | libraries/NeVerMind/nvmCore.cpp:313-321 | the header behind the log; the first image keeps the records and is read-only; with room the others keep them and can be written, without room they have a log that is jammed |
| NvmStore.Nvm.WritePayload | libraries/NeVerMind/nvmCore.cpp:322-326 | the payload behind its header, with or without room; it fails only if it has to leave the sector |
| NvmStore.Nvm.Validate | libraries/NeVerMind/nvmCore.cpp:327-333 | makes the new slot live, with room or without |
| NvmStore.Nvm.AddEntry | libraries/NeVerMind/nvmCore.cpp:312-334 | header, payload and `validated` one after the other: the new live slot, or the payload that could not be written |
| NvmStore.Nvm.FinishWrite | libraries/NeVerMind/nvmCore.cpp:335-343 | killing the first live slot of the id, if there is one, completes the write |
| NvmStore.Nvm.AppendEntry | libraries/NeVerMind/nvmCore.cpp:312-345 | with room the log becomes that of a complete write and every image on the way has the records before, with both values, or after; without, every image from the second on is read-only for good |
| NvmStore.Nvm.CopyEntry | libraries/NeVerMind/nvmCore.cpp:457-479 | an entry copied behind what the other sector holds, which stays not active throughout |
| NvmStore.Nvm.CopyLive | libraries/NeVerMind/nvmCore.cpp:413-483 | the other sector ends up with exactly the live slots, in order; no other sector changes |
| NvmStore.Nvm.SwitchSectors | libraries/NeVerMind/nvmCore.cpp:486-492 | the filled sector activated, the old one erased: every image keeps the records, and the new sector is the lowest active one |
| NvmStore.Nvm.GarbageCollection | libraries/NeVerMind/nvmCore.cpp:408-496 | the live slots in the next sector, the old sector erased, the new one the lowest active one; every image on the way keeps the records and a writable store |
| NvmStore.Nvm.WriteChecked | libraries/NeVerMind/nvmCore.cpp:293-345 | with or without garbage collection first, a write of the same log, or one that does not fit it; below nine tenths of the sector it appends in place |
| NvmStore.Nvm.CollectAndAppend | libraries/NeVerMind/nvmCore.cpp:294-345 | in a sector nine tenths full: the live entries move to the next sector and the new one follows them |
| NvmStore.Nvm.Write | libraries/NeVerMind/nvmCore.cpp:271-346 | refuses exactly id 0, an unmounted and a torn store; afterwards a fresh object can write exactly if the entry fits behind the live ones; if it fits, a map update that survives a power loss at every step, with one step that leaves the store read-only; if not, read-only from that step on, with the other ids as before; below nine tenths of the sector the entry lies at the write index, byte by byte, and no other sector changes; from there on the next sector becomes the current one and, if the entry fits, the one before is blank; every step on the way is one operation of the device |
| NvmStore.HasEntryMeans | libraries/NeVerMind/nvmCore.cpp:312-333 | the eight header bytes of a complete entry, one by one, and its payload |
| NvmStore.TraceMeans | libraries/NeVerMind/gd32/nvm_gd32.cpp:37-56 | the history of the object leaves no operation of the device out |
| NvmStore.DeviceStepMeans | libraries/NeVerMind/gd32/nvm_gd32.cpp:37-56 | an operation makes one sector all ones, or changes two neighbouring bytes that were erased or become zero |
| NvmStore.GoodFromMeans | libraries/NeVerMind/nvmCore.cpp:271-346 | begin succeeds on each image of such a write, every id reads as in one of the lists of records, and there is a write index exactly if the step is not the tearing one |
| NvmStore.ReadOnlyMeans | libraries/NeVerMind/nvmCore.cpp:271-346 | and of a write that does not fit: begin succeeds, there is no write index, and the other ids read as before |
| NvmBytes.StateBytes | libraries/NeVerMind/nvmCore.cpp:389-403 | the four bytes of an erased, a prepared and an active sector |
| NvmBytes.BootBytes | libraries/NeVerMind/nvmCore.cpp:50-75 | which sector begin mounts and which it blanks, in bytes |
| NvmBytes.RoundupMeans | libraries/NeVerMind/nvmCore.cpp:293 | the size is rounded up to an even number of which the low byte is left |
| NvmBytes.ScanMeansIff | libraries/NeVerMind/nvmCore.cpp:88-123 | on any bytes: sanityCheck finds the end of the log at a place exactly if a walk over entries that are not all zero and at most 64 long leads to an erased id there, below 1014 |
| NvmBytes.FindMeansIff | libraries/NeVerMind/nvmCore.cpp:159-196 | on any bytes: findEntry finds an id at a place exactly if a walk over entries that are sound and not live with that id leads to one that is |
| NvmBytes.LogIsBytes | libraries/NeVerMind/nvmCore.h:24-33 | a sector holds a list of slots exactly if from byte 4 on the bytes of their entries follow end to end |
| NvmBytes.HoldsBytesIff | libraries/NeVerMind/nvmCore.h:24-33 | an image holds a log exactly if this is so in the lowest sector that begins with four zeroes, and behind it, below 1014, there is nothing or a lone id |
| NvmBytes.LookupMeansIff | libraries/NeVerMind/nvmCore.cpp:178-187 | what a log says of an id is the payload of the first entry with it whose state is erased and whose `validated` is zero |
| NvmBytes.WrittenBytes | libraries/NeVerMind/nvmCore.cpp:312-345 | one write puts the entry behind the log, zeroes the two state bytes of the entry found for the id before, and changes no other byte of the sector |
| NvmLog.WriteKeepsOtherIds | libraries/NeVerMind/nvmCore.cpp:271-346 | whatever the log, a write leaves the other ids and their live counts alone |
| NvmLog.ReadAfterWriteIff | libraries/NeVerMind/nvmCore.cpp:312-345 | the new entry is the one found exactly if the id had at most one live entry before |
| NvmLog.WriteIsWritten | libraries/NeVerMind/nvmCore.cpp:271-346 | a complete write updates the map at one id and keeps a duplicate-free log duplicate-free |
| NvmLog.RecordsSayAll | libraries/NeVerMind/nvmCore.cpp:159-196 | the list of live records determines what every id reads, how many live entries it has and the room garbage collection needs |
| NvmLog.WrittenRecords | libraries/NeVerMind/nvmCore.cpp:312-345 | a complete write takes out the oldest record of the id and appends the new one |
| NvmLog.PutCounts | libraries/NeVerMind/nvmCore.cpp:312-345 | which leaves other ids alone and an id without duplicates with exactly the new value |
| NvmLog.KilledRecords | libraries/NeVerMind/nvmCore.cpp:335-343 | zeroing the state of the first live entry of an id takes out its oldest record |
| NvmLog.DeadSlotIsInvisible | libraries/NeVerMind/nvmCore.cpp:178-187 | an entry not validated does not change the map |
| NvmLog.ValidatedBesideOld | libraries/NeVerMind/nvmCore.cpp:327-343 | between validating and killing the old value is still read, and the id has one live entry more |
| NvmLog.CollectedKeepsContents | libraries/NeVerMind/nvmCore.cpp:424-483 | copying the live entries keeps the map and the live count of every id |
| NvmLog.CollectedRecords | libraries/NeVerMind/nvmCore.cpp:424-483 | garbage collection keeps every record and their order |
| NvmLog.CollectThenWrite | libraries/NeVerMind/nvmCore.cpp:294-345 | collecting and then writing is as good as writing |
| NvmLog.LiveFootprint | libraries/NeVerMind/nvmCore.cpp:422-483 | after collecting a duplicate-free log the write index is 4 plus what the entries of the map take |
| NvmLog.LiveSlotsTakeLess | libraries/NeVerMind/nvmCore.cpp:422-483 | collecting never moves the write index up |
| NvmLog.FourteenFill | libraries/NeVerMind/nvmCore.cpp:293-312 | fourteen values of the largest size can be stored, and then no write fits; one more of that size would pass the end of the sector |
| NvmLog.ScanFindsEnd | libraries/NeVerMind/nvmCore.cpp:88-123 | sanityCheck finds the end of the log exactly if there is no torn header and the end lies below 1014 |
| NvmLog.TornTail | libraries/NeVerMind/nvmCore.cpp:109-114 | a torn header hides the end from sanityCheck and nothing from findEntry |
| NvmLog.FindPassesLog | libraries/NeVerMind/nvmCore.cpp:159-196 | findEntry finds the first live entry of the id, or goes on behind the log |
| NvmLog.FindFindsFirst | libraries/NeVerMind/nvmCore.cpp:159-196 | findEntry finds the first live entry of the id and nothing else |
| NvmLog.NewIdIsFoundIff | libraries/NeVerMind/nvmCore.cpp:271-321 | an entry for a new id, of any 32-bit id and size, is found again exactly if the id is below 65535 and the stored size rounds to at most 64 |
| NvmLog.LastIdHidesTheRest | libraries/NeVerMind/nvmCore.cpp:173-174 | an entry with id 65535 hides every entry behind it, and a restarted store takes it for the end of the log |
| NvmLog.AppendedLog | libraries/NeVerMind/nvmCore.cpp:312-334 | bytes that make a whole entry behind the log append that entry and disturb no other |
| NvmLog.KilledLog | libraries/NeVerMind/nvmCore.cpp:335-343 | zeroing the state of one entry kills it and disturbs no other |
| NvmLog.OneLog | libraries/NeVerMind/nvmCore.h:24-33 | the bytes of a sector determine the log and whether it is torn |
| NvmRecovery.HeldIsRead | libraries/NeVerMind/nvmCore.cpp:50-127 | a fresh object mounts the lowest active sector, finds the end of its log unless torn, and reads what the log says |
| NvmRecovery.GoodMeans | libraries/NeVerMind/nvmCore.cpp:50-127 | a good image means: begin succeeds on it, every id reads from the raw bytes as in the records, and there is a write index exactly if it is writable |
| NvmRecovery.GoodOnce | libraries/NeVerMind/nvmCore.cpp:159-224 | the flash bytes determine the records and whether the store can be written |
| NvmRecovery.FoundInLog | libraries/NeVerMind/nvmCore.cpp:204-224 | findEntry succeeds exactly for the ids of the map, at an entry with the value's size and bytes |
| NvmRecovery.HeaderTorn | libraries/NeVerMind/nvmCore.cpp:312-321 | a header cut after one half-word is torn, whether or not the entry fits |
| NvmRecovery.HeaderCut | libraries/NeVerMind/nvmCore.cpp:312-321 | a header cut later is a dead entry |
| NvmRecovery.HeaderJams | libraries/NeVerMind/nvmCore.cpp:312-321 | a header without room behind it, cut later, jams the log |
| NvmRecovery.JammedIsReadOnly | libraries/NeVerMind/nvmCore.cpp:50-127 | with a jammed log begin succeeds, finds no write index, and every other id reads as before |
| NvmRecovery.StaysJammed | libraries/NeVerMind/nvmCore.cpp:322-333 | no later step of the write, in this sector or the next, changes that |
| NvmRecovery.PayloadCut | libraries/NeVerMind/nvmCore.cpp:322-326 | a payload cut anywhere is a dead entry |
| NvmRecovery.ValidateCut | libraries/NeVerMind/nvmCore.cpp:327-333 | cut after `validated` the entry is live |
| NvmRecovery.KillCut | libraries/NeVerMind/nvmCore.cpp:335-343 | cut after `state` the old entry is dead |
| NvmRecovery.BuildingIsInvisible | libraries/NeVerMind/nvmCore.cpp:416-483 | while the next sector is prepared and filled begin still mounts the current one |
| NvmRecovery.BothActive | libraries/NeVerMind/nvmCore.cpp:486-492 | with two active sectors begin mounts the old log or, after the last sector, its copy in sector 0 |
| NvmRecovery.ActivatedGood | libraries/NeVerMind/nvmCore.cpp:486-492 | a power loss between activation and erasure keeps the map |
| NvmRecovery.OldErasedGood | libraries/NeVerMind/nvmCore.cpp:488-492 | after the erasure the copy is the lowest active sector and holds the same map |
| NvmRun.Run | libraries/NeVerMind/nvmCore.cpp:50-346 | any run of writes, reads, restarts, further begins and reformats within capacity, over any initial flash content, answers like a finite map |
| NvmRun.MapRunMeans | libraries/NeVerMind/nvmCore.cpp:50-346 | which means: a read delivers the last value put for its id since the last reformat, if it has the size asked for, and only a write of id 0 is refused |
| NvmRun.AllowedIff | libraries/NeVerMind/nvmCore.cpp:271-346 | within capacity means: ids below 65535, at most 64 bytes, and room for the map and the new value below 1014 |
| NvmRun.ReadAfresh | libraries/NeVerMind/nvmCore.cpp:50-224 | over any flash content, a fresh object begins and reads just as the raw reading of the bytes says |
| NvmRun.WriteAndLosePower | libraries/NeVerMind/nvmCore.cpp:50-346 | power lost after any number of steps of a write, on any log: the next object starts on the image after exactly that many steps and mounts with the records before, with both values or after, and it can write unless the step was the id of the header |
| NvmRun.RunWithLosses | libraries/NeVerMind/nvmCore.cpp:50-346 | any run of such writes, each with or without a power loss, over any initial flash content, is a run of this simple machine on records |
| NvmRun.RepresentsMeans | libraries/NeVerMind/nvmCore.cpp:204-224 | and what it keeps is what every id reads and how many live entries it has |
| NvmRun.StepCounts | libraries/NeVerMind/nvmCore.cpp:312-345 | an attempt changes no other id, and adds a live entry to its own only when cut short |
| NvmRun.CountGrowsByLosses | libraries/NeVerMind/nvmCore.cpp:312-345 | over any run the live entries of an id are at most one more than the power losses in its writes |
| NvmRun.OldOrNew | libraries/NeVerMind/nvmCore.cpp:271-346 | an id without duplicates reads the old or the new value after an attempt, and the new one if it was not cut short |
| NvmRun.ValuesWereWritten | libraries/NeVerMind/nvmCore.cpp:204-224 | over any run an id reads a whole value that was to be written for it |
| NvmRun.UncutIdsAreAsInAMap | libraries/NeVerMind/nvmCore.cpp:271-346 | an id none of whose writes is cut short reads its last value, whatever happens to the writes of others |
| EventGroup.FastEventGroup.SetEvents | src/lnFreeRTOS_pp.cpp:323-335 | adds the events, and asks for a notification exactly if the owner has left a mask that meets them |
| EventGroup.FastEventGroup.SetEventsFromIsr | src/lnFreeRTOS_pp.cpp:306-321 | the same from an interrupt, with the owner looked at after unlocking |
| EventGroup.FastEventGroup.WaitFirst | src/lnFreeRTOS_pp.cpp:349-360 | takes the events there are, or leaves its mask |
| EventGroup.FastEventGroup.WaitSecond | src/lnFreeRTOS_pp.cpp:367-374 | takes the events there are and withdraws its mask |
| EventGroup.FastEventGroup.ReadEvents | src/lnFreeRTOS_pp.cpp:383-396 | takes the events there are and leaves the mask |
| EventGroup.SettersOnBits | src/lnFreeRTOS_pp.cpp:304-396 | what each step of setters and readers does to value, mask and owner in the protocol: what the methods do |
| EventGroup.WaiterOnBits | src/lnFreeRTOS_pp.cpp:345-376 | and each step of the waiter |
| EventGroup.EnabledIff | src/lnFreeRTOS_pp.cpp:304-376 | when each step can be made |
| EventGroup.StepLosesNothing | src/lnFreeRTOS_pp.cpp:304-396 | every step of every party keeps the invariant of a blocked waiter |
| EventGroup.NoLostWakeup | src/lnFreeRTOS_pp.cpp:304-376 | after any interleaving a waiter blocked on a set bit has a notification counted or a setter on its way |
| EventGroup.WakeupStaysDue | src/lnFreeRTOS_pp.cpp:304-376 | in every continuation in which the waiter is still blocked the wakeup stays due, each step of the setter on its way brings it nearer and is possible, and after two a notification is counted that keeps the wait from timing out |
| EventGroup.SomebodyIsOnTheWay | src/lnFreeRTOS_pp.cpp:304-335 | a waiter blocked on a set bit has such a setter, or the notification |
| EventGroup.NotifiedStaysNotified | src/lnFreeRTOS_pp.cpp:363-374 | a notification taken ends the wait whatever others do before its last step, with the bits that are still there |
| EventGroup.WakeupArrives | src/lnFreeRTOS_pp.cpp:304-376 | there is always a continuation of at most four steps that hands the waiter all its bits |
| EventGroup.EventsAreConserved | src/lnFreeRTOS_pp.cpp:304-396 | after any interleaving a bit is pending exactly if it was set and not handed out since, and each time it was handed out it was pending |
| EventGroup.PendingMeansIff | src/lnFreeRTOS_pp.cpp:304-396 | pending means: some event sets the bit and none behind it hands it out |
| EventGroup.TimeOutClearsNothing | src/lnFreeRTOS_pp.cpp:363-366 | a timeout hands out nothing and leaves every event pending; a pending bit then has a setter on its way |
| RingBuffer.PowerOfTwoTest | include/lnRingBuffer.h:22 | the constructor's test on a positive size accepts exactly the powers of two |
| RingBuffer.MaskIsModulo | include/lnRingBuffer.h:71-74 | for a power of two masking with size minus one is the remainder |
| RingBuffer.Ring.constructor | include/lnRingBuffer.h:19-27 | an empty ring; of the sizes the test accepts only zero gives one that does not work |
| RingBuffer.Ring.Empty | include/lnRingBuffer.h:52-55 | whether the contents are empty |
| RingBuffer.Ring.Full | include/lnRingBuffer.h:62-65 | whether the contents are one byte fewer than the size |
| RingBuffer.Ring.Count | include/lnRingBuffer.h:71-74 | how many bytes the contents have |
| RingBuffer.Ring.Free | include/lnRingBuffer.h:80-83 | how many more bytes fit, one slot staying free |
| RingBuffer.Ring.Flush | include/lnRingBuffer.h:101-104 | an empty ring |
| RingBuffer.Ring.Consume | include/lnRingBuffer.h:116-120 | drops the oldest bytes; of more than there are, the count becomes the difference modulo the size |
| RingBuffer.Ring.GetReadPointer | include/lnRingBuffer.h:127-134 | the longest piece of the oldest bytes, empty only if the ring is |
| RingBuffer.Ring.GetWritePointer | include/lnRingBuffer.h:135-145 | the longest free piece, empty only if the ring is full |
| RingBuffer.Ring.Add | include/lnRingBuffer.h:228-232 | takes over bytes stored behind the newest |
| RingBuffer.Ring.Put | include/lnRingBuffer.h:154-186 | appends exactly the first min(n, free) bytes and disturbs none that are there |
| RingBuffer.Ring.Get | include/lnRingBuffer.h:194-225 | removes and delivers exactly the first min(n, count) bytes |
| SerialTx.StepIsExact | mcus/common_bluepill/lnSerialTxOnlyDmaBuffer.cpp:80-162 | every critical section and completion keeps sent, in flight and waiting bytes equal to what was accepted |
| SerialTx.ExactlyOnceInOrder | mcus/common_bluepill/lnSerialTxOnlyDmaBuffer.cpp:80-186 | over any interleaving nothing is lost, doubled or reordered, and DMA runs exactly while bytes wait |
| SerialTx.SentOnlyGrows | mcus/common_bluepill/lnSerialTxOnlyDmaBuffer.cpp:80-186 | what has been sent only grows and is a prefix of what was accepted |
| SerialTx.FullRingDrainsIff | mcus/common_bluepill/lnSerialTxOnlyDmaBuffer.cpp:146-153 | facing a full ring there is a DMA to wait for exactly if the ring has two slots or more |
| SerialTx.TxOnlyBufferedDma.IgniteTx | mcus/common_bluepill/lnSerialTxOnlyDmaBuffer.cpp:169-186 | starts a DMA on the oldest bytes |
| SerialTx.TxOnlyBufferedDma.TxDmaCb2 | mcus/common_bluepill/lnSerialTxOnlyDmaBuffer.cpp:80-100 | is the completion step; gives the semaphore or reports the end to the callback |
| SerialTx.TxOnlyBufferedDma.Offer | mcus/common_bluepill/lnSerialTxOnlyDmaBuffer.cpp:145-161 | is the writer's step; bytes under a running DMA stay as they are |
| SerialTx.TxOnlyBufferedDma.TakeSemaphore | mcus/common_bluepill/lnSerialTxOnlyDmaBuffer.cpp:149-152 | waiting ends exactly if the semaphore is there, or a DMA is running and no callback is registered |
| SerialTx.TxOnlyBufferedDma.TransmitNoBlock | mcus/common_bluepill/lnSerialTxOnlyDmaBuffer.cpp:108-131 | accepts a prefix and stops early only on a full ring, for any plan of completions in between |
| SerialTx.TxOnlyBufferedDma.WaitForRoom | mcus/common_bluepill/lnSerialTxOnlyDmaBuffer.cpp:145-153 | the wait of a writer facing a full ring ends exactly without a callback and with two slots or more |
| SerialTx.TxOnlyBufferedDma.Transmit | mcus/common_bluepill/lnSerialTxOnlyDmaBuffer.cpp:141-164 | accepts everything or waits for ever, for any plan of completions in between, and what was sent and what waits is what was accepted; it waits for ever only with a callback or one slot, and always with one slot |
| RttWrite.StageOne | libraries/ln-rtt/src/LN_RTT.cpp:78-84 | a byte stored behind the staged ones leaves the published ones alone |
| RttWrite.Channel.Probe | libraries/ln-rtt/src/LN_RTT.cpp:48-109 | a turn of the probe takes the oldest unread bytes, as many as planned or as there are |
| RttWrite.Channel.LookAtReadOffset | libraries/ln-rtt/src/LN_RTT.cpp:52-56 | the free space of one moment, no less later |
| RttWrite.Channel.CopyChunk | libraries/ln-rtt/src/LN_RTT.cpp:76-84 | stages a chunk with a turn of the probe between any two bytes |
| RttWrite.Channel.Publish | libraries/ln-rtt/src/LN_RTT.cpp:105-108 | makes what was staged readable |
| RttWrite.Channel.Write | libraries/ln-rtt/src/LN_RTT.cpp:48-109 | for any plan of the probe: accepts exactly min(size, free at the snapshot), and what the probe reads is always a prefix of what was accepted |
| I2cTransmit.TwoWire.constructor | private_include/lnI2C_impl.h:16-32 | sums the segment lengths |
| I2cTransmit.TwoWire.InitiateTx | mcus/common_bluepill/lnI2C_impl.cpp:467-492 | begins the segment under the cursor or finds everything sent |
| I2cTransmit.TwoWire.SendNext | mcus/common_bluepill/lnI2C_impl.cpp:498-517 | sends the next byte or moves on; false exactly when everything is sent |
| I2cTransmit.TwoWire.DmaTxDone | mcus/common_bluepill/lnI2C_impl.cpp:452-462 | goes on to the next segment or to the stop |
| I2cTransmit.TwoWire.IrqTx | mcus/common_bluepill/lnI2C_impl.cpp:686-744 | keeps the invariant, with the address byte after the start condition and the stop condition at the very end; every interrupt that is not spurious brings the end nearer |
| I2cTransmit.WireIsPrefix | mcus/common_bluepill/lnI2C_impl.cpp:451-516 | what has gone out is a prefix of the segments end to end |
| I2cTransmit.Deliver | mcus/common_bluepill/lnI2C_impl.cpp:442-516 | any event that can occur keeps the prefix and brings the end nearer unless spurious |
| I2cTransmit.BusIs | mcus/common_bluepill/lnI2C_impl.cpp:686-744 | the bus signal by signal, in every state |
| I2cTransmit.MultiWrite | mcus/common_bluepill/lnI2C_impl.cpp:308-341 | for any events in any order: the bus carries a start condition, the address byte of a write to the target once, and a prefix of the segments; on success all of them and then, if there was any byte, a stop condition, and otherwise none; success comes at the latest after as many effective events as bytes, twice the segments, and four, and so if all the hardware can produce is offered in turn often enough |
| DhcpCodec.OptionsRoundTrip | libraries/w5500/dhcp_w5500.cpp:281-300 | decoding an encoded list of options gives the list, whatever follows END |
| DhcpCodec.MessageRoundTrip | libraries/w5500/dhcp_w5500.cpp:320-425 | a message with a good header parses to the last option for each field |
| DhcpCodec.FieldsByNumber | libraries/w5500/dhcp_w5500.cpp:366-421 | which option number gives which field: 53 the type, 54, 1, 3 and 6 four bytes each, 51 a number, high byte first |
| DhcpCodec.LastOfMeansIff | libraries/w5500/dhcp_w5500.cpp:352-422 | the value that counts is that of an option with the tag behind which no other one is long enough |
| DhcpCodec.AcceptableByNumber | libraries/w5500/dhcp_w5500.cpp:323-350 | a message is looked at exactly if it has 240 bytes, the cookie 99 130 83 99 and the transaction id, high byte first |
| DhcpCodec.HeaderByNumber | libraries/w5500/dhcp_w5500.cpp:217-259 | the 240 bytes of the header of a request |
| DhcpCodec.OwnMessageRoundTrip | libraries/w5500/dhcp_w5500.cpp:217-300 | a message built by the client parses to the type and options it was built with |
| DhcpCodec.ParseReply | libraries/w5500/dhcp_w5500.cpp:320-425 | on any bytes the walk is the tag-length-value decoding; true exactly if cookie and transaction id match and a type is there |
| DhcpCodec.WalkOptions | libraries/w5500/dhcp_w5500.cpp:352-422 | the fields of the decoded list, skipping PAD and stopping at END or an option cut short |
| DhcpCodec.TakeOption | libraries/w5500/dhcp_w5500.cpp:368-420 | one option overrides its field if it is long enough |
| DhcpCodec.BuildHeader | libraries/w5500/dhcp_w5500.cpp:217-267 | the header bytes and the type option, nothing behind touched |
| DhcpCodec.AddOption | libraries/w5500/dhcp_w5500.cpp:281-287 | appends tag, length and data, and touches nothing else |
| DhcpCodec.FinishOptions | libraries/w5500/dhcp_w5500.cpp:297-300 | appends 255 |
| DhcpClient.Dhcp.constructor | libraries/w5500/dhcp_w5500.cpp:519-531 | the initial state, with a transaction id from the hardware address |
| DhcpClient.Dhcp.SendDiscover | libraries/w5500/dhcp_w5500.cpp:438-453 | the bytes sent are those of the DISCOVER |
| DhcpClient.Dhcp.SendReq | libraries/w5500/dhcp_w5500.cpp:462-482 | the bytes sent are those of the REQUEST for the offered address and server |
| DhcpClient.DiscoverByNumber | libraries/w5500/dhcp_w5500.cpp:438-453 | the bytes of a DISCOVER behind its header |
| DhcpClient.RequestByNumber | libraries/w5500/dhcp_w5500.cpp:462-482 | the bytes of a REQUEST behind its header |
| DhcpClient.Dhcp.Retry | libraries/w5500/dhcp_w5500.cpp:493-505 | is the timeout step of the state machine |
| DhcpClient.Dhcp.DhcpRun | libraries/w5500/dhcp_w5500.cpp:586-737 | one call is one step of the state machine, with the messages it sends, the assign callback on IP_ASSIGN and the conflict callback exactly on a NAK; what the step does is told in numbers by the lemmas below |
| DhcpClient.Dhcp.AwaitOffer | libraries/w5500/dhcp_w5500.cpp:620-658 | the step in DISCOVERING |
| DhcpClient.Dhcp.AwaitAck | libraries/w5500/dhcp_w5500.cpp:660-718 | the step in REQUESTING, with its callbacks; the fields taken are those of `DhcpClient.AckByNumber` |
| DhcpClient.Dhcp.TimeHandler | libraries/w5500/dhcp_w5500.cpp:570-573 | one more second, wrapping at 32 bits |
| DhcpClient.Dhcp.StopClient | libraries/w5500/dhcp_w5500.cpp:552-561 | back to IDLE |
| DhcpClient.Dhcp.InfoIfBound | libraries/w5500/dhcp_w5500.cpp:761-768 | the lease information, in BOUND only |
| DhcpClient.CallsByNumber | libraries/w5500/dhcp_w5500.cpp:586-737 | what a call does without a reply: the ten seconds, the second timeout, half the lease, and the transaction ids, in numbers |
| DhcpClient.OfferByNumber | libraries/w5500/dhcp_w5500.cpp:631-658 | a reply to a DISCOVER: address and server are taken from any, and type 2 is answered by a REQUEST |
| DhcpClient.AckByNumber | libraries/w5500/dhcp_w5500.cpp:672-718 | a reply to a REQUEST: each field is taken if it is there and kept if not, type 5 binds and type 6 starts again |
| DhcpClient.LeaseFromBytes | libraries/w5500/dhcp_w5500.cpp:320-425 | from the bytes of an ACK with mask, router, DNS server and lease time to the information given out |
| DhcpClient.RunsAreSafe | libraries/w5500/dhcp_w5500.cpp:586-737 | in every reachable non-idle state the retries are the timeouts and below the maximum, and the transaction id is that of the last message |
| DhcpClient.BoundOnlyByAck | libraries/w5500/dhcp_w5500.cpp:660-699 | BOUND is entered only from REQUESTING by an ACK with the transaction id of the last REQUEST |
| DhcpClient.RequestsWhatWasOffered | libraries/w5500/dhcp_w5500.cpp:620-731 | REQUESTING is entered only by an OFFER for the last DISCOVER, asking for the address offered, or when half of the granted lease is over |
| DhcpClient.DiscoversAreFresh | libraries/w5500/dhcp_w5500.cpp:493-717 | every DISCOVER, first, retried or after a NAK, carries the transaction id after that of the message before it |
| DhcpClient.OnlyOwnRepliesCount | libraries/w5500/dhcp_w5500.cpp:320-718 | a datagram of any kind makes a difference only in a waiting state, and only with the transaction id of the last message sent |
| DhcpClient.RenewalAsksForTheLeaseIff | libraries/w5500/dhcp_w5500.cpp:660-731 | a renewal asks for the leased address exactly if the ACK assigned the address its REQUEST had asked for |
| DhcpClient.AnyAddressIsAccepted | libraries/w5500/dhcp_w5500.cpp:660-731 | and an ACK of any address is accepted |
| DhcpClient.FailsAtTheSecondTimeout | libraries/w5500/dhcp_w5500.cpp:493-505 | failure is reported exactly at the second timeout since IDLE was left |
| DhcpClient.InfoIsTheLease | libraries/w5500/dhcp_w5500.cpp:761-768 | over all runs information is given out exactly in BOUND: the address the ACK assigned, and of router, mask, DNS server and lease what it carried, or else what there was before it |
| DhcpClient.RenewsAtHalfTheLease | libraries/w5500/dhcp_w5500.cpp:720-731 | over all runs a call in BOUND sends the REQUEST exactly if the lease is positive and half of it is over, and otherwise changes nothing |
| UsbPma.UsbDevice.CopyToSRAM | mcus/arm_gd32fx/src/lnUSBD.cpp:188-230 | the packet is the bytes, for any count and alignment: each half-word in the range is two neighbouring bytes, low one first, and no other changes |
| UsbPma.UsbDevice.CopyFromSRAM | mcus/arm_gd32fx/src/lnUSBD.cpp:128-180 | the bytes are the packet, for any count and alignment: low and high halves of the half-words in turn, and no other byte changes |
| UsbPma.HeldPacket | mcus/arm_gd32fx/src/lnUSBD.cpp:188-230 | half-words taken from bytes read back as those bytes |
| UsbPma.LoadedPacket | mcus/arm_gd32fx/src/lnUSBD.cpp:128-180 | bytes taken from half-words are the packet, the odd one included |
| UsbRegisters.EndpointRegister.SetEpStatus | mcus/arm_gd32fx/src/lnUSBD.cpp:320-340 | with any packets in between: no other bit changes, the status becomes the one asked for exactly if it did not change in between, and always if it was read while quiet |
| UsbRegisters.EndpointRegister.ClearTxRx | mcus/arm_gd32fx/src/lnUSBD.cpp:248-263 | with any packets in between: bit 7 cleared for transmit, bit 15 for receive, and no other bit |
| UsbRegisters.EndpointRegister.ClearDTG | mcus/arm_gd32fx/src/lnUSBD.cpp:344-364 | with any packets in between: no other bit changes, and the toggle is clear exactly if it did not change in between |
| UsbRegisters.StatusIsSetIff | mcus/arm_gd32fx/src/lnUSBD.cpp:320-340 | the write changes only the status of its direction, and sets it exactly if it did not change since the read |
| UsbRegisters.QuietStatusIsSet | mcus/arm_gd32fx/src/lnUSBD.cpp:320-340 | a status read while no packet can change it is set exactly, whatever comes in between |
| UsbRegisters.OtherwiseStatusIsLost | mcus/arm_gd32fx/src/lnUSBD.cpp:320-340 | otherwise one packet suffices to set a status nobody asked for |
| UsbRegisters.StalledBecomesDisabled | mcus/arm_gd32fx/src/lnUSBD.cpp:320-340 | an endpoint stalled just as its packet goes out ends up disabled |
| UsbRegisters.FlagIsCleared | mcus/arm_gd32fx/src/lnUSBD.cpp:248-263 | bit 7 or bit 15 is cleared and nothing else changes |
| UsbRegisters.ToggleIsFlipped | mcus/arm_gd32fx/src/lnUSBD.cpp:344-364 | the write flips bit 6 or bit 14 and changes nothing else |
| UsbRegisters.FlagsOfPackets | mcus/arm_gd32fx/src/lnUSBD.cpp:248-263 | from both flags clear, clearing transmit after a packet sent, or receive after one received or a SETUP, leaves both clear; with both raised each call leaves the other |
| UsbRegisters.TogglesOfPackets | mcus/arm_gd32fx/src/lnUSBD.cpp:344-364 | the data toggles cleared are those the packets of that direction flip |
| UsbRegisters.StatusBits | mcus/arm_gd32fx/src/lnUSBD.cpp:320-340 | with nothing in between the write replaces bits 4 and 5, or 12 and 13 |
| UsbRegisters.WrittenBits | private_include/lnUSBD_priv.h:71-102 | what the hardware makes of a write, field by field |
| UsbRegisters.SentBits | private_include/lnUSBD_priv.h:71-102 | what a packet sent does to the register, bit by bit |
| UsbRegisters.ReceivedBits | private_include/lnUSBD_priv.h:71-102 | and a packet received |
| UsbRegisters.SetupBits | private_include/lnUSBD_priv.h:71-102 | and a SETUP packet |
| UsbTransfer.PacketsAreTheData | mcus/arm_gd32fx/tinyUsb/lnTinyUsbImpl.cpp:286-300 | the packets, all full but the last, laid end to end are the data |
| UsbTransfer.LastPacket | mcus/arm_gd32fx/tinyUsb/lnTinyUsbImpl.cpp:286-300 | and there is no empty packet at the end, unless there is no data |
| UsbTransfer.Endpoint.TransmitPacket | mcus/arm_gd32fx/tinyUsb/lnTinyUsbImpl.cpp:286-300 | the next bytes, at most the packet size, are in packet memory |
| UsbTransfer.Endpoint.StartIn | mcus/arm_gd32fx/tinyUsb/lnTinyUsbImpl.cpp:308-341 | begins a transfer to the host with its first packet |
| UsbTransfer.Endpoint.HostFetches | mcus/arm_gd32fx/tinyUsb/lnTinyUsbImpl.cpp:93-102 | the next packet, or the completion with everything sent |
| UsbTransfer.Endpoint.SendAll | mcus/arm_gd32fx/tinyUsb/lnTinyUsbImpl.cpp:93-102 | the packets of the data in order and exactly one completion |
| UsbTransfer.Endpoint.StartOut | mcus/arm_gd32fx/tinyUsb/lnTinyUsbImpl.cpp:322-335 | arms for the first packet, with the size as it is programmed |
| UsbTransfer.Endpoint.HostSends | mcus/arm_gd32fx/tinyUsb/lnTinyUsbImpl.cpp:109-174 | a packet of any size is stored behind the others and nothing else changes; the counts, the next armed size and the completion are those of `UsbTransfer.ReceivedByNumber` |
| UsbTransfer.ReceivedByNumber | mcus/arm_gd32fx/tinyUsb/lnTinyUsbImpl.cpp:109-174 | the count has 16 bits, a short packet or one that reaches the total is the last, and what the endpoint is armed for next |
| UsbTransfer.ArmedExactlyIff | private_include/lnUSBD_endPoints.h:86-101 | the controller is armed for exactly the size asked for only in whole blocks; up to 992 bytes for at least that, above for less |
| UsbTransfer.RxSizeByNumber | private_include/lnUSBD_endPoints.h:86-101 | the word programmed: blocks of two from bit 10 on, or blocks of thirty-two with bit 15 |
| UsbTransfer.CapacityByNumber | private_include/lnUSBD_endPoints.h:86-101 | and how many bytes such a word lets in |
| UsbTransfer.InsideIff | mcus/arm_gd32fx/tinyUsb/lnTinyUsbImpl.cpp:139-151 | a packet stays inside the buffer, and the count at most the total, exactly if it is no more than is left |
| UsbTransfer.SafeFromEveryHostIff | mcus/arm_gd32fx/tinyUsb/lnTinyUsbImpl.cpp:109-174 | no host can make the driver store behind the buffer exactly if the last packet fills whole blocks, on endpoint 0 whole packets once there is more than one |
| UsbTransfer.SevenBecomeEight | mcus/arm_gd32fx/tinyUsb/lnTinyUsbImpl.cpp:109-174 | a buffer of 7 bytes takes a packet of 8, and on endpoint 0 one of 100 takes 128 and waits for more |
| UsbTransfer.WholeTransfer | mcus/arm_gd32fx/tinyUsb/lnTinyUsbImpl.cpp:139-163 | data cut into packets is accepted to the last one, which completes the transfer |
| UsbTransfer.Endpoint.ReceiveAll | mcus/arm_gd32fx/tinyUsb/lnTinyUsbImpl.cpp:109-163 | for any packets: those up to the completing one are stored end to end and nothing else changes, with exactly one completion |
| UsbTransfer.Endpoint.ReceiveData | mcus/arm_gd32fx/tinyUsb/lnTinyUsbImpl.cpp:109-163 | sent in packets and received, data arrives as it was, in one completion |
| FlashProgram.Flash.Write | mcus/arm_gd32fx/src/lnFMC_impl.cpp:210-273 | programs exactly the bytes asked for, at any address parity and length: each becomes the and of what it was and the data, and all others stay; two when asked for none at an odd address |
| FlashProgram.TouchedIff | mcus/arm_gd32fx/src/lnFMC_impl.cpp:220-271 | which is the only case in which it is not what was asked for |
| FlashProgram.ErasedTakesTheData | mcus/arm_gd32fx/src/lnFMC_impl.cpp:210-273 | on erased flash the bytes asked for hold the data and all others are as before |
| Ws2812.NibbleBits | libraries/WS2812B/lnWS2812B_timer.cpp:65-85 | the bits of a byte are those of its nibbles, high one first |
| Ws2812.ByteFrameBits | libraries/WS2812B/lnWS2812B_timer.cpp:65-85 | the eight pulses of a byte, from its digits |
| Ws2812.Strip.Begin | libraries/WS2812B/lnWS2812B_timer.cpp:24-52 | the table holds, for each four-bit value, the pulse of each bit, most significant first: four sixths of the period for a one and two for a zero, rounded |
| Ws2812.Strip.ConvertRgb | libraries/WS2812B/lnWS2812B_timer.cpp:65-85 | one half of the buffer becomes the frame of the LED, the other half stays |
| Ws2812.Strip.Start | libraries/WS2812B/lnWS2812B_timer.cpp:90-107 | the first two frames are in the two halves of the buffer; with one LED the second half is zero |
| Ws2812.Strip.TimerCallback | libraries/WS2812B/lnWS2812B_timer.cpp:116-151 | refills only the half just sent |
| Ws2812.Strip.HalfSent | libraries/WS2812B/lnWS2812B_timer.cpp:116-151 | the half being sent next is not touched, and the stream so far is right |
| Ws2812.Strip.Update | libraries/WS2812B/lnWS2812B_timer.cpp:90-151 | when the semaphore is first given exactly the frames of all LEDs have gone out: for each colour byte in order the eight pulses of its bits, most significant first |

## Left out

- NvmStore.Nvm.Write: ids of 65535 and above and sizes above 64 are excluded by its preconditions, and fewer than two or more than 100 sectors by those of the constructor; what becomes of an entry with such an id or size is stated, for all of them, in `NvmLog.NewIdIsFoundIff` and `NvmLog.LastIdHidesTheRest`. When the entry does not fit, nothing is said of what its own id reads; and of later calls on the same object only that a write that failed leaves no write index.
- NvmStore.Nvm.WriteOn: behind the last sector there is no erased flash, so that a write stops there.
- NvmStore.Nvm.Format: a power loss while other sectors are active may bring an old sector back; only a format after a failed `begin` is claimed to be safe.
- Failing flash operations: the error branches of NeVerMind are there as early returns, but the modelled device fails only when a half-word may not be programmed, which is proved to happen at most where a payload leaves its sector.
- Erasing a sector is one step; an erasure cut in the middle is not modelled.
- `getWriteAddress`, `dumpEntries` and the field `_readIndex` of NeVerMind: nothing depends on them.
- EventGroup.FastEventGroup.WaitFirst: `waitEvents` is modelled as its atomic steps, which the state machine interleaves; clearing the notification state after an immediate return has no effect on the notification count and is not a step.
- EventGroup.NoLostWakeup: one owner, as the class demands; the 32-bit event word is the set of its bits and the notification count does not wrap.
- SerialTx.TxOnlyBufferedDma.Transmit: a wait that never ends is a return with `ok` false once nothing is in flight; more than one writer at a time is in the state machine only.
- RttWrite.Channel.Write: memory is sequentially consistent; the barrier before publishing is what the model takes for granted.
- I2cTransmit.TwoWire.IrqTx: the error interrupt, the enable bit of the buffer-empty interrupt and the wait for the stop bit are not modelled, nor is receiving; the time limit of the semaphore is the end of the list of events of `MultiWrite`.
- DhcpClient.Dhcp.DhcpRun: sockets are a datagram that may be waiting and a list of datagrams sent; sending is taken to work, as the code does, and a state byte outside the four states is not modelled.
- UsbTransfer.Endpoint.HostSends: SETUP packets are not modelled here, nor are controllers that count 32-byte blocks from one and so accept 32 bytes more than `Armed` says; the handler's contract covers packets of every size.
- UsbRegisters.EndpointRegister.SetEpStatus: of the hardware's own changes those of packets are modelled, with the status falling to NAK as the driver expects; resets and isochronous endpoints are not.
- UsbPma.UsbDevice.CopyToSRAM: the buffer is readable up to an even length, as the source notes.
- FlashProgram.Flash.Write: the controller's error flags are not modelled.
- Ws2812.Strip.Update: it ends with the first give; what the DMA repeats until the timer is stopped is not modelled.
- Closing and reopening USB endpoints, serial reception, peripheral drivers, logging, network stack glue and start-up code: register accesses and bookkeeping outside these algorithms.
