# Iron V core: verified model

Iron V is a bare-metal C firmware for the ESP32-C6. This project models its core state
machines, data structures and codecs in Dafny and proves what the rest of the firmware relies
on. Each part has one file of functions and lemmas; where the C code changes state in place, a
second file (or a class at the end of the first) holds the code as methods on fields and
arrays, and ties every method to those functions.

| part | files | source |
|---|---|---|
| machine words | Words.dfy | |
| deferred-call ring | DpcQueue.dfy | src/dpc.c |
| boot slot selection | OtaSelect.dfy | src/ota.c |
| key-value store | NvsStore.dfy, NvsRuntime.dfy | src/nvs.c |
| command mailbox | Mailbox.dfy | src/power.c, lp_core/main.c |
| DHCP client | DhcpClient.dfy, DhcpRuns.dfy, DhcpOptions.dfy, DhcpRuntime.dfy | src/dhcp.c |
| Wi-Fi provisioning | Provisioning.dfy, ProvisioningRuns.dfy, ProvisioningRuntime.dfy | src/provisioning.c |
| memory pools and scratch arena | Arena.dfy, ArenaRuntime.dfy | src/arena.c |
| physical memory protection | BitOrder.dfy, Pmp.dfy, PmpRuntime.dfy | src/pmp.c |
| block copies, strings | Memory.dfy | src/string.c |
| Internet checksums | Checksum.dfy | src/net.c |
| JSON | Json.dfy, JsonRuntime.dfy | src/json_lite.c, src/api_v1.c |
| DNS names | Mdns.dfy | src/mdns.c |

How the environment appears:

- Two sides that share words (interrupt and main loop, main and low-power core) are step
  machines, one access of a shared word per step, interleaved in any way. Accesses take effect
  in program order.
- A power cut is any flash content the interrupted step may leave. Bytes are programmed in
  order; a torn record, header or entry fails its check. Checksum functions are parameters, so
  every result holds for every checksum; where the code takes equal checksums for equal data,
  the result says so.
- Time, random words, replies, link and radio events are inputs. Microsecond clocks stay below
  2^63, where no sum wraps around. 32-bit counters wrap explicitly.
- A bit mask is the sequence of its bits, a string is what precedes its terminator, and a
  32-bit word of address space is a bit vector only where bits matter (Pmp.dfy).

Where the code does not do what its comments or tests suggest, the model follows the code, a
lemma shows an input, and another says exactly when the code does meet the promise:

- a slot switch survives a reboot: `OtaSelect.SurvivesRebootIffNoWrap` (sequence wrap);
- a restored snapshot matches: `OtaSelect.RestoreMatchesIff` (two invalid records);
- only genuine entries load: `NvsStore.LoadsOnlyGenuineIff`, `NvsStore.DamagedEntryCanBeLoaded`; a read
  stays inside its entry: `NvsStore.ReadsStayInsideIff`, `NvsStore.DamagedEntryIsOverread`;
- a mailbox result is true and no command is lost: `Mailbox.SendIsSafeIff`, `Mailbox.ClearSendsLoseNone`,
  `Mailbox.OkCanBeFalseAfterTimeout`, `Mailbox.ClearCanEraseNextCommand`, `Mailbox.NextSendCanOverwrite`;
- an expired address leaves the stack: `DhcpRuns.StackPastExpiryIff`, `DhcpRuns.RunAndStack`,
  `DhcpRuns.StoppedAddressStays`, `DhcpRuns.ForgottenAddressStays`;
- a rebinding client stops sending: `DhcpRuns.SendsAreBounded`, `DhcpRuns.ForgottenRebindingGoesOn`;
- unproven portal credentials go away when they fail: `ProvisioningRuns.GivenUpIff`,
  `ProvisioningRuns.InterruptedTrialKeepsCredentials`, `ProvisioningRuns.WithoutSoftApNothingIsDropped`;
- they do not survive a reboot: `ProvisioningRuns.TriedStayOutOfFlashIff`,
  `ProvisioningRuns.ReconfiguringReachesFlash`, `ProvisioningRuns.FailedTrialIsStoredIff`;
- saved credentials survive a reboot: `ProvisioningRuns.RebootKeepsCredentialsIff`;
- a refused configuration changes nothing: `Provisioning.SetIsAllOrNothingIff`,
  `Provisioning.LongestPassIsHalfWritten`;
- a protection entry covers what was asked for: `Pmp.Na4RegionIsExactIff`, `Pmp.TorRegionIsExactIff`,
  `Pmp.WrappingTorRegionIsEmpty`; its address moves only while it is off: `Pmp.InitMovesBeforeOffIff`,
  `Pmp.InitExposesAddressZero`; what other entries apply to stays: `Pmp.OthersApplyAlikeIff`,
  `Pmp.LockedEntryAppliesAlike`, `Pmp.DisablingMovesRangeAbove`;
- strncpy writes n bytes: `Memory.StrNCpy`; memcpy moves: `Memory.ForwardIsMoveIff`;
- a checksum is that of RFC 1071: `Checksum.NetChecksum`, `Checksum.TcpChecksum` (32-bit sums);
- a name that parses can be skipped: `Mdns.SkipAgreesIff`; parsing ends: `Mdns.NeverEndsIff`,
  `Mdns.SelfPointerDiverges`.

`dafny verify dfyconfig.toml` checks the project.

## Model

| member | source | states |
|---|---|---|
| DpcQueue.Queue.constructor | src/dpc.c:25-42 | an initialised queue is empty, with no drops |
| DpcQueue.Queue.Enqueue | src/dpc.c:44-70 | appends at the back; refused, counted as a drop and otherwise without effect exactly at 64 queued events |
| DpcQueue.Queue.Dequeue | src/dpc.c:72-99 | hands over the oldest event and keeps the others in order; refused exactly when the queue is empty |
| DpcQueue.Queue.Process | src/dpc.c:163-179 | takes the oldest event and calls its handler exactly if it is not null; reports false exactly on an empty queue |
| DpcQueue.Queue.ProcessAll | src/dpc.c:181-189 | drains the queue while handlers and interrupts offer more events between its turns: ends empty, and the handlers run for what was queued and what was accepted meanwhile, once each and in order; the count returned is their number modulo 2^32 |
| DpcQueue.DrainIsFifo | src/dpc.c:181-189 | what a drain handles is what was queued followed by what was accepted meanwhile, in the order of acceptance; without arrivals exactly what was queued |
| DpcQueue.EnqueueAppends | src/dpc.c:44-70 | with wrapping 32-bit indices and 64 slots, the queued events after an enqueue are the old ones and the new one |
| DpcQueue.DequeueRemovesOldest | src/dpc.c:72-99 | the slot at tail holds the oldest queued event; after a dequeue the others remain in order |
| DpcQueue.NoSlotOverwritten | src/dpc.c:44-70 | at no access does the producer write a slot that holds a published event not yet consumed |
| DpcQueue.ProducerKeepsInv | src/dpc.c:44-70 | each single access of the producer keeps the ring invariant, whatever the consumer has in hand |
| DpcQueue.ConsumerKeepsInv | src/dpc.c:72-99 | each single access of the consumer keeps it, whatever the producer has in hand |
| DpcQueue.EveryInterleavingIsFifo | src/dpc.c:44-99 | under every interleaving of single accesses, with both indices wrapping any number of times, what was dequeued is a prefix of what was accepted, the index distance is the number queued and at most 64, and accepted plus dropped plus in progress is the number attempted |
| DpcQueue.StepRefinesBoundedFifo | src/dpc.c:44-99 | every access leaves the abstract bounded queue alone, appends the offered event to one that is not full, or removes its oldest element, the one copied |
| DpcQueue.VerdictsAreRightWhenRead | src/dpc.c:44-99 | full and empty verdicts are true of the queue at the moment of the read that decides them |
| DpcQueue.UninterruptedEnqueue | src/dpc.c:44-70 | without interference the producer's accesses add up to the whole enqueue |
| DpcQueue.UninterruptedDequeue | src/dpc.c:72-99 | without interference the consumer's accesses add up to the whole dequeue and hand over the oldest event |
| OtaSelect.BootIsCoherent | src/ota.c:348-379 | whatever the two sectors hold, ota_init leaves RAM mirroring flash with the winning record active |
| OtaSelect.BootPicksNewest | src/ota.c:285-345 | a boot goes by a record with the magic number, a slot that exists and a matching checksum, the newer of two such and the first of two equal ones, and falls back to the other one's slot; without one slot 0 is valid under number 1, in RAM and flash |
| OtaSelect.RebootKeepsSelection | src/ota.c:285-345 | re-deriving from the two records gives the slot, state, sequence number and sector held in RAM |
| OtaSelect.ApplyKeepsCoherent | src/ota.c:558-660 | switch, mark-valid and rollback keep RAM and flash coherent while the sequence number does not wrap |
| OtaSelect.SurvivesRebootIffNoWrap | src/ota.c:262-281 | a completed call survives the next reboot if and only if the sequence number was not 2^32-1 |
| OtaSelect.CallTakesEffect | src/ota.c:558-660 | a switch to the other slot makes it the running one, on test, and any other switch does nothing; marking makes the running slot valid; a rollback makes the other slot the running one, valid: at once and after the next boot |
| OtaSelect.CutIsAtomic | src/ota.c:262-345 | after a power cut at any flash step of a call, booting finds the selection from exactly before or exactly after it |
| OtaSelect.BootCutIsAtomic | src/ota.c:285-345 | cutting the write of the factory record during ota_init ends in the same factory selection |
| OtaSelect.EventIsAllOrNothing | src/ota.c:558-660 | one call, completed or cut and rebooted, takes full effect or none, and leaves RAM and flash coherent |
| OtaSelect.EveryRunIsAtomic | src/ota.c:239-660 | over any run of calls, each possibly cut at any flash step, the final selection is that of all completed and some of the interrupted calls, in order; the final slot is the target of the last switch or rollback among these, in the state the last of them gave it |
| OtaSelect.ReplayEndsAt | src/ota.c:558-660 | replaying calls of which some took effect ends at the slot and state told by the targets of these alone |
| OtaSelect.RestoreMatchesIff | src/ota.c:395-451 | after a snapshot restore the snapshot matches, unless neither of its records is valid and something had to be rewritten |
| OtaSelect.RestoreBringsBack | src/ota.c:410-451 | a restored snapshot with a valid record comes back whole: the same sectors valid, with the saved records in RAM and flash |
| OtaSelect.RestoreUndoes | src/ota.c:381-451 | whatever was called since, restoring what was saved gives back slot, state, sequence number and sector, at once and after the next boot |
| OtaSelect.RestoreKeepsCoherent | src/ota.c:410-451 | a restore keeps RAM and flash coherent, so the restored selection survives a reboot |
| OtaSelect.RestoreCutBootsKnownRecord | src/ota.c:410-451 | a power cut anywhere in a restore, which rewrites two sectors, boots coherently into a record that was there before, is the snapshot's or is the factory's, never a torn one |
| OtaSelect.ProgramErased | src/ota.c:147-200 | programming an erased sector, which can only clear bits, stores exactly the record |
| OtaSelect.Subsystem.EraseSector | src/ota.c:202-236 | erases one sector; the contents a cut may leave are recorded |
| OtaSelect.Subsystem.WriteSector | src/ota.c:147-200 | programs one record into an erased sector; the contents a cut may leave are recorded |
| OtaSelect.Subsystem.WriteSelectRecord | src/ota.c:262-281 | erase then program: stores the record in flash and RAM, and every intermediate flash content is one a power cut may leave |
| OtaSelect.Subsystem.SelectActiveRecord | src/ota.c:285-345 | derives the active record as specified, writing a factory record when both are invalid |
| OtaSelect.Subsystem.Init | src/ota.c:348-379 | ends in the state booting from the present flash gives |
| OtaSelect.Subsystem.SwitchSlot | src/ota.c:558-597 | Ok exactly for the other one of slots 0 and 1, InvalidParam for what is no slot, and no effect unless Ok; then the target runs on test, after a reboot too, with the old slot to fall back to; every flash content on the way boots to the selection before or after |
| OtaSelect.Subsystem.MarkSlotValid | src/ota.c:599-628 | the running slot stays and is valid, after a reboot too; every flash content on the way boots to the selection before or after |
| OtaSelect.Subsystem.RollBack | src/ota.c:630-660 | the other slot runs, valid, after a reboot too; every flash content on the way boots to the selection before or after |
| OtaSelect.Subsystem.RestoreSnapshot | src/ota.c:410-451 | rewrites exactly when the snapshot did not match; a genuine one with a valid record comes back whole and leaves RAM and flash coherent; every flash content on the way is one RestoreCutBootsKnownRecord covers |
| NvsStore.PutIsMapUpdate | src/nvs.c:373-408 | set is map update with distinct keys kept; it is refused as full exactly for a new key at 32 entries |
| NvsStore.RemoveIsMapRemoval | src/nvs.c:604-627 | erase is map removal and reports not-found exactly for an absent key |
| NvsStore.ViewHas | src/nvs.c:281-298 | the index search finds a key exactly when the map has it, and its value |
| NvsStore.U32RoundTrip | src/nvs.c:435-493 | a stored 32-bit value is read back |
| NvsStore.LoadsOnlyGenuineIff | src/nvs.c:301-371 | on an arbitrarily damaged sector nvs_init loads only entries that pass their check if and only if those come first |
| NvsStore.DamagedEntryCanBeLoaded | src/nvs.c:331-342 | a sector whose first of two entries is damaged: the damaged one is loaded |
| NvsStore.ReadsStayInsideIff | src/nvs.c:410-433 | whatever the key and the buffer, a read copies no more than the 64 bytes of a value if and only if every entry a search can find has a length of at most 64: neither loading nor reading checks it |
| NvsStore.DamagedEntryIsOverread | src/nvs.c:331-342 | a damaged entry of length 65535 that is loaded, and a read of it that goes past its value |
| NvsStore.CommitStoresIff | src/nvs.c:209-240 | a commit leaves the sector equal to the cache if and only if the checksum over count and entry checksums, in order, is not the same for it and for something else in the sector |
| NvsStore.NoCollisionMeansEqual | src/nvs.c:209-218 | where the checksums tell two lists of entries apart, by entry and by list, equal sums mean equal entries |
| NvsStore.CommitStores | src/nvs.c:209-240 | a commit writes every change the checksums can tell: afterwards the sector holds the cache |
| NvsStore.TickRespectsGate | src/nvs.c:252-278 | a pending change is held back exactly while the gate is busy and it has waited less than 60 s since first seen; nothing is written meanwhile, and afterwards the sector holds the cache if the checksums can tell them apart |
| NvsStore.LoadedImage | src/nvs.c:176-204 | what a flush writes is what nvs_init loads |
| NvsStore.BootRestoresMap | src/nvs.c:301-371 | booting from a sector that holds the cache gives the same map except boot_count plus one, unless 32 other keys leave no room for the counter |
| NvsStore.CutLoadsPrefix | src/nvs.c:176-204 | after a power cut anywhere in a sector rewrite nvs_init loads the old image or exactly a prefix of the new one; if an interrupted erase spared the old header, a prefix of the old image if and only if the entries left whole come first, and otherwise an entry that fails its check |
| NvsStore.StepKeepsSync | src/nvs.c:176-634 | sets, erases, commits, ticks, restores, cuts and boots keep the store well formed and, when nothing is pending, equal to the sector |
| NvsStore.EveryRunStaysInSync | src/nvs.c:176-634 | the same over every run of them, power cuts included (of erases that spared the header, those whose whole entries come first), with checksums that tell the cache from the sector |
| NvsStore.EveryRunReadsInside | src/nvs.c:410-433 | over every such run, from a store whose entries, in the cache and in the sector, are no longer than 64 bytes, every read stays inside its entry |
| NvsRuntime.Nvs.constructor | src/nvs.c:301-371 | power-on ends in the state booting from the sector gives |
| NvsRuntime.Nvs.EraseSector | src/nvs.c:159-171 | blanks the sector; a cut leaves a header that fails its check, or the old header with each slot as it was or failing its check |
| NvsRuntime.Nvs.WriteHeader | src/nvs.c:186-189 | programs the header first; a torn one fails its check |
| NvsRuntime.Nvs.WriteEntries | src/nvs.c:190-195 | programs the entries in order after the header; every cut leaves a prefix |
| NvsRuntime.Nvs.CacheImageCrc | src/nvs.c:209-218 | is the checksum over the count and the checksum of every entry, in order |
| NvsRuntime.Nvs.FlushCacheToFlash | src/nvs.c:176-204 | rewrites the sector as specified; every content on the way is one CutLoadsPrefix covers |
| NvsRuntime.Nvs.CommitNow | src/nvs.c:226-240 | nothing when clean, nothing written when the checksums agree; otherwise, and so wherever the checksums can tell, the sector holds the cache afterwards |
| NvsRuntime.Nvs.TickAt | src/nvs.c:252-278 | changes no stored entry; a change stays pending if and only if the gate is busy and less than 60 s have passed since it was first seen, nothing is written until then, and then the sector holds the cache if the checksums can tell |
| NvsRuntime.Nvs.FindKeyIndex | src/nvs.c:281-298 | finds the first valid entry with the key |
| NvsRuntime.Nvs.LoadEntries | src/nvs.c:324-344 | loads as many of the first entries as the sector holds genuine ones |
| NvsRuntime.Nvs.LoadSector | src/nvs.c:301-352 | takes over the sector, or reformats it if its header is bad |
| NvsRuntime.Nvs.Init | src/nvs.c:301-371 | commits what is pending, loads the sector and counts the boot |
| NvsRuntime.Nvs.SetBlob | src/nvs.c:373-408 | updates the map and marks the change pending, or refuses a bad argument or a new key in a full store without effect |
| NvsRuntime.Nvs.SetU32 | src/nvs.c:435-470 | the same for a 32-bit value |
| NvsRuntime.Nvs.SetStr | src/nvs.c:495-536 | the same for a string, stored with its terminator and refused from 64 bytes on |
| NvsRuntime.Nvs.GetBlob | src/nvs.c:410-433 | of any cache, damaged entries included, reports the stored length and copies inside the entry exactly if that is at most 64 or the buffer no larger; of a well-formed one returns the mapped value clipped to the buffer, and its full length |
| NvsRuntime.Nvs.GetU32 | src/nvs.c:472-493 | returns the value stored for the key; a stored length under 4 is reported corrupt, whatever the cache holds |
| NvsRuntime.Nvs.GetStr | src/nvs.c:538-557 | returns the stored string, clipped and always terminated inside the buffer; the copy stays inside the entry as that of GetBlob into one byte less does |
| NvsRuntime.Nvs.EraseKey | src/nvs.c:604-627 | removes the key from the map and nothing else |
| NvsRuntime.Nvs.ShiftLeft | src/nvs.c:613-622 | moves the later entries up by one in place |
| NvsRuntime.Nvs.Clear | src/nvs.c:629-634 | whatever the store held, cache and sector hold nothing afterwards and nothing is pending; every content on the way is one CutLoadsPrefix covers |
| NvsRuntime.Nvs.SnapshotSave | src/nvs.c:559-570 | saves the present entries, never more than a restore accepts: what SnapshotRestore brings back |
| NvsRuntime.Nvs.SnapshotRestore | src/nvs.c:572-602 | whatever happened since the save, makes the store equal to the snapshot, rewriting the sector exactly when it was not |
| Mailbox.LpKeepsInv | lp_core/main.c:155-200 | each access of the low-power core keeps the protocol invariant |
| Mailbox.HpKeepsInv | src/power.c:120-149 | each access of the main processor keeps it |
| Mailbox.EveryRunKeepsInv | src/power.c:102-192 | so does every interleaving of both and of new sends |
| Mailbox.AtMostOnce | lp_core/main.c:155-200 | under every interleaving no sent command executes twice, and commands execute in the order sent |
| Mailbox.LogIsSent | lp_core/main.c:155-200 | only sent commands execute, with the opcode sent |
| Mailbox.ResultMeansExecutedOnce | src/power.c:120-149 | a result that is no timeout means the command executed exactly once, if nothing timed out before or if the command word was clear when its send began; it is OK exactly for opcodes 1 to 3 and for those with bit 31 set |
| Mailbox.SampleReadsCount | src/power.c:176-192 | a sample that succeeds, with no timeout before or a clear command word when it began, reads the header with the low 16 bits of the number of samples since the last reset, its own included; the wake count is that number modulo 2^32 |
| Mailbox.SendEndsAsRead | src/power.c:129-149 | of every send, for every timeout n and every interleaving: it is over exactly if an answer was read or all n reads took place, a timeout exactly if none of the n found the opcode or the error bit, and otherwise what was found first decides the result |
| Mailbox.ClearSendIsAnswered | src/power.c:120-149 | in every reachable state a send begun with the command word clear, in which the low-power core makes six accesses between the command write and the last of the n reads, is over by that read: OK for opcodes 1 to 3 and those with bit 31, invalid for the others |
| Mailbox.SendIsSafeIff | src/power.c:102-149 | in every reachable state between sends: every next send of any opcode, for every poll budget and every interleaving, ends with a true result or with its command still held, and with no command that was held before lost, if and only if the command word is clear when it begins |
| Mailbox.UnclearSendCanBeLost | lp_core/main.c:155-200 | from any reachable state with a command still in the word, a schedule in which the next command is erased by the final clear and times out unexecuted |
| Mailbox.HeldIsExecuted | lp_core/main.c:155-200 | once written, a command stays held under every interleaving until the next send begins, and is executed as soon as the low-power core has made three accesses, whatever the main processor does in between |
| Mailbox.ClearSendsLoseNone | src/power.c:102-149 | over every run in which each send begins with the command word clear, however many time out, every command but the newest has been executed, and the newest is held or still being sent |
| Mailbox.NextSendCanOverwrite | src/power.c:122-149 | a run in which a command began clear, timed out and was held, and the next send, begun at once, overwrites it: it never executes |
| Mailbox.OkCanBeFalseAfterTimeout | src/power.c:120-149 | the condition is needed: a run in which a send that begins with the word not clear reports OK for a command that never executes |
| Mailbox.ClearCanEraseNextCommand | lp_core/main.c:155-200 | the same without any timeout before: the final clear erases the next command, which then times out unexecuted |
| Mailbox.Board.ServiceOneAccess | lp_core/main.c:155-200 | one access changes at most one shared word, clears the command word only after its command has executed and been answered, and executes at most the fetched command, newer than all before |
| Mailbox.Board.PostCommand | src/power.c:120-127 | clears the acknowledge word and then writes the command, with any accesses of the other core in between |
| Mailbox.Board.AwaitAck | src/power.c:129-149 | the first answer read is the result; a timeout only after timeout reads that all found none |
| Mailbox.Board.SendCmd | src/power.c:102-149 | the result is what SendEndsAsRead and ClearSendIsAnswered say of the trace of the call; with the command word clear, or as long as nothing timed out, a result means the command executed during the call, once; with the word clear a command that times out is held when the call returns and every one held before has been executed; if every send so far began clear, every earlier command has |
| Mailbox.Board.SampleTelemetry | src/power.c:176-192 | the send ends as the same two say; with the command word clear, or as long as nothing timed out, the value returned carries the count of samples |
| DhcpClient.DeadlinesInOrder | src/dhcp.c:1211-1268 | for every lease and every option 58 and 59: T1 <= T2 < expiry or all never; the server's times are used when 0 < T1 < T2 < lease, and without them a half and seven eighths of the lease |
| DhcpClient.Jittered | src/dhcp.c:768-773 | the wait is the delay plus or minus at most a second |
| DhcpClient.JitterIsUsed | src/dhcp.c:768-773 | every wait in that range comes about for some random word |
| DhcpClient.NextBackoffDoubles | src/dhcp.c:775-779 | the delay after n doublings is 4 s times 2^n, up to 64 s |
| DhcpClient.BudgetIsLogarithmic | src/dhcp.c:782-790 | halving the time left, never below a minute, allows at most k+1 sends within 2^k minutes |
| DhcpClient.RetryUsesBudget | src/dhcp.c:782-790 | every send uses up one of the sends its deadline allows |
| DhcpClient.LeaseBudget | src/dhcp.c:782-790 | at most 28 sends for any deadlines a 32-bit lease can give |
| DhcpClient.TransmitKeepsPace | src/dhcp.c:889-913 | while asking for an address the next send is the present delay off, plus or minus a second, and so 3 to 65 s, and the delay doubles; while renewing or rebinding it is half the time left to the deadline off, at least a minute, and within the deadline's budget |
| DhcpClient.StartAsksForHeldLease | src/dhcp.c:968-992 | link up asks again, by its address, for exactly a held lease with time left, with a new xid; otherwise it discovers |
| DhcpClient.TickSendsWhenDue | src/dhcp.c:994-1080 | a tick sends exactly when a message is due: T1 while bound, T2 or the next send while renewing, the next send in the other running states, at once when a held lease has expired, and never while idle or static; in each case the message of the state then entered, a DISCOVER exactly while discovering; a tick before that changes nothing |
| DhcpClient.UseOfReply | src/dhcp.c:1302-1367 | with our xid an OFFER of an address while discovering is asked for by that address; an ACK to a REQUEST puts its address into use, with what else it gives; a NAK to one ends the lease and discovers after the present delay; any other reply changes nothing |
| DhcpRuns.StepKeepsStateInv | src/dhcp.c:935-1151 | every event keeps the relation between state, lease and the stack's address |
| DhcpRuns.EveryRunKeepsStates | src/dhcp.c:935-1367 | over every run a held lease means not discovering, requesting or static; bound, renewing and rebinding mean a held lease unless forget was called since the bind |
| DhcpRuns.TickEndsExpiredLease | src/dhcp.c:994-1018 | after every tick a held lease has time left; an expired one is dropped, and its address leaves the stack if and only if the client was leasing or rebooting: that of a stopped client stays |
| DhcpRuns.MessagesNameTheAddressInUse | src/dhcp.c:801-886 | over every run a message names our address only while renewing or rebinding, and then the one the stack uses; it carries a requested address only while requesting or rebooting, and then the one asked for; the server id only while requesting and unicast only while renewing (table 5 of RFC 2131) |
| DhcpRuns.MessageIsTable5 | src/dhcp.c:801-886 | whatever event sends it, a message carries what its state asks for: the requested address while requesting and rebooting, the server id while requesting, our address while renewing and rebinding, unicast while renewing from a known server (table 5 of RFC 2131) |
| DhcpRuns.EveryRunKeepsPace | src/dhcp.c:889-1080 | over every run the sends of an exchange stay within its budget and DISCOVERs keep their distance |
| DhcpRuns.SendsAreBounded | src/dhcp.c:889-1080 | at most 3 sends while requesting or rebooting; while renewing, and while rebinding with a held lease, at most k+1 within 2^k minutes and never more than 28 |
| DhcpRuns.DiscoversAreSpaced | src/dhcp.c:889-1080 | between starts and without a bind two DISCOVERs are at least 3 s apart, even if every REQUEST is refused |
| DhcpRuns.DiscoverDelaysDouble | src/dhcp.c:889-922 | over every run the delay before the next DISCOVER is 4 s doubled once for each DISCOVER and each refusal since the last start or bind, up to 64 s |
| DhcpRuns.RequestDelaysDouble | src/dhcp.c:889-932 | over every run from power-on the delay before the next REQUEST for an address is 4 s doubled once for each REQUEST sent |
| DhcpRuns.DueIsSentInTime | src/dhcp.c:994-1080 | with ticks at most d apart a running client that stays in its state and silent has not gone d past the time its next message was due: DISCOVER, REQUEST, renewal at T1, rebinding at T2 or the end of the lease |
| DhcpRuns.DiscoversGoOn | src/dhcp.c:1021-1026 | with ticks at most d apart a DISCOVER that nobody answers is followed by the next one within 65 s and d |
| DhcpRuns.ForgottenRebindingGoesOn | src/dhcp.c:1068-1096 | the bound on rebinding needs the held lease: for every number within the clock's range, a timely run from power-on in which a client rebinding with its lease forgotten has sent more often, once a minute past the expiry |
| DhcpRuns.EveryRunKeepsLeaseSafe | src/dhcp.c:925-1300 | with a server that acknowledges only REQUESTs it received and xids not reused, whatever the network does to replies: a held lease is the address of an ACK the server sent, and its recorded expiry is never after the server's own (a server that names no lease time is taken to grant the hour the client assumes) |
| DhcpRuns.BindIsSafe | src/dhcp.c:1211-1266 | an ACK, even one for a retransmission, sets an expiry no later than its sending time plus the lease, or plus the assumed hour if it names none |
| DhcpRuns.NoUseAfterServerExpiry | src/dhcp.c:994-1018 | under the same assumptions a lease held after a tick has not expired at the server, and a bound, renewing or rebinding client not made to forget its lease since the bind has the granted address in the stack and holds that lease |
| DhcpRuns.StepAndStack | src/dhcp.c:935-1151 | after one event a leased address is in the stack without its lease held exactly if the event made it so (a forget, a tick of a stopped client or a start past the expiry) or it was so and the event did not take it out (a bind, a NAK while it was in use, an INIT-REBOOT given up, the static fallback) |
| DhcpRuns.RunAndStack | src/dhcp.c:935-1151 | the same over every run, by these guards of its events alone |
| DhcpRuns.StackPastExpiryIff | src/dhcp.c:994-1018 | after a tick of an honest run the stack uses an address the server has ended the lease of if and only if that time has come and the address is there without its lease, by the guards above |
| DhcpRuns.StoppedAddressStays | src/dhcp.c:1082-1087 | an honest run from power-on: bound for a minute, stopped, a tick past the expiry, started: it discovers with the old address still in the stack |
| DhcpRuns.ForgottenAddressStays | src/dhcp.c:1089-1096 | another: bound for a minute, made to forget, a tick past the expiry: it renews with the old address still in the stack |
| DhcpOptions.ParseOptions | src/dhcp.c:1172-1209 | the option loop ends on every input, reads only inside the field and computes the specified options |
| DhcpOptions.ParseEncoded | src/dhcp.c:1172-1209 | whatever options a server encodes, with any padding, the client takes the last usable value of each |
| DhcpOptions.TruncatedOptionIsIgnored | src/dhcp.c:1172-1209 | an option cut off by the end of the field is ignored with all that follows |
| DhcpRuntime.Dhcp.constructor | src/dhcp.c:949-965 | an initialised client is idle without lease or address, and satisfies every invariant over runs |
| DhcpRuntime.Dhcp.DrawXid | src/dhcp.c:757-765 | draws an xid different from the previous one |
| DhcpRuntime.Dhcp.SendNow | src/dhcp.c:809-886 | the message carries what table 5 of RFC 2131 asks for in its state, and no address, server id or unicast destination in any other |
| DhcpRuntime.Dhcp.TransmitNow | src/dhcp.c:889-913 | sends, and schedules the next send 3 to 65 s off while asking, at least a minute off and within the budget of the deadline while renewing or rebinding |
| DhcpRuntime.Dhcp.BackToInit | src/dhcp.c:916-922 | starts an exchange with a new xid whose DISCOVER is due after the delay, and touches neither lease nor expiry |
| DhcpRuntime.Dhcp.BeginRequest | src/dhcp.c:925-932 | sends the first REQUEST with the current xid; the lease it leads to counts from now |
| DhcpRuntime.Dhcp.GiveUpLease | src/dhcp.c:935-947 | leaves no lease and no address, and none in the stack if it was in use |
| DhcpRuntime.Dhcp.StartClient | src/dhcp.c:968-992 | keeps all run invariants; asks again, by address, for exactly a held lease with time left, and discovers otherwise |
| DhcpRuntime.Dhcp.ExpireLease | src/dhcp.c:1003-1017 | afterwards a held lease has time left; a client whose lease expired discovers at once with a new xid and no address |
| DhcpRuntime.Dhcp.TickRequesting | src/dhcp.c:1027-1050 | sends exactly when due: the same REQUEST up to three times, then a DISCOVER with a new xid and, after an unanswered INIT-REBOOT, without the old lease |
| DhcpRuntime.Dhcp.TickClient | src/dhcp.c:994-1080 | keeps all run invariants; sends exactly when a message is due, the right one; however late it comes, a held lease has time left, an address that expired in use leaves the stack while that of a stopped client stays, and with an honest server the lease ends before it does there and an address in the stack past that is one StackPastExpiryIff names |
| DhcpRuntime.Dhcp.StopClient | src/dhcp.c:1082-1087 | keeps all run invariants; the client rests and its lease, address and times stay |
| DhcpRuntime.Dhcp.ForgetLease | src/dhcp.c:1089-1096 | keeps all run invariants; the lease is no longer held, while state and address stay unless the client is idle |
| DhcpRuntime.Dhcp.SetStaticFallback | src/dhcp.c:1141-1151 | keeps all run invariants; the stack uses the static address and no lease is held |
| DhcpRuntime.Dhcp.BindTo | src/dhcp.c:1217-1300 | puts the address into use with deadlines in order, the last exactly the lease after the first REQUEST of the exchange, or never for an infinite one |
| DhcpRuntime.Dhcp.SetDeadlines | src/dhcp.c:1238-1268 | computes T1, T2 and expiry with fallbacks |
| DhcpRuntime.Dhcp.ProcessPacket | src/dhcp.c:1302-1367 | keeps all run invariants; of the replies, as parsed from their options, those with our xid are used as UseOfReply says and the others not at all |
| Provisioning.SetIsAllOrNothingIff | src/provisioning.c:417-496 | accepted credentials are in RAM and in the store's cache, pending, and not in flash; a refusal leaves RAM alone, and changes the cache if and only if the store took a new SSID before it refused the passphrase |
| Provisioning.LongestPassIsHalfWritten | src/provisioning.c:444-468 | a 64-byte passphrase is refused by the store after the SSID was stored |
| Provisioning.EveryRunKeepsInv | src/provisioning.c:552-1014 | over every run online and retry-wait never keep the SoftAP, the hand-over always does with proven credentials, a failed join leaves nothing unproven, the backoff stays between 1 s and 5 min and is 1 s once joined, and with no change pending flash holds what the cache holds |
| ProvisioningRuns.FailedPortalJoinRestoresIff | src/provisioning.c:684-709 | in setup mode on a provisioned board a failed unproven portal join brings back the credentials from before, in RAM and in the store's cache, exactly when the store has room for them |
| ProvisioningRuns.FailedPortalJoinClears | src/provisioning.c:684-709 | otherwise it clears them, in RAM and in the cache |
| ProvisioningRuns.GivenUpIff | src/provisioning.c:552-719 | over every run from an accepted portal configuration: a failing attempt gives the credentials up if and only if the SoftAP was up at the configuration and no button, setup change, join request, restore, cancel, reboot or earlier outcome came since |
| ProvisioningRuns.RunAndTrial | src/provisioning.c:552-1014 | over every run without a new configuration credentials are on trial at the end if and only if they were at the start and nothing has ended the trial |
| ProvisioningRuns.OffTrialNothingIsDropped | src/provisioning.c:684-719 | credentials not on trial survive every run that writes no others, however many attempts fail |
| ProvisioningRuns.SetupSessionRestores | src/provisioning.c:684-788 | the same over a whole setup session: the credentials are those at its opening, and unless setup mode runs out of time in that pass a reboot right after it finds them too |
| ProvisioningRuns.InterruptedTrialKeepsCredentials | src/provisioning.c:552-825 | whatever interrupts a portal join (the button, opening or closing setup mode, another join request, a restore, a cancel before it starts) keeps the untried credentials, and they stay over every run that writes no others |
| ProvisioningRuns.WithoutSoftApNothingIsDropped | src/provisioning.c:552-571 | credentials configured while no SoftAP is up, in setup mode or not, are never given up over any run that writes no others |
| Provisioning.NoTimeoutDuringPortalJoin | src/provisioning.c:827-858 | no time-out ends setup mode while a portal join is in flight, and the idle time starts over |
| Provisioning.IdleTimeoutWaits | src/provisioning.c:827-858 | the idle time-out comes no earlier than 10 minutes after the last use, however many events lie between |
| Provisioning.DelayDoubles | src/wifi_link.c:9-20 | the delay after k failures is 2^k seconds up to k = 8 and then 5 minutes |
| Provisioning.RetryWaitsForBackoff | src/provisioning.c:664-719 | a failed attempt waits for its backoff plus or minus a fifth, never under 0.8 s |
| Provisioning.JoinTickIsTransition | src/provisioning.c:894-1011 | where a tick takes the join from each state: a due attempt starts with 30 s to join; connected it is online, or hands over for 15 s with the SoftAP kept, and the backoff is 1 s again; the hand-over ends online without the SoftAP if the take-over worked, and otherwise waits to retry; a lost link waits one backoff and takes over the disconnect count; a wait that is over is pending; failures wait, or end a portal join |
| Provisioning.WaitingBoardTriesAgain | src/provisioning.c:894-1007 | with ticks at most d apart and nobody who starts, cancels or restores a join, opens or ends setup mode or restarts the board, one that waits to retry starts its next attempt less than 2d after its wait is over |
| ProvisioningRuns.RebootKeepsCredentialsIff | src/nvs.c:220-278 | over every run in which no write split a pair, a reboot brings back the credentials in RAM if and only if no change that differs in them is pending |
| ProvisioningRuns.RebootFindsLastCommit | src/nvs.c:226-278 | over every run from power-on, what a reboot loads is exactly what the cache held at the last commit, or the flash content at power-on if there was none |
| ProvisioningRuns.StepKeepsAgreementIff | src/provisioning.c:417-536 | RAM goes on agreeing with the store's cache if and only if no write leaves a new SSID beside the old passphrase |
| ProvisioningRuns.QuietPassIsDurable | src/main.c:167-185 | after a pass of the main loop that leaves no join busy, a reboot brings back the credentials in RAM |
| ProvisioningRuns.FailedTrialIsStoredIff | src/provisioning.c:684-709 | the pass in which a trial fails puts what it falls back to in flash, unless setup mode runs out of time in that same tick and the change has waited less than 60 s |
| ProvisioningRuns.TriedStayOutOfFlashIff | src/nvs.c:252-278 | while credentials are tried, and others after them, over any run: they never are in flash if and only if no shell command commits and every nvs_tick comes within 60 s of the one that first saw the pending change |
| ProvisioningRuns.OneAttemptStaysInRam | src/provisioning.c:896-941 | one attempt from the portal, with passes of the main loop at most 29 s apart and no earlier change waiting: until its outcome a power cut brings back the credentials committed before it |
| ProvisioningRuns.ReconfiguringReachesFlash | src/nvs.c:252-278 | configuring again during an attempt does not restart the 60 s: a run in which credentials still being tried reach flash, and a reboot brings them back |
| ProvisioningRuntime.Provisioner.constructor | src/provisioning.c:330-381 | starts valid, idle and not in setup mode, with the credentials flash holds |
| ProvisioningRuntime.Provisioner.Save | src/provisioning.c:417-496 | stores all or nothing in RAM, and tells an empty or overlong SSID, a passphrase too short or too long and a refusal of the store apart; on a refusal the cache changes only by a split write |
| ProvisioningRuntime.Provisioner.ClearSaved | src/provisioning.c:516-536 | no key and no RAM copy is left, and the change is pending unless flash has none either |
| ProvisioningRuntime.Provisioner.BeginJoin | src/provisioning.c:552-571 | queues a join exactly if there are credentials, due at once with the backoff at 1 s, keeps the SoftAP only if it is up, and puts nothing on trial |
| ProvisioningRuntime.Provisioner.HandleConfigure | src/provisioning.c:1405-1437 | accepted credentials are tried next, and on trial exactly if the SoftAP is up; a refusal changes neither join nor credentials in RAM |
| ProvisioningRuntime.Provisioner.CancelJoin | src/provisioning.c:611-617 | afterwards no join waits to start; one under way goes on |
| ProvisioningRuntime.Provisioner.WaitForRetry | src/provisioning.c:664-669 | waits the present backoff plus or minus a fifth and takes the next one |
| ProvisioningRuntime.Provisioner.FailAttempt | src/provisioning.c:684-719 | gives credentials up, for what they fall back to, if they are unproven and the SoftAP stayed up, and otherwise changes none; flash is not touched |
| ProvisioningRuntime.Provisioner.TickJoin | src/provisioning.c:894-1011 | moves the join as JoinTickIsTransition says; a trial goes on until its outcome, and credentials change only when it fails |
| ProvisioningRuntime.Provisioner.OpenSetupMode | src/provisioning.c:760-788 | remembers the credentials, which stay, and takes the station off the air; no effect if a SoftAP is up |
| ProvisioningRuntime.Provisioner.CloseSetupMode | src/provisioning.c:790-809 | ends setup mode and rejoins with what is saved, tried or not, off trial and without the SoftAP |
| ProvisioningRuntime.Provisioner.PressButton | src/provisioning.c:811-825 | toggles setup mode; no effect on a SoftAP that is up otherwise |
| ProvisioningRuntime.Provisioner.TickSetup | src/provisioning.c:827-858 | leaves a portal join alone; otherwise ends setup mode exactly when its maximum or idle time is up or the join has taken the SoftAP down |
| ProvisioningRuntime.Provisioner.TickAll | src/provisioning.c:894-1014 | keeps the invariant and, unless setup mode ends, moves the join as JoinTickIsTransition says; credentials change only when a trial fails, setup mode does not end during a portal join, and flash is not touched |
| ProvisioningRuntime.Provisioner.TickStore | src/nvs.c:252-278 | afterwards a change is pending only while a join is busy and less than 60 s after it was first seen; otherwise flash holds what the cache holds |
| ProvisioningRuntime.Provisioner.CommitStore | src/nvs.c:226-240 | flash holds what the cache holds, and nothing is pending |
| Arena.AllocKeepsInv | src/arena.c:93-161 | the corruption branches are never taken; allocation pops the first free block, or returns null exactly when every block is in use |
| Arena.FreeKeepsInv | src/arena.c:182-248 | a free is accepted exactly for the address of a block in use; a second free is refused without effect |
| Arena.StoreKeepsInv | src/arena.c:93-248 | a client's store inside its live block keeps the heap invariant |
| Arena.AllocKeepsOthers | src/arena.c:93-161 | an allocation changes no word of a block in use |
| Arena.FreeKeepsOthers | src/arena.c:182-248 | a free changes no word of another block in use |
| Arena.AllocZeroes | src/arena.c:157-159 | a new block comes with all words zero |
| Arena.EveryRunIsASet | src/arena.c:93-248 | over every run the free list is acyclic and visits exactly the blocks whose mask bit is clear, the count is that of the mask and of allocations less frees, and the pool behaves as a set of blocks |
| Arena.FreshPoolIsHeap | src/arena.c:38-71 | the pool arena_init leaves satisfies the heap invariant with no block handed out: where every run starts |
| Arena.HandedOutBlocksAreDisjoint | src/arena.c:93-161 | two blocks in use at the same time share no byte and lie inside the pool |
| Arena.ScratchAllocExact | src/arena.c:250-283 | an allocation is aligned, fits, and is refused exactly when empty or longer than what is left: the second check never refuses |
| Arena.ScopesGiveBack | src/arena.c:285-307 | however marks and resets nest, each reset is accepted and gives back exactly what was taken since its mark |
| ArenaRuntime.BlockPool.constructor | src/arena.c:38-71 | every block is on the free list, in address order, and none is handed out |
| ArenaRuntime.BlockPool.LinkAll | src/arena.c:58-70 | links the blocks in place |
| ArenaRuntime.BlockPool.AllocBlock | src/arena.c:111-160 | pops, marks, counts and clears a block in place, or gives up a corrupt list |
| ArenaRuntime.BlockPool.FreeBlock | src/arena.c:210-247 | checks, unmarks and pushes a block in place |
| ArenaRuntime.Allocator.AllocSize | src/arena.c:163-180 | the small pool up to 64 bytes, the medium one up to 256, null for 0 and for more |
| ArenaRuntime.Allocator.FreePtr | src/arena.c:182-208 | the pool a pointer belongs to decides; a foreign one is refused |
| ArenaRuntime.Allocator.Scratch | src/arena.c:250-283 | refused exactly when empty or longer than what is left; otherwise a word-aligned piece starting where the arena was filled to, wasting less than a word |
| ArenaRuntime.Allocator.Mark | src/arena.c:285-292 | resetting to the mark at any later fill of the arena gives back everything taken since, exactly |
| ArenaRuntime.Allocator.Reset | src/arena.c:294-307 | gives back what was taken since the mark exactly for a word-aligned mark not above the offset, ignores any other, and never makes the arena fuller |
| Pmp.NapotMatchesExactly | src/pmp.c:123-146 | every region pmp_calc_napot accepts is matched exactly by the architecture's rule, for every address |
| Pmp.DecodeInvertsCalc | src/pmp.c:148-177 | decoding gives back base and length for every aligned power of two from 8 to 2^31 |
| Pmp.CalcInvertsDecodeIff | src/pmp.c:148-177 | encoding what was decoded gives the register back exactly when it has no bit above address bit 31 and fewer than 29 trailing ones |
| Pmp.LowestClearIsLowest | src/pmp.c:156-173 | the mask standing for the count of trailing ones is a single bit, clear in the register with all bits below it set, and 0 exactly for all ones |
| Pmp.CalcAcceptsIff | src/pmp.c:123-146 | pmp_calc_napot accepts exactly the powers of two from 8 to 2^31 at multiples of themselves, and says which of the two is missing |
| Pmp.SetAcceptsIff | src/pmp.c:179-309 | pmp_set_region writes exactly if the entry exists, is not locked and the region fits its mode, or in automatic mode one of them; otherwise it says which is not so |
| Pmp.AutoRegionIsExact | src/pmp.c:199-309 | in automatic mode an empty region, a naturally aligned one and an aligned word are accepted by a free entry and apply to exactly their bytes |
| Pmp.NapotRegionIsExact | src/pmp.c:179-309 | a region accepted in NAPOT mode, asked for or found, applies to exactly its bytes |
| Pmp.Na4RegionIsExactIff | src/pmp.c:264-271 | in NA4 mode the length is not checked: a region applies to exactly its bytes if and only if it is four bytes long (or runs past the last word) |
| Pmp.Na4RegionCoversFour | src/pmp.c:264-271 | it applies to the four bytes at its start |
| Pmp.TorRegionIsExactIff | src/pmp.c:240-262 | in TOR mode a region that does not wrap is exact if and only if the register below holds a 32-bit address and the end is a word boundary |
| Pmp.WrappingTorRegionIsEmpty | src/pmp.c:240-262 | a TOR region whose end wraps, or is the very end of the address space, is accepted and covers nothing |
| Pmp.SetGoesThroughOff | src/pmp.c:288-308 | in every intermediate register state the entry is as before, off or entirely new, its address moves only while it is off, and no other entry's registers change |
| Pmp.DisableAcceptsIff | src/pmp.c:367-387 | pmp_disable_region writes exactly if the entry exists and is not locked, and otherwise says which is not so |
| Pmp.AppliesAlikeIff | src/pmp.c:240-262 | with its own registers the same, an entry applies to the same bytes if and only if it is not top-of-range above the first entry, or the old and the new register below give it the same range, perhaps an empty one |
| Pmp.OthersApplyAlikeIff | src/pmp.c:103-387 | so in every state of a set, a disable or a step of pmp_init the other entries apply to the same bytes, except the one above if it is top-of-range and its range is no longer the same |
| Pmp.InitMovesBeforeOffIff | src/pmp.c:103-121 | some state of pmp_init's loop has an entry still on and its address moved if and only if it was on, unlocked and not at address 0 |
| Pmp.InitExposesAddressZero | src/pmp.c:103-121 | an enabled entry for which it does: halfway through it applies to the bytes at address 0 |
| Pmp.InitClears | src/pmp.c:103-121 | afterwards every unlocked entry is off and at address 0, and every locked one is as before |
| Pmp.EveryRunKeepsLocked | src/pmp.c:103-387 | a locked entry keeps its configuration byte and address in every state any run of init, set and disable passes through |
| Pmp.LockedEntryAppliesAlike | src/pmp.c:103-387 | what a locked entry applies to stays the same over every run if and only if it is not top-of-range above the first, or the register below gives the same range; it does above another locked entry |
| Pmp.DisablingMovesRangeAbove | src/pmp.c:367-387 | disabling an entry whose address ends the range above: the entry above, enabled and locked or not, then applies to address 0 |
| Pmp.NapotReadsBack | src/pmp.c:311-365 | a NAPOT region reads back as it was set |
| Pmp.Na4ReadsBack | src/pmp.c:311-365 | an NA4 region reads back with length four |
| Pmp.TorReadsBack | src/pmp.c:311-365 | a TOR region that ends on a word boundary above its start reads back with that start and end |
| PmpRuntime.PmpUnit.Initialise | src/pmp.c:103-121 | the loop clears exactly the unlocked entries; locked ones keep byte and address |
| PmpRuntime.PmpUnit.SetTo | src/pmp.c:179-309 | Ok exactly if the entry exists, is not locked and the region fits, and otherwise says why and changes nothing; moves the address only while the entry is off and changes no other entry's registers at any time; a NAPOT region then applies to exactly its bytes |
| PmpRuntime.PmpUnit.EncodeRegion | src/pmp.c:199-286 | a NAPOT or NA4 encoding matches exactly the bytes meant, a TOR one starts where the entry below ends; each error in its place |
| PmpRuntime.PmpUnit.DisableEntry | src/pmp.c:367-387 | Ok exactly if the entry exists and is not locked; turns it off before its address moves to 0, and changes no other entry's registers at any time |
| Memory.MemCpy | src/string.c:66-89 | word and byte path: for every overlap and alignment exactly the upward copy of bytes, and so a move for regions apart or with the destination below |
| Memory.MemMove | src/string.c:177-210 | for every length, overlap and alignment the destination holds the old source and nothing else changes |
| Memory.MoveDownward | src/string.c:187-208 | the backward word and byte path |
| Memory.MovedByte | src/string.c:177-210 | byte by byte what a move means |
| Memory.MoveBack | src/string.c:177-210 | moving there and back restores the source, whatever the overlap |
| Memory.ForwardIsMoveIff | src/string.c:66-89 | an upward copy is a move for every content of the memory if and only if the destination is not inside the source above its start |
| Memory.MemSet | src/string.c:43-64 | fills exactly len bytes, by words where aligned |
| Memory.FilledByte | src/string.c:43-64 | byte by byte what a fill means |
| Memory.StrNCpy | src/string.c:162-175 | copies and pads, writing n+1 bytes exactly when the terminator is among the first n |
| Memory.StrStr | src/string.c:229-254 | finds the first occurrence, or none exactly if there is none |
| Memory.HexToInt | src/string.c:107-141 | reads a hexadecimal token modulo 2^32; refused exactly when empty or with another character |
| Memory.HexRoundTrip | src/string.c:107-141 | the digits of a number, in either case, read back as it |
| Memory.TokenIsFound | src/string.c:107-141 | behind blanks and an 0x, or without, the token is those digits up to a blank or line end |
| Checksum.NetChecksum | src/net.c:261-295 | the loops compute the RFC 1071 checksum if and only if the words sum to less than 2^32, as they do up to 131074 bytes |
| Checksum.Fold | src/net.c:287-291 | the fold loop ends at the one's complement residue |
| Checksum.Accumulate | src/net.c:271-285 | the word loop adds the big-endian words modulo 2^32, an odd last byte padded |
| Checksum.SumWithByte | src/net.c:271-285 | bytes at even offsets count 256 times and those at odd ones once, in an odd last word too |
| Checksum.WrapLosesIff | src/net.c:269-291 | a sum kept in 32 bits keeps its one's complement residue if and only if it did not wrap |
| Checksum.WrittenChecksumVerifies | src/net.c:261-295 | writing the computed checksum at an even offset makes the recomputation 0 |
| Checksum.ChangedWordUndetectedIff | src/net.c:261-295 | a change of one aligned word goes undetected if and only if it is between 0 and 0xFFFF and not every word is now 0 |
| Checksum.ChangedByteDetected | src/net.c:261-295 | a message that verifies does so no more with any one byte changed |
| Checksum.Ipv4Checksum | src/net.c:308-323 | covers four times the low four bits of the first byte, and 20 bytes if that is less |
| Checksum.Ipv4HeaderVerifies | src/net.c:308-323 | any IPv4 header with the computed checksum at offset 10 verifies |
| Checksum.PiecesSum | src/net.c:325-385 | the sums of pseudo-header, header and payload add up to the sum of all three together |
| Checksum.PseudoCounts | src/net.c:325-360 | the pseudo-header counts both addresses, the protocol and the length of the segment |
| Checksum.TcpChecksum | src/net.c:325-385 | for all 16-bit lengths the folded 32-bit sum of the pieces, an odd header taking in one byte past its end; with an even header the checksum of the concatenation if and only if the words sum to less than 2^32, as they do up to 131062 bytes |
| Checksum.UdpChecksum | src/net.c:387-444 | the same, with 0 sent as 0xFFFF |
| Checksum.SegmentVerifies | src/net.c:325-444 | a segment with the value written verifies, also where UDP sends 0xFFFF for 0; the UDP value is never 0 |
| Json.SkipValueExactIff | src/json_lite.c:155-218 | jl_skip_value consumes exactly the text of any value nested at most four deep, in front of anything that cannot continue it, and refuses a deeper one |
| Json.SkipReads | src/json_lite.c:155-213 | the same at every depth |
| Json.SkipAcceptsIff | src/json_lite.c:155-218 | jl_skip_value accepts a text, leaving the given rest, if and only if the text is whitespace, a value nested at most four deep and that rest: whatever is skipped was a value |
| Json.ReadingIsExactIff | src/json_lite.c:95-124 | for digits of any number: at most 655359, within 65535 exactly when the true value is, exact if and only if the true value is at most 655359 |
| Json.NumberRoundTrip | src/api_v1.c:30-46 | the writer's number reads back exactly up to 655359 and is never mistaken for one within 65535 |
| Json.StringRoundTrip | src/json_lite.c:38-82 | reading what the writer escaped gives the input without its control characters |
| Json.ContentReads | src/json_lite.c:38-82 | a string is read as its characters, an escape as the character behind the backslash |
| Json.VisibleIsAll | src/api_v1.c:49-71 | only control characters are left out |
| Json.WriterNeverCutsEscapes | src/api_v1.c:49-71 | whatever the room, what was written is the escaping of the characters that found room; with enough room, of all |
| JsonRuntime.Cursor.SkipWs | src/json_lite.c:13-19 | moves past whitespace, never past the end |
| JsonRuntime.Cursor.TakeChar | src/json_lite.c:21-30 | consumes the character exactly if it comes next |
| JsonRuntime.Cursor.Peek | src/json_lite.c:32-36 | tells whether it would, and consumes only whitespace |
| JsonRuntime.Cursor.ReadString | src/json_lite.c:38-82 | reads a string, clipped to the buffer, and reports exactly when it was |
| JsonRuntime.Cursor.ReadNumber | src/json_lite.c:95-124 | reads a run of number characters; integer exactly when only digits |
| JsonRuntime.Cursor.TakeLiteral | src/json_lite.c:126-136 | consumes the literal exactly if it comes next |
| JsonRuntime.Cursor.ReadBool | src/json_lite.c:138-151 | reads true or false |
| JsonRuntime.Cursor.SkipAt | src/json_lite.c:186-213 | ends on every input, agrees with the specified skip, and never passes the end |
| JsonRuntime.Cursor.SkipContainer | src/json_lite.c:155-184 | the same for the rest of an object or array |
| JsonRuntime.Cursor.SkipValue | src/json_lite.c:215-218 | the same from the top |
| JsonRuntime.Buffer.AppendPiece | src/api_v1.c:19-28 | appends all of the piece or nothing, nothing exactly if the terminator would not fit behind it; the buffer never overflows |
| JsonRuntime.Buffer.AppendU32 | src/api_v1.c:30-46 | appends the decimal digits |
| JsonRuntime.Buffer.AppendEscapedText | src/api_v1.c:49-71 | appends the escaped characters one by one |
| Mdns.HostNameRoundTrip | src/mdns.c:70-155 | a host name of 1 to 32 bytes, encoded anywhere in a packet, parses back as name.local with the offset behind it, and is skipped alike |
| Mdns.PointerRoundTrip | src/mdns.c:113-131 | so does a compression pointer to it |
| Mdns.SkipAgreesIff | src/mdns.c:247-270 | when a name parses, skipping succeeds with the same end if and only if it starts at or before the packet's end |
| Mdns.NameFitsBuffer | src/mdns.c:99-155 | a parsed name always fits its buffer with the terminator |
| Mdns.DivergesIff | src/mdns.c:113-131 | with room for any number of calls, parsing exceeds it exactly when that many pointers follow one another |
| Mdns.NeverEndsIff | src/mdns.c:113-131 | no number of nested calls is enough if and only if 2^14 are not, and if and only if the chain of pointers comes back to an offset it has passed |
| Mdns.BackwardPointersTerminate | src/mdns.c:113-131 | where each pointer leads to before the name that holds it, parsing ends within as many nested calls as the name's offset |
| Mdns.SelfPointerDiverges | src/mdns.c:113-131 | a pointer to itself is followed for ever |
| Mdns.EncodeName | src/mdns.c:70-97 | writes all of the name or nothing, for every name and buffer; a name of 256 bytes or more leaves the low 8 bits of its length in front |
| Mdns.ParseName | src/mdns.c:99-155 | the parser's loop and its call for a pointer |
| Mdns.SkipName | src/mdns.c:247-270 | the skipping loop |
| Mdns.SameNameByScan | src/mdns.c:47-68 | compares names up to the case of ASCII letters |
| Mdns.SameNameIff | src/mdns.c:47-68 | an ASCII letter is taken for the same one in the other case, and nothing else is |
| Mdns.KnownAnswerPresent | src/mdns.c:284-315 | the walk over the answer section |
| Mdns.KnownAnswerIff | src/mdns.c:284-315 | for any records behind any header and questions and before anything else, whatever labels or pointers their names are made of: true if and only if the parser reads one of the names as ours, up to case, and its record is our A record with half its life left |
| Mdns.SpelledIsRead | src/mdns.c:99-155 | a name made of any labels, in full or with pointers for its ends to anywhere in the packet, is read as the labels with dots between them, or refused for lack of room; it never fails otherwise |
| Mdns.SpelledMatchesIff | src/mdns.c:99-155 | such a name matches a name of up to 62 bytes (ours has at most 47) if and only if its labels with dots between them are that name, up to case |
| Mdns.KnownByLabelsIff | src/mdns.c:284-315 | so for any list of records of such names, of this host or any other: true if and only if one of them has the labels of our name and is our A record with half its life left |
| Mdns.EncodedIsSpelled | src/mdns.c:70-97 | the names this responder writes, in full and by pointer, are such names: their labels are the host name and local |

## Left out

- Memory ordering weaker than program order: the fences in src/power.c and src/dpc.c are taken to make shared words appear in program order.
- Flash errors: reads, erases and writes succeed unless power is lost.
- net_set_ip called by other code (src/provisioning.c:786, 803; src/wpa2_client.c:1398; src/wifi.c:1784; src/shell.c:2395): only the DHCP client changes the stack's address here, so an address it leaves there stays longer than where another caller replaces it.
- The hardware's own guard of a locked top-of-range entry: section 3.7.1 of the RISC-V privileged architecture also ignores writes to the address register below it, which the register model carries out.
- What a read past the value of a damaged entry returns: whatever lies behind it in memory.
- CRC32 itself: an arbitrary function; that torn data fails its check is assumed.
- OTA image verification, download and status printing: easy members beside the selection records.
- Automatic rollback after three test boots: the counter is cleared before it is compared (src/ota.c:354-372), so the branch is never taken and the model has none.
- power_mailbox_init in the middle of a handshake: the mailbox starts initialised.
- Sleep modes, retained registers and the trigger pulse: they carry no data of the protocol.
- The DHCP server's lease table, the DNS server and the UDP frames around messages: separate, simpler members.
- DHCP message encoding beyond the fields that depend on the state: constant bytes.
- Telemetry counters and console output of every part: they feed nothing back.
- wifi_link's cached access point and the channel choice: they select where to join, not whether.
- HTTP and shell handlers: parameters reach the model after extraction.
- provisioning_seed_from_config and provisioning_boot: compositions of modelled calls.
- The peripheral permission registers (apm functions in src/pmp.c): register access only.
- pmp_write_cfg and pmp_write_addr: raw register access, which bypasses the lock test.
- ARP table, IPv4 addresses as text and frame dispatch in src/net.c: easy members.
- strcmp, strncmp, strlen, strcpy, memcmp and jl_at_end: plain scans.
- mDNS packet assembly, announcements and rate limits: the names and the answer walk are the hard part.
- Commits inside the runs of Provisioning are whole and store what the cache holds: what a cut commit leaves, and a commit skipped for equal checksums, are in NvsStore (CutLoadsPrefix, CommitStoresIff).
- nvs_erase_all and a snapshot restore of the whole store while provisioning runs: NvsStore has them, the runs of Provisioning do not.
- Mdns.ParseName: takes a bound on nested pointer calls that the C code does not have; with 2^14 it ends otherwise only where the C code does not end (NeverEndsIff).
